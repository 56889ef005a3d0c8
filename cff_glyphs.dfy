/**
 * The glyph closure of the CFF subset: the glyphs a charstring calls in
 * turn (the accented characters of `seac`), as
 * `CalculateDependenciesForCharIndex` reports them, followed through every
 * level of nesting.
 */
module CFFGlyphs {
  import opened Common
  import opened CFF

  /** The glyph's charstring calls other glyphs. */
  predicate HasComponents(f: CFFInput, g: nat)
  {
    DependenciesOf(f, g).Some? && |DependenciesOf(f, g).value| > 0
  }

  /**
   * The walk from glyph `id` finds the dependencies of every glyph it
   * meets within `fuel` levels of nesting.
   */
  predicate Resolves(f: CFFInput, id: nat, fuel: nat)
    decreases fuel
  {
    fuel == 0 ||
      (DependenciesOf(f, id).Some? &&
       forall k :: 0 <= k < |DependenciesOf(f, id).value| ==> Resolves(f, DependenciesOf(f, id).value[k], fuel - 1))
  }

  /** Every glyph of a list resolves. */
  predicate AllResolve(f: CFFInput, ids: seq<nat>, fuel: nat)
  {
    forall i :: 0 <= i < |ids| ==> Resolves(f, ids[i], fuel)
  }

  /** The glyphs reached from glyph `id` by at most `fuel` levels of nesting. */
  function Reach(f: CFFInput, id: nat, fuel: nat): set<nat>
    decreases fuel, 0
  {
    if fuel == 0 || DependenciesOf(f, id).None? then {}
    else ReachAll(f, DependenciesOf(f, id).value, fuel - 1)
  }

  /** Each listed dependency, and what it reaches in turn. */
  function ReachAll(f: CFFInput, cs: seq<nat>, fuel: nat): set<nat>
    decreases fuel, |cs|
  {
    if cs == [] then {}
    else ReachAll(f, cs[..|cs| - 1], fuel) + {cs[|cs| - 1]} + Reach(f, cs[|cs| - 1], fuel)
  }

  /** Everything the glyphs of a list reach. */
  function Dependents(f: CFFInput, ids: seq<nat>, fuel: nat): set<nat>
  {
    if ids == [] then {} else Dependents(f, ids[..|ids| - 1], fuel) + Reach(f, ids[|ids| - 1], fuel)
  }

  /** The nesting depth the walk follows: enough for every simple path through the font's glyphs. */
  function Fuel(f: CFFInput): nat { |f.dependencies| + 1 }

  /** Which listed dependency a reached glyph comes from. */
  lemma {:induction false} ReachAllSource(f: CFFInput, cs: seq<nat>, fuel: nat, c: nat) returns (k: nat)
    requires c in ReachAll(f, cs, fuel)
    ensures k in cs && (c == k || c in Reach(f, k, fuel))
    decreases |cs|
  {
    var init := cs[..|cs| - 1];
    if c in ReachAll(f, init, fuel) {
      k := ReachAllSource(f, init, fuel, c);
      var i :| 0 <= i < |init| && init[i] == k;
      assert cs[i] == k;
    } else {
      k := cs[|cs| - 1];
    }
  }

  /** A listed dependency, and all it reaches, belong to what the list reaches. */
  lemma {:induction false} ReachAllIncludes(f: CFFInput, cs: seq<nat>, fuel: nat, k: nat)
    requires k in cs
    ensures k in ReachAll(f, cs, fuel) && Reach(f, k, fuel) <= ReachAll(f, cs, fuel)
    decreases |cs|
  {
    var init := cs[..|cs| - 1];
    if k != cs[|cs| - 1] {
      var i :| 0 <= i < |cs| && cs[i] == k;
      assert init[i] == k;
      ReachAllIncludes(f, init, fuel, k);
    }
  }

  /**
   * The walk is transitive: a dependency of a reached glyph is reached
   * with one more level of nesting.
   */
  lemma {:induction false} ReachClosed(f: CFFInput, id: nat, fuel: nat, c: nat, d: nat)
    requires c in Reach(f, id, fuel)
    requires DependenciesOf(f, c).Some? && d in DependenciesOf(f, c).value
    ensures d in Reach(f, id, fuel + 1)
    decreases fuel
  {
    var cs := DependenciesOf(f, id).value;
    var k := ReachAllSource(f, cs, fuel - 1, c);
    ReachAllIncludes(f, cs, fuel, k);
    if c == k {
      ReachAllIncludes(f, DependenciesOf(f, k).value, fuel - 1, d);
    } else {
      ReachClosed(f, k, fuel - 1, c, d);
    }
  }
}
