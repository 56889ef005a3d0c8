/**
 * The whole CFF subset `CreateCFFSubset` writes: the glyph list its
 * writers take, the tables in file order with the positions recorded on
 * the way, and the top DICT patched with those positions. A reader that
 * follows the top DICT's offsets finds each table as it was written.
 */
module CFFSubset {
  import opened Common
  import opened CFF
  import opened CFFTables
  import opened CFFGlyphs

  // ----- the glyph list -----

  /** The list with glyph 0 in front, as `CreateCFFSubset` makes sure of before the closure. */
  function WithGlyphZero(ids: seq<nat>): (r: seq<nat>)
    requires |ids| > 0
    ensures |r| > 0 && r[0] == 0 && forall x :: x in r <==> x == 0 || x in ids
  {
    if ids[0] != 0 then [0] + ids else ids
  }

  /** Some glyph of the list calls other glyphs. */
  predicate AnyComponents(f: CFFInput, g: seq<nat>)
  {
    exists i :: 0 <= i < |g| && HasComponents(f, g[i])
  }

  /**
   * The list `AddDependentGlyphs` leaves: when a glyph calls others, the
   * sorted union of the list and all it reaches; otherwise the list as it is.
   */
  ghost function SubsetGlyphs(f: CFFInput, ids: seq<nat>): seq<nat>
    requires |ids| > 0
  {
    var g := WithGlyphZero(ids);
    if AnyComponents(f, g) then Sorted((set x | x in g) + Dependents(f, g, Fuel(f))) else g
  }

  /** A glyph that calls no other reaches nothing. */
  lemma {:induction false} NothingReached(f: CFFInput, ids: seq<nat>, fuel: nat)
    requires !AnyComponents(f, ids)
    ensures Dependents(f, ids, fuel) == {}
    decreases |ids|
  {
    if ids != [] {
      var init := ids[..|ids| - 1];
      assert !AnyComponents(f, init) by {
        forall i | 0 <= i < |init|
          ensures !HasComponents(f, init[i])
        {
          assert init[i] == ids[i];
        }
      }
      NothingReached(f, init, fuel);
      var last := ids[|ids| - 1];
      assert !HasComponents(f, last);
      if fuel > 0 && DependenciesOf(f, last).Some? {
        assert DependenciesOf(f, last).value == [];
      }
      assert Reach(f, last, fuel) == {};
    }
  }

  /**
   * The list the writers should take holds glyph 0 first, every requested
   * glyph and every glyph they reach, and nothing else; glyph 0 appears
   * only in front when it does so in the request.
   */
  lemma SubsetGlyphsComplete(f: CFFInput, ids: seq<nat>)
    requires |ids| > 0
    ensures var r := SubsetGlyphs(f, ids);
      && |r| > 0 && r[0] == 0 && (TailPositive(ids) ==> TailPositive(r))
      && forall x :: x in r <==> x == 0 || x in ids || x in Dependents(f, WithGlyphZero(ids), Fuel(f))
  {
    if AnyComponents(f, WithGlyphZero(ids)) {
      ComposedGlyphs(f, ids);
    } else {
      PlainGlyphs(f, ids);
    }
  }

  lemma ComposedGlyphs(f: CFFInput, ids: seq<nat>)
    requires |ids| > 0 && AnyComponents(f, WithGlyphZero(ids))
    ensures var r := SubsetGlyphs(f, ids);
      && |r| > 0 && r[0] == 0 && TailPositive(r)
      && forall x :: x in r <==> x == 0 || x in ids || x in Dependents(f, WithGlyphZero(ids), Fuel(f))
  {
    var g := WithGlyphZero(ids);
    var r := SubsetGlyphs(f, ids);
    assert r == Sorted((set x | x in g) + Dependents(f, g, Fuel(f)));
    assert 0 in r by {
      assert g[0] in g;
    }
    forall k | 1 <= k < |r|
      ensures r[k] > 0
    {
      assert r[0] < r[k];
    }
  }

  lemma PlainGlyphs(f: CFFInput, ids: seq<nat>)
    requires |ids| > 0 && !AnyComponents(f, WithGlyphZero(ids))
    ensures var r := SubsetGlyphs(f, ids);
      && r == WithGlyphZero(ids) && (TailPositive(ids) ==> TailPositive(r))
      && Dependents(f, WithGlyphZero(ids), Fuel(f)) == {}
  {
    var g := WithGlyphZero(ids);
    NothingReached(f, g, Fuel(f));
    if TailPositive(ids) && ids[0] != 0 {
      forall k | 1 <= k < |g|
        ensures g[k] > 0
      {
        assert g[k] == ids[k - 1];
      }
    }
  }

  /** `AddDependentGlyphs`' list, as its contract describes it, is the subset list. */
  lemma ClosureIsSubsetGlyphs(f: CFFInput, ids: seq<nat>, r: seq<nat>)
    requires |ids| > 0
    requires var g := WithGlyphZero(ids);
      && (AnyComponents(f, g) ==> Increasing(r) && forall x :: x in r <==> x in g || x in Dependents(f, g, Fuel(f)))
      && (!AnyComponents(f, g) ==> r == g)
    ensures r == SubsetGlyphs(f, ids)
  {
    var g := WithGlyphZero(ids);
    if AnyComponents(f, g) {
      IncreasingUnique(r, SubsetGlyphs(f, ids));
    }
  }

  // ----- the list `CreateCFFSubset` hands its writers -----

  /**
   * A font whose glyph 1 is an accented character built (`seac`) from
   * glyph 2; glyphs 0, 1 and 2 have the programs [10], [11] and [12].
   */
  function SeacFont(): (f: CFFInput)
    ensures f.WellFormed() && !IsCID(f)
  {
    CFFInput([1, 0, 4, 1], [[65]], [], [], [0, 0],
             [Some([]), Some([2]), Some([])], [Some([10]), Some([11]), Some([12])], [0, 0, 0],
             Encoding(0, 0, [], map[]), PrivateDict(0, []), [], [], None)
  }

  /**
   * The writers of `CreateCFFSubset` take the caller's list rather than
   * the closed one: for a request of glyphs 0 and 1 of `SeacFont`, the
   * closure adds glyph 2, yet the CharStrings INDEX written from the
   * request (`SubsetGlyphTablesAre`) holds the programs of glyphs 0 and 1
   * only, and not glyph 2's.
   */
  lemma ClosureDiscarded()
    ensures var f := SeacFont();
      && Writable(f, [0, 1], None) && AllFlatten(f, [0, 1])
      && SubsetGlyphs(f, [0, 1]) == [0, 1, 2] && AllResolve(f, [0, 1], Fuel(f))
      && Programs(f, [0, 1]) == [[10], [11]] && CharStringOf(f, 2) == Some([12])
  {
    SeacClosure();
    SeacRequestWritten();
  }

  /** Glyph 1 of `SeacFont` reaches glyph 2, which the closure adds. */
  lemma SeacClosure()
    ensures var f := SeacFont(); SubsetGlyphs(f, [0, 1]) == [0, 1, 2] && AllResolve(f, [0, 1], Fuel(f))
  {
    var f := SeacFont();
    var ids: seq<nat> := [0, 1];
    SeacDependents();
    assert HasComponents(f, ids[1]);
    assert WithGlyphZero(ids) == ids;
    var closed := SubsetGlyphs(f, ids);
    var expected := FirstThree();
    assert forall x :: x in closed <==> x in expected;
    IncreasingUnique(closed, expected);
    SeacResolves();
  }

  /** Glyphs 0, 1 and 2 in increasing order. */
  function FirstThree(): (r: seq<nat>)
    ensures r == [0, 1, 2] && Increasing(r)
  {
    [0, 1, 2]
  }

  /** Every glyph `SeacFont`'s request names resolves within the walk's depth. */
  lemma SeacResolves()
    ensures AllResolve(SeacFont(), [0, 1], Fuel(SeacFont()))
  {
    var f := SeacFont();
    assert Fuel(f) == 4;
    assert Resolves(f, 2, 3);
    assert Resolves(f, 1, 4);
  }

  /** In `SeacFont`, glyphs 0 and 1 reach glyph 2 alone. */
  lemma SeacDependents()
    ensures Fuel(SeacFont()) == 4 && Dependents(SeacFont(), [0, 1], 4) == {2}
  {
    var f := SeacFont();
    var ids: seq<nat> := [0, 1];
    assert Reach(f, 0, 4) == {};
    assert Reach(f, 2, 3) == {};
    assert ReachAll(f, [2], 3) == ReachAll(f, [], 3) + {2} + Reach(f, 2, 3);
    assert ids[..1] == [0];
    assert Dependents(f, [0], 4) == Dependents(f, [], 4) + Reach(f, 0, 4);
  }

  /** The request itself is writable; the CharStrings INDEX written from it holds two programs. */
  lemma SeacRequestWritten()
    ensures var f := SeacFont();
      && Writable(f, [0, 1], None) && AllFlatten(f, [0, 1]) && Programs(f, [0, 1]) == [[10], [11]]
  {
    assert UsedFDs(SeacFont(), [0, 1]) == {};
  }

  // ----- what the writers need -----

  /**
   * The glyph list the writers can take: not empty, glyph 0 only in front
   * (the encoding reads the code before a glyph's), at most 65534 glyphs
   * (the `uint16_t` counts of FDSelect and CharStrings), a CID mapping as
   * long as the list, and at most 254 font DICTs used (FDArray's `uint8_t`
   * loop counter).
   */
  predicate Writable(f: CFFInput, ids: seq<nat>, mapping: Option<seq<card16>>)
  {
    && f.WellFormed() && 0 < |ids| <= 65534 && TailPositive(ids)
    && (IsCID(f) && mapping.Some? ==> |mapping.value| >= |ids|)
    && |UsedFDs(f, ids)| <= 254
  }

  /** The font DICTs the glyphs use, in increasing order: the order of `DetermineFDArrayIndexes`' map. */
  ghost function FDOrder(f: CFFInput, ids: seq<nat>): (r: seq<nat>)
    requires f.WellFormed()
    ensures Increasing(r) && |r| == |UsedFDs(f, ids)| && FontDictsListed(f, r)
  {
    var r := Sorted(UsedFDs(f, ids));
    assert FontDictsListed(f, r) by {
      forall k | 0 <= k < |r|
        ensures r[k] < |f.fontDicts|
      {
        assert r[k] in UsedFDs(f, ids);
      }
    }
    r
  }

  /** `DetermineFDArrayIndexes`' results, as its contract states them, are the order and its ranks. */
  lemma FDOrderIs(f: CFFInput, ids: seq<nat>, order: seq<nat>, ranks: map<nat, byte>)
    requires f.WellFormed() && ranks.Keys == UsedFDs(f, ids) && Ranked(order, ranks)
    ensures order == FDOrder(f, ids) && ranks == RankMap(order)
  {
    forall x
      ensures x in order <==> x in FDOrder(f, ids)
    {
      if x in order {
        var k :| 0 <= k < |order| && order[k] == x;
      }
    }
    IncreasingUnique(order, FDOrder(f, ids));
    RanksUnique(order, ranks, RankMap(order));
  }

  // ----- the tables in file order -----

  /** The String INDEX `WriteStringIndex` writes: the source's, or that with the fsType PostScript added. */
  function StringIndexOf(f: CFFInput): seq<byte>
    requires f.WellFormed()
  {
    if FSTypeText(f) == [] then f.stringIndex else IndexBytes(f.strings + [FSTypeText(f)])
  }

  /** What `WriteEncodings` writes: a custom encoding for a font that is not CID-keyed, else nothing. */
  function EncodingOf(f: CFFInput, cid: bool, ids: seq<nat>): seq<byte>
    requires f.WellFormed() && |ids| > 0 && TailPositive(ids)
  {
    if !cid && f.encoding.start > 1 then EncodingBytes(f, ids) else []
  }

  /** The FDSelect of a CID font, else nothing. */
  ghost function FDSelectOf(f: CFFInput, cid: bool, ids: seq<nat>): seq<byte>
    requires f.WellFormed() && |ids| > 0
  {
    if cid then FDSelectBytes(GlyphFDs(f, RankMap(FDOrder(f, ids)), ids)) else []
  }

  /** Header and Name INDEX: what precedes the Top DICT INDEX. */
  function FrontTables(f: CFFInput, name: seq<byte>): seq<byte>
    requires f.WellFormed()
  {
    f.header + IndexBytes([FontName(f, name)])
  }

  /** Everything up to the end of the Top DICT INDEX. */
  function TopTables(f: CFFInput, name: seq<byte>): seq<byte>
    requires f.WellFormed()
  {
    FrontTables(f, name) + IndexBytes([TopDictSegment(f, IsCID(f))])
  }

  /**
   * The parts of a font program in file order: `top` runs from the header
   * to the end of the Top DICT INDEX; a CID font's FDArray is its private
   * bodies, then the INDEX of its font DICTs.
   */
  datatype Tables = Tables(
    top: seq<byte>, strings: seq<byte>, globalSubrs: seq<byte>, encoding: seq<byte>, charset: seq<byte>,
    fdSelect: seq<byte>, charStrings: seq<byte>, privateBody: seq<byte>, privateBodies: seq<byte>, fdIndex: seq<byte>)

  /** The parts one after the other. */
  function Program(t: Tables): seq<byte>
  {
    t.top + t.strings + t.globalSubrs + t.encoding + t.charset + t.fdSelect + t.charStrings + t.privateBody
    + t.privateBodies + t.fdIndex
  }

  /** Where each part after the String and Global Subrs INDEXes begins. */
  function EncodingStart(t: Tables): nat { |t.top| + |t.strings| + |t.globalSubrs| }
  function CharsetStart(t: Tables): nat { EncodingStart(t) + |t.encoding| }
  function FDSelectStart(t: Tables): nat { CharsetStart(t) + |t.charset| }
  function CharStringsStart(t: Tables): nat { FDSelectStart(t) + |t.fdSelect| }
  function PrivateBodyStart(t: Tables): nat { CharStringsStart(t) + |t.charStrings| }
  function PrivatesStart(t: Tables): nat { PrivateBodyStart(t) + |t.privateBody| }
  function FDIndexStart(t: Tables): nat { PrivatesStart(t) + |t.privateBodies| }

  /** `t` is found at `at` in `w`. */
  predicate FoundAt(w: seq<byte>, at: nat, t: seq<byte>)
  {
    at + |t| <= |w| && w[at..at + |t|] == t
  }

  lemma FoundAtEnd(w: seq<byte>, t: seq<byte>)
    ensures FoundAt(w + t, |w|, t)
  {
    assert (w + t)[|w|..|w| + |t|] == t;
  }

  lemma FoundBefore(w: seq<byte>, at: nat, t: seq<byte>, x: seq<byte>)
    requires FoundAt(w, at, t)
    ensures FoundAt(w + x, at, t)
  {
    assert (w + x)[at..at + |t|] == w[at..at + |t|];
  }

  /** A part is found where it begins in whatever follows it. */
  lemma FoundAmong(pre: seq<byte>, t: seq<byte>, a: seq<byte>, b: seq<byte>, c: seq<byte>, d: seq<byte>, e: seq<byte>)
    ensures FoundAt(pre + t + a + b + c + d + e, |pre|, t)
  {
    var w := pre + t + a + b + c + d + e;
    forall i | 0 <= i < |t|
      ensures w[|pre| + i] == t[i]
    {
      assert (pre + t)[|pre| + i] == t[i];
    }
    assert w[|pre|..|pre| + |t|] == t;
  }

  /** The same, with one more part after it. */
  lemma FoundFirst(pre: seq<byte>, t: seq<byte>, a: seq<byte>, b: seq<byte>, c: seq<byte>, d: seq<byte>, e: seq<byte>, g: seq<byte>)
    ensures FoundAt(pre + t + a + b + c + d + e + g, |pre|, t)
  {
    FoundAmong(pre, t, a, b, c, d, e);
    assert (pre + t + a + b + c + d + e + g)[|pre|..|pre| + |t|] == (pre + t + a + b + c + d + e)[|pre|..|pre| + |t|];
  }

  /** Each part is found where it begins, and the top is a prefix of the program. */
  lemma PartsFound(t: Tables)
    ensures var w := Program(t);
      && FoundAt(w, 0, t.top)
      && FoundAt(w, EncodingStart(t), t.encoding) && FoundAt(w, CharsetStart(t), t.charset)
      && FoundAt(w, FDSelectStart(t), t.fdSelect) && FoundAt(w, CharStringsStart(t), t.charStrings)
      && FoundAt(w, PrivateBodyStart(t), t.privateBody) && FoundAt(w, PrivatesStart(t), t.privateBodies)
      && FoundAt(w, FDIndexStart(t), t.fdIndex)
  {
    FoundPrefix(t);
    EncodingFound(t);
    CharsetFound(t);
    FDSelectFound(t);
    CharStringsFound(t);
    PrivateBodyFound(t);
    PrivatesFound(t);
    FDIndexFound(t);
  }

  lemma EncodingFound(t: Tables)
    ensures FoundAt(Program(t), EncodingStart(t), t.encoding)
  {
    FoundFirst(t.top + t.strings + t.globalSubrs, t.encoding, t.charset, t.fdSelect, t.charStrings,
               t.privateBody, t.privateBodies, t.fdIndex);
  }

  lemma CharsetFound(t: Tables)
    ensures FoundAt(Program(t), CharsetStart(t), t.charset)
  {
    FoundAmong(t.top + t.strings + t.globalSubrs + t.encoding, t.charset, t.fdSelect, t.charStrings,
               t.privateBody, t.privateBodies, t.fdIndex);
  }

  lemma FDSelectFound(t: Tables)
    ensures FoundAt(Program(t), FDSelectStart(t), t.fdSelect)
  {
    var pre := t.top + t.strings + t.globalSubrs + t.encoding + t.charset;
    FoundAmong(pre, t.fdSelect, t.charStrings, t.privateBody, t.privateBodies, t.fdIndex, []);
    assert pre + t.fdSelect + t.charStrings + t.privateBody + t.privateBodies + t.fdIndex + [] == Program(t);
  }

  lemma CharStringsFound(t: Tables)
    ensures FoundAt(Program(t), CharStringsStart(t), t.charStrings)
  {
    var pre := t.top + t.strings + t.globalSubrs + t.encoding + t.charset + t.fdSelect;
    FoundAmong(pre, t.charStrings, t.privateBody, t.privateBodies, t.fdIndex, [], []);
    assert pre + t.charStrings + t.privateBody + t.privateBodies + t.fdIndex + [] + [] == Program(t);
  }

  lemma PrivateBodyFound(t: Tables)
    ensures FoundAt(Program(t), PrivateBodyStart(t), t.privateBody)
  {
    var pre := t.top + t.strings + t.globalSubrs + t.encoding + t.charset + t.fdSelect + t.charStrings;
    FoundAmong(pre, t.privateBody, t.privateBodies, t.fdIndex, [], [], []);
    assert pre + t.privateBody + t.privateBodies + t.fdIndex + [] + [] + [] == Program(t);
  }

  lemma PrivatesFound(t: Tables)
    ensures FoundAt(Program(t), PrivatesStart(t), t.privateBodies)
  {
    var pre := t.top + t.strings + t.globalSubrs + t.encoding + t.charset + t.fdSelect + t.charStrings + t.privateBody;
    FoundAmong(pre, t.privateBodies, t.fdIndex, [], [], [], []);
    assert pre + t.privateBodies + t.fdIndex + [] + [] + [] + [] == Program(t);
  }

  lemma FDIndexFound(t: Tables)
    ensures FoundAt(Program(t), FDIndexStart(t), t.fdIndex)
  {
    var pre := t.top + t.strings + t.globalSubrs + t.encoding + t.charset + t.fdSelect + t.charStrings
      + t.privateBody + t.privateBodies;
    FoundAmong(pre, t.fdIndex, [], [], [], [], []);
    assert pre + t.fdIndex + [] + [] + [] + [] + [] == Program(t);
  }

  lemma FoundPrefix(t: Tables)
    ensures FoundAt(Program(t), 0, t.top)
  {
    var w := Program(t);
    forall i | 0 <= i < |t.top|
      ensures w[i] == t.top[i]
    {
    }
    assert w[0..|t.top|] == t.top;
  }

  /**
   * The writes of `CreateCFFSubset` in their order: header, Name, Top DICT
   * and String INDEXes, an empty Global Subrs INDEX, the encoding, the
   * charset, the FDSelect of a CID font, CharStrings, the private DICT and
   * the FDArray of a CID font, whose font DICTs point at private bodies
   * written from the end of the private DICT on.
   */
  ghost function SubsetTables(f: CFFInput, ids: seq<nat>, mapping: Option<seq<card16>>, name: seq<byte>): (t: Tables)
    requires Writable(f, ids, mapping) && AllFlatten(f, ids)
  {
    var t := TablesBeforeFDArray(f, ids, mapping, name);
    t.(fdIndex := FDIndexOf(f, IsCID(f), FDOrder(f, ids), PrivatesStart(t)))
  }

  /** Every table but the FDArray, which depends on where the ones before it end. */
  ghost function TablesBeforeFDArray(f: CFFInput, ids: seq<nat>, mapping: Option<seq<card16>>, name: seq<byte>): Tables
    requires Writable(f, ids, mapping) && AllFlatten(f, ids)
  {
    var cid := IsCID(f);
    Tables(
      TopTables(f, name), StringIndexOf(f), IndexBytes([]), EncodingOf(f, cid, ids),
      CharsetBytes(CharsetSIDs(f, ids, mapping, cid)), FDSelectOf(f, cid, ids), FullIndex(Programs(f, ids)),
      PrivateBody(f.privateDict), if cid then PrivateBodies(f, FDOrder(f, ids)) else [], [])
  }

  /** The FDArray INDEX of a CID font, its private bodies written from `at` on, else nothing. */
  function FDIndexOf(f: CFFInput, cid: bool, order: seq<nat>, at: nat): seq<byte>
    requires FontDictsListed(f, order)
  {
    if cid then IndexBytes(FontDictItems(f, order, at)) else []
  }

  /**
   * The positions recorded on the way: each table's is where it begins; a
   * CID font has no encoding position, a predefined encoding's is its
   * number, and the FDArray's is that of its INDEX, after the private bodies.
   */
  function TablePositions(f: CFFInput, cid: bool, t: Tables): Positions
  {
    Positions(
      CharsetStart(t), EncodingPosition(f, cid, EncodingStart(t)), CharStringsStart(t),
      PrivatePosition(f.privateDict, PrivateBodyStart(t)), |t.privateBody|,
      if cid then FDIndexStart(t) else 0, if cid then FDSelectStart(t) else 0)
  }

  /** The placeholders of the Top DICT INDEX written after the header and the Name INDEX. */
  function SubsetPlaceholders(f: CFFInput, name: seq<byte>): Placeholders
    requires f.WellFormed()
  {
    TopIndexPlaceholders(f, IsCID(f), |FrontTables(f, name)|)
  }

  /** The placeholders are slots of the Top DICT INDEX and of the whole program, laid out as the segment lays them out. */
  lemma SubsetSlots(f: CFFInput, t: Tables, name: seq<byte>)
    requires f.WellFormed() && t.top == TopTables(f, name)
    ensures var ph := SubsetPlaceholders(f, name); var cid := IsCID(f);
      && SlotsReady(t.top, ph, f, cid) && SlotsReady(Program(t), ph, f, cid) && Layout(ph, f, cid)
  {
    TopIndexSlots(FrontTables(f, name), f, IsCID(f));
    PartsFound(t);
    SlotsExtend(t.top, Program(t), SubsetPlaceholders(f, name), f, IsCID(f));
  }

  /** The slots of a prefix are slots of the whole. */
  lemma SlotsExtend(s: seq<byte>, w: seq<byte>, ph: Placeholders, f: CFFInput, cid: bool)
    requires FoundAt(w, 0, s) && SlotsReady(s, ph, f, cid)
    ensures SlotsReady(w, ph, f, cid)
  {
    assert forall q :: 0 <= q < |s| ==> w[q] == w[0..|s|][q];
  }

  /** The tables of a subset with the top DICT's placeholders written. */
  function Patched(f: CFFInput, t: Tables, name: seq<byte>): (r: seq<byte>)
    requires f.WellFormed() && t.top == TopTables(f, name)
    ensures |r| == |Program(t)|
  {
    var cid := IsCID(f);
    SubsetSlots(f, t, name);
    TopDictPatchesSeparated(Program(t), SubsetPlaceholders(f, name), TablePositions(f, cid, t), f, cid);
    ApplyPatches(Program(t), TopDictPatches(SubsetPlaceholders(f, name), TablePositions(f, cid, t), f, cid))
  }

  /** The font program `CreateCFFSubset` returns. */
  ghost function SubsetFont(f: CFFInput, ids: seq<nat>, mapping: Option<seq<card16>>, name: seq<byte>): (r: seq<byte>)
    requires Writable(f, ids, mapping) && AllFlatten(f, ids)
  {
    SubsetTopIs(f, ids, mapping, name);
    Patched(f, SubsetTables(f, ids, mapping, name), name)
  }

  // ----- reading the subset back -----

  /** Each table at its recorded position; a reader needs only those the top DICT points to. */
  predicate TablesAt(w: seq<byte>, f: CFFInput, cid: bool, t: Tables)
  {
    var pos := TablePositions(f, cid, t);
    && FoundAt(w, pos.charset, t.charset) && FoundAt(w, pos.charStrings, t.charStrings)
    && (HasPrivate(f) ==> FoundAt(w, pos.privateDict, t.privateBody))
    && (!cid && f.encoding.start > 1 ==> FoundAt(w, pos.encoding, t.encoding))
    && (cid ==> (FoundAt(w, pos.fdSelect, t.fdSelect) && FoundAt(w, pos.fdArray, t.fdIndex)
                 && FoundAt(w, PrivatesStart(t), t.privateBodies)))
  }

  /** The program holds each table at its position. */
  lemma ProgramTables(f: CFFInput, cid: bool, t: Tables)
    ensures TablesAt(Program(t), f, cid, t)
  {
    PartsFound(t);
  }

  /** Every patch of the top DICT lies within the sequence its slots are in. */
  lemma PatchesBefore(s: seq<byte>, ph: Placeholders, pos: Positions, f: CFFInput, cid: bool)
    requires SlotsReady(s, ph, f, cid)
    ensures var ps := TopDictPatches(ph, pos, f, cid); forall i :: 0 <= i < |ps| ==> ps[i].at + 5 <= |s|
  {
  }

  /** Writes before `top` leave a part found after it as it was. */
  lemma PartKept(s: seq<byte>, ps: seq<PlaceholderValue>, top: nat, at: nat, t: seq<byte>)
    requires PatchesFit(s, ps) && forall i :: 0 <= i < |ps| ==> ps[i].at + 5 <= top
    requires top <= at && FoundAt(s, at, t)
    ensures FoundAt(ApplyPatches(s, ps), at, t)
  {
    PatchesKeep(s, ps, at, at + |t|);
  }

  /** Writes within the top leave every table after it where it was. */
  lemma TablesKept(ps: seq<PlaceholderValue>, f: CFFInput, cid: bool, t: Tables)
    requires PatchesFit(Program(t), ps) && forall i :: 0 <= i < |ps| ==> ps[i].at + 5 <= |t.top|
    ensures TablesAt(ApplyPatches(Program(t), ps), f, cid, t)
  {
    ProgramTables(f, cid, t);
    TablesKeptIn(Program(t), ps, f, cid, t);
  }

  /** The same, for any bytes that hold the tables at their positions. */
  lemma TablesKeptIn(s: seq<byte>, ps: seq<PlaceholderValue>, f: CFFInput, cid: bool, t: Tables)
    requires PatchesFit(s, ps) && forall i :: 0 <= i < |ps| ==> ps[i].at + 5 <= |t.top|
    requires TablesAt(s, f, cid, t)
    ensures TablesAt(ApplyPatches(s, ps), f, cid, t)
  {
    var top := |t.top|;
    var pos := TablePositions(f, cid, t);
    PartKept(s, ps, top, pos.charset, t.charset);
    PartKept(s, ps, top, pos.charStrings, t.charStrings);
    if HasPrivate(f) {
      PartKept(s, ps, top, pos.privateDict, t.privateBody);
    }
    if !cid && f.encoding.start > 1 {
      PartKept(s, ps, top, pos.encoding, t.encoding);
    }
    if cid {
      PartKept(s, ps, top, pos.fdSelect, t.fdSelect);
      PartKept(s, ps, top, pos.fdArray, t.fdIndex);
      PartKept(s, ps, top, PrivatesStart(t), t.privateBodies);
    }
  }

  /**
   * The tables read back once patched: each placeholder of the top DICT
   * decodes to the position recorded for its table, every operator behind
   * them is in place, each table is found at its position, and only the
   * Top DICT INDEX differs from the tables as written.
   */
  lemma PatchedReadBack(f: CFFInput, t: Tables, name: seq<byte>)
    requires f.WellFormed() && t.top == TopTables(f, name) && |Program(t)| < 0x8000_0000
    ensures var r := Patched(f, t, name);
      var cid := IsCID(f); var ph := SubsetPlaceholders(f, name); var pos := TablePositions(f, cid, t);
      && OffsetsHeld(r, ph, pos, f, cid) && SlotsReady(r, ph, f, cid)
      && TablesAt(r, f, cid, t)
      && r[|t.top|..] == Program(t)[|t.top|..]
  {
    PatchedOffsets(f, t, name);
    PatchedTables(f, t, name);
    PatchedTail(f, t, name);
  }

  lemma PatchedOffsets(f: CFFInput, t: Tables, name: seq<byte>)
    requires f.WellFormed() && t.top == TopTables(f, name) && |Program(t)| < 0x8000_0000
    ensures var cid := IsCID(f); var ph := SubsetPlaceholders(f, name);
      && OffsetsHeld(Patched(f, t, name), ph, TablePositions(f, cid, t), f, cid)
      && SlotsReady(Patched(f, t, name), ph, f, cid)
  {
    var cid := IsCID(f);
    SubsetSlots(f, t, name);
    PositionsBelow(f, cid, t);
    TopDictUpdated(Program(t), SubsetPlaceholders(f, name), TablePositions(f, cid, t), f, cid);
  }

  lemma PatchedTables(f: CFFInput, t: Tables, name: seq<byte>)
    requires f.WellFormed() && t.top == TopTables(f, name)
    ensures TablesAt(Patched(f, t, name), f, IsCID(f), t)
  {
    var cid := IsCID(f);
    var ph := SubsetPlaceholders(f, name);
    var ps := TopDictPatches(ph, TablePositions(f, cid, t), f, cid);
    SubsetSlots(f, t, name);
    TopDictPatchesSeparated(Program(t), ph, TablePositions(f, cid, t), f, cid);
    PatchesBefore(t.top, ph, TablePositions(f, cid, t), f, cid);
    TablesKept(ps, f, cid, t);
  }

  lemma PatchedTail(f: CFFInput, t: Tables, name: seq<byte>)
    requires f.WellFormed() && t.top == TopTables(f, name)
    ensures Patched(f, t, name)[|t.top|..] == Program(t)[|t.top|..]
  {
    var cid := IsCID(f);
    var ph := SubsetPlaceholders(f, name);
    SubsetSlots(f, t, name);
    PatchesBefore(t.top, ph, TablePositions(f, cid, t), f, cid);
    TailKept(Program(t), TopDictPatches(ph, TablePositions(f, cid, t), f, cid), |t.top|);
  }

  /** Writes before `lo` leave everything from `lo` on alone. */
  lemma TailKept(s: seq<byte>, ps: seq<PlaceholderValue>, lo: nat)
    requires PatchesFit(s, ps) && lo <= |s| && forall i :: 0 <= i < |ps| ==> ps[i].at + 5 <= lo
    ensures ApplyPatches(s, ps)[lo..] == s[lo..]
  {
    var r := ApplyPatches(s, ps);
    PatchesKeep(s, ps, lo, |s|);
    assert r[lo..] == r[lo..|s|];
    assert s[lo..] == s[lo..|s|];
  }

  /** The subset read back, as `PatchedReadBack` describes it for its tables. */
  lemma SubsetReadBack(f: CFFInput, ids: seq<nat>, mapping: Option<seq<card16>>, name: seq<byte>)
    requires Writable(f, ids, mapping) && AllFlatten(f, ids)
    requires |SubsetFont(f, ids, mapping, name)| < 0x8000_0000
    ensures var t := SubsetTables(f, ids, mapping, name); var r := SubsetFont(f, ids, mapping, name);
      var cid := IsCID(f); var ph := SubsetPlaceholders(f, name); var pos := TablePositions(f, cid, t);
      && OffsetsHeld(r, ph, pos, f, cid) && SlotsReady(r, ph, f, cid)
      && TablesAt(r, f, cid, t)
      && r[|t.top|..] == Program(t)[|t.top|..]
  {
    SubsetTopIs(f, ids, mapping, name);
    PatchedReadBack(f, SubsetTables(f, ids, mapping, name), name);
  }

  /** Every recorded position lies within the program, so it fits a five-byte integer when the program does. */
  lemma PositionsBelow(f: CFFInput, cid: bool, t: Tables)
    requires |Program(t)| < 0x8000_0000
    ensures PositionsFit(TablePositions(f, cid, t))
  {
  }

  // ----- the parts, table by table -----

  /** The top of the subset: header, Name INDEX and Top DICT INDEX. */
  lemma SubsetTopIs(f: CFFInput, ids: seq<nat>, mapping: Option<seq<card16>>, name: seq<byte>)
    requires Writable(f, ids, mapping) && AllFlatten(f, ids)
    ensures SubsetTables(f, ids, mapping, name).top == TopTables(f, name)
  {
  }

  /** The charset, CharStrings and private DICT of the subset. */
  lemma SubsetGlyphTablesAre(f: CFFInput, ids: seq<nat>, mapping: Option<seq<card16>>, name: seq<byte>)
    requires Writable(f, ids, mapping) && AllFlatten(f, ids)
    ensures var t := SubsetTables(f, ids, mapping, name);
      && t.charset == CharsetBytes(CharsetSIDs(f, ids, mapping, IsCID(f)))
      && t.charStrings == FullIndex(Programs(f, ids)) && t.privateBody == PrivateBody(f.privateDict)
      && (!IsCID(f) && f.encoding.start > 1 ==> t.encoding == EncodingBytes(f, ids))
  {
  }

  /** The FDSelect and private bodies of a CID subset. */
  lemma SubsetFDTablesAre(f: CFFInput, ids: seq<nat>, mapping: Option<seq<card16>>, name: seq<byte>)
    requires Writable(f, ids, mapping) && AllFlatten(f, ids) && IsCID(f)
    ensures var t := SubsetTables(f, ids, mapping, name); var order := FDOrder(f, ids);
      && t.fdSelect == FDSelectBytes(GlyphFDs(f, RankMap(order), ids))
      && t.privateBodies == PrivateBodies(f, order)
  {
  }

  /** The FDArray of a CID subset, whose font DICTs point at the private bodies before it. */
  lemma SubsetFDArrayIs(f: CFFInput, ids: seq<nat>, mapping: Option<seq<card16>>, name: seq<byte>)
    requires Writable(f, ids, mapping) && AllFlatten(f, ids) && IsCID(f)
    ensures var t := SubsetTables(f, ids, mapping, name);
      t.fdIndex == IndexBytes(FontDictItems(f, FDOrder(f, ids), PrivatesStart(t)))
  {
    var b := TablesBeforeFDArray(f, ids, mapping, name);
    var t := SubsetTables(f, ids, mapping, name);
    assert PrivatesStart(t) == PrivatesStart(b);
    assert t.fdIndex == FDIndexOf(f, true, FDOrder(f, ids), PrivatesStart(b));
  }

  /** Each part of the subset's tables is the one its writer produces. */
  ghost predicate PartsWritten(f: CFFInput, ids: seq<nat>, mapping: Option<seq<card16>>, name: seq<byte>, t: Tables)
    requires Writable(f, ids, mapping) && AllFlatten(f, ids)
  {
    var cid := IsCID(f);
    && t.top == TopTables(f, name) && t.strings == StringIndexOf(f) && t.globalSubrs == IndexBytes([])
    && t.encoding == EncodingOf(f, cid, ids) && t.charset == CharsetBytes(CharsetSIDs(f, ids, mapping, cid))
    && t.fdSelect == FDSelectOf(f, cid, ids) && t.charStrings == FullIndex(Programs(f, ids))
    && t.privateBody == PrivateBody(f.privateDict)
    && t.privateBodies == (if cid then PrivateBodies(f, FDOrder(f, ids)) else [])
    && t.fdIndex == FDIndexOf(f, cid, FDOrder(f, ids), PrivatesStart(t))
  }

  /** The subset's tables are exactly those whose every part is the one its writer produces. */
  lemma PartsWrittenExactly(f: CFFInput, ids: seq<nat>, mapping: Option<seq<card16>>, name: seq<byte>, t: Tables)
    requires Writable(f, ids, mapping) && AllFlatten(f, ids)
    ensures PartsWritten(f, ids, mapping, name, t) <==> t == SubsetTables(f, ids, mapping, name)
  {
    SubsetPartsWritten(f, ids, mapping, name);
    if PartsWritten(f, ids, mapping, name, t) {
      WrittenTablesAre(f, ids, mapping, name, t);
    }
  }

  lemma SubsetPartsWritten(f: CFFInput, ids: seq<nat>, mapping: Option<seq<card16>>, name: seq<byte>)
    requires Writable(f, ids, mapping) && AllFlatten(f, ids)
    ensures PartsWritten(f, ids, mapping, name, SubsetTables(f, ids, mapping, name))
  {
    var b := TablesBeforeFDArray(f, ids, mapping, name);
    assert PrivatesStart(SubsetTables(f, ids, mapping, name)) == PrivatesStart(b);
  }

  lemma WrittenTablesAre(f: CFFInput, ids: seq<nat>, mapping: Option<seq<card16>>, name: seq<byte>, t: Tables)
    requires Writable(f, ids, mapping) && AllFlatten(f, ids) && PartsWritten(f, ids, mapping, name, t)
    ensures t == SubsetTables(f, ids, mapping, name)
  {
    var b := TablesBeforeFDArray(f, ids, mapping, name);
    assert t == b.(fdIndex := t.fdIndex);
    assert PrivatesStart(t) == PrivatesStart(b);
  }

  /** The tables written before CharStrings completed with those after it. */
  ghost function Completed(f: CFFInput, ids: seq<nat>, front: Tables): Tables
    requires f.WellFormed() && AllFlatten(f, ids)
  {
    var cid := IsCID(f);
    var back := front.(charStrings := FullIndex(Programs(f, ids)), privateBody := PrivateBody(f.privateDict),
                       privateBodies := if cid then PrivateBodies(f, FDOrder(f, ids)) else []);
    back.(fdIndex := FDIndexOf(f, cid, FDOrder(f, ids), PrivatesStart(back)))
  }

  /** Completing the tables written before CharStrings gives the subset's tables. */
  lemma CompletedIsSubset(f: CFFInput, ids: seq<nat>, mapping: Option<seq<card16>>, name: seq<byte>, front: Tables)
    requires Writable(f, ids, mapping) && AllFlatten(f, ids)
    requires var cid := IsCID(f);
      && front.top == TopTables(f, name) && front.strings == StringIndexOf(f) && front.globalSubrs == IndexBytes([])
      && front.encoding == EncodingOf(f, cid, ids) && front.charset == CharsetBytes(CharsetSIDs(f, ids, mapping, cid))
      && front.fdSelect == FDSelectOf(f, cid, ids)
    ensures var t := Completed(f, ids, front); var cid := IsCID(f);
      && t == SubsetTables(f, ids, mapping, name)
      && t.top == front.top && t.strings == front.strings && t.globalSubrs == front.globalSubrs
      && t.encoding == front.encoding && t.charset == front.charset && t.fdSelect == front.fdSelect
      && t.charStrings == FullIndex(Programs(f, ids)) && t.privateBody == PrivateBody(f.privateDict)
      && t.privateBodies == (if cid then PrivateBodies(f, FDOrder(f, ids)) else [])
      && t.fdIndex == FDIndexOf(f, cid, FDOrder(f, ids), PrivatesStart(t))
      && EncodingStart(t) == EncodingStart(front) && CharsetStart(t) == CharsetStart(front)
      && FDSelectStart(t) == FDSelectStart(front) && CharStringsStart(t) == CharStringsStart(front)
  {
    var t := Completed(f, ids, front);
    var cid := IsCID(f);
    var back := front.(charStrings := FullIndex(Programs(f, ids)), privateBody := PrivateBody(f.privateDict),
                       privateBodies := if cid then PrivateBodies(f, FDOrder(f, ids)) else []);
    assert PrivatesStart(t) == PrivatesStart(back);
    WrittenTablesAre(f, ids, mapping, name, t);
    SameStarts(t, front);
  }

  /** Tables that agree up to the FDSelect have its parts and CharStrings at the same positions. */
  lemma SameStarts(t: Tables, front: Tables)
    requires t.top == front.top && t.strings == front.strings && t.globalSubrs == front.globalSubrs
    requires t.encoding == front.encoding && t.charset == front.charset && t.fdSelect == front.fdSelect
    ensures EncodingStart(t) == EncodingStart(front) && CharsetStart(t) == CharsetStart(front)
    ensures FDSelectStart(t) == FDSelectStart(front) && CharStringsStart(t) == CharStringsStart(front)
  {
  }
}
