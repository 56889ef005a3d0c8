/**
 * `AbstractWrittenFont`: the glyphs used with a font are encoded either
 * in a single-byte (ANSI) representation or in a two-byte (CID)
 * representation of the font, each a map from glyph ID to the encoded
 * character chosen for it. Once a CID representation exists it takes all
 * new glyphs. How a particular font type encodes a glyph is given by the
 * derived classes and is a parameter here.
 */
module WrittenFont {
  import opened Common
  import opened Registry

  type ushort = x: int | 0 <= x < 0x1_0000

  /** A glyph to show and the Unicode text it stands for. */
  datatype GlyphUnicodeMapping = GlyphUnicodeMapping(glyphCode: nat, unicodeValues: seq<nat>)

  /** What a representation keeps for a glyph: its encoded character and its Unicode text. */
  datatype GlyphEncodingInfo = GlyphEncodingInfo(encodedCharacter: ushort, unicodeCharacters: seq<nat>)

  type EncodingMap = map<nat, GlyphEncodingInfo>

  /** `WrittenFontRepresentation`: the glyph map and the font object's ID, 0 until allocated. */
  datatype Representation = Representation(glyphIdToEncodedChar: EncodingMap, writtenObjectId: nat)

  const EmptyRepresentation := Representation(map[], 0)

  /** The two representations a font may have, each absent until first needed. */
  datatype FontState = FontState(cid: Option<Representation>, ansi: Option<Representation>)

  /** The part of `AddToANSIRepresentation` a font type supplies: the new map and the characters, or None. */
  type AnsiEncoder = (EncodingMap, seq<GlyphUnicodeMapping>) -> Option<(EncodingMap, seq<ushort>)>

  type AnsiListEncoder = (EncodingMap, seq<seq<GlyphUnicodeMapping>>) -> Option<(EncodingMap, seq<seq<ushort>>)>

  predicate Covers(m: EncodingMap, glyphs: seq<GlyphUnicodeMapping>)
  {
    forall k :: 0 <= k < |glyphs| ==> glyphs[k].glyphCode in m
  }

  predicate CoversAll(m: EncodingMap, lists: seq<seq<GlyphUnicodeMapping>>)
  {
    forall i :: 0 <= i < |lists| ==> Covers(m, lists[i])
  }

  /** The encoded characters of glyphs the map covers, in input order. */
  function Encoded(m: EncodingMap, glyphs: seq<GlyphUnicodeMapping>): seq<ushort>
    requires Covers(m, glyphs)
  {
    seq(|glyphs|, k requires 0 <= k < |glyphs| => m[glyphs[k].glyphCode].encodedCharacter)
  }

  function EncodedLists(m: EncodingMap, lists: seq<seq<GlyphUnicodeMapping>>): seq<seq<ushort>>
    requires CoversAll(m, lists)
  {
    seq(|lists|, i requires 0 <= i < |lists| => Encoded(m, lists[i]))
  }

  /** `m2` keeps every entry of `m1` as it was. */
  predicate Extends(m1: EncodingMap, m2: EncodingMap)
  {
    forall g :: g in m1 ==> g in m2 && m2[g] == m1[g]
  }

  /** The CID map's first entry, for glyph 0: added when the map is still empty. */
  function WithNotdef(m: EncodingMap, encode: nat -> ushort): EncodingMap
  {
    if |m| == 0 then map[0 := GlyphEncodingInfo(encode(0), [0])] else m
  }

  /** A glyph the map does not know gets the character `encode` gives for it. */
  function WithGlyph(m: EncodingMap, g: GlyphUnicodeMapping, encode: nat -> ushort): EncodingMap
  {
    if g.glyphCode in m then m else m[g.glyphCode := GlyphEncodingInfo(encode(g.glyphCode), g.unicodeValues)]
  }

  function WithGlyphs(m: EncodingMap, glyphs: seq<GlyphUnicodeMapping>, encode: nat -> ushort): EncodingMap
    decreases |glyphs|
  {
    if glyphs == [] then m
    else WithGlyph(WithGlyphs(m, glyphs[..|glyphs| - 1], encode), glyphs[|glyphs| - 1], encode)
  }

  function WithGlyphLists(m: EncodingMap, lists: seq<seq<GlyphUnicodeMapping>>, encode: nat -> ushort): EncodingMap
    decreases |lists|
  {
    if lists == [] then m
    else WithGlyphs(WithGlyphLists(m, lists[..|lists| - 1], encode), lists[|lists| - 1], encode)
  }

  /**
   * Adding glyphs keeps every earlier entry, covers every glyph added, and
   * adds nothing else; a new entry holds the character `encode` gives.
   */
  lemma {:induction false} WithGlyphsAdds(m: EncodingMap, glyphs: seq<GlyphUnicodeMapping>, encode: nat -> ushort)
    ensures var r := WithGlyphs(m, glyphs, encode);
      Extends(m, r) && Covers(r, glyphs) &&
      (forall g :: g in r && g !in m ==> r[g].encodedCharacter == encode(g)) &&
      (forall g :: g in r ==> g in m || exists k :: 0 <= k < |glyphs| && glyphs[k].glyphCode == g)
    decreases |glyphs|
  {
    if glyphs != [] {
      var init := glyphs[..|glyphs| - 1];
      WithGlyphsAdds(m, init, encode);
      var r0 := WithGlyphs(m, init, encode);
      var r := WithGlyphs(m, glyphs, encode);
      assert forall k :: 0 <= k < |init| ==> init[k] == glyphs[k];
      forall g | g in r && g !in m
        ensures exists k :: 0 <= k < |glyphs| && glyphs[k].glyphCode == g
      {
        if g !in r0 {
          assert glyphs[|glyphs| - 1].glyphCode == g;
        }
      }
    }
  }

  lemma {:induction false} WithGlyphListsAdds(m: EncodingMap, lists: seq<seq<GlyphUnicodeMapping>>, encode: nat -> ushort)
    ensures var r := WithGlyphLists(m, lists, encode); Extends(m, r) && CoversAll(r, lists)
    decreases |lists|
  {
    if lists != [] {
      var init := lists[..|lists| - 1];
      WithGlyphListsAdds(m, init, encode);
      var r0 := WithGlyphLists(m, init, encode);
      WithGlyphsAdds(r0, lists[|lists| - 1], encode);
      var r := WithGlyphLists(m, lists, encode);
      forall i | 0 <= i < |lists|
        ensures Covers(r, lists[i])
      {
        if i < |init| {
          assert lists[i] == init[i];
          CoversGrows(r0, r, lists[i]);
        }
      }
    }
  }

  /** The state of `InsertGlyphs`' loop after the first `k` glyphs. */
  ghost predicate GlyphsInserted(m0: EncodingMap, glyphs: seq<GlyphUnicodeMapping>, k: nat, encode: nat -> ushort,
                                 m: EncodingMap, characters: seq<ushort>)
  {
    k <= |glyphs| && m == WithGlyphs(m0, glyphs[..k], encode) && Covers(m, glyphs[..k]) && characters == Encoded(m, glyphs[..k])
  }

  /** Glyph `k` added to the map, and its character to the characters. */
  lemma GlyphsInsertedStep(m0: EncodingMap, glyphs: seq<GlyphUnicodeMapping>, k: nat, encode: nat -> ushort,
                           m: EncodingMap, characters: seq<ushort>, m1: EncodingMap, next: nat)
    requires k < |glyphs| && next == k + 1 && GlyphsInserted(m0, glyphs, k, encode, m, characters)
    requires m1 == WithGlyph(m, glyphs[k], encode)
    ensures glyphs[k].glyphCode in m1
    ensures GlyphsInserted(m0, glyphs, next, encode, m1, characters + [m1[glyphs[k].glyphCode].encodedCharacter])
  {
    CoversGrows(m, m1, glyphs[..k]);
    assert glyphs[..k + 1][..k] == glyphs[..k];
    assert glyphs[..k + 1] == glyphs[..k] + [glyphs[k]];
  }

  /** The state of `InsertGlyphLists`' loop after the first `i` lists. */
  ghost predicate ListsInserted(m0: EncodingMap, lists: seq<seq<GlyphUnicodeMapping>>, i: nat, encode: nat -> ushort,
                                m: EncodingMap, lines: seq<seq<ushort>>)
  {
    i <= |lists| && m == WithGlyphLists(m0, lists[..i], encode) && CoversAll(m, lists[..i]) && lines == EncodedLists(m, lists[..i])
  }

  /** List `i` added to the map, and its characters to the lines. */
  lemma ListsInsertedStep(m0: EncodingMap, lists: seq<seq<GlyphUnicodeMapping>>, i: nat, encode: nat -> ushort,
                          m: EncodingMap, lines: seq<seq<ushort>>, m1: EncodingMap, characters: seq<ushort>, next: nat)
    requires i < |lists| && next == i + 1 && ListsInserted(m0, lists, i, encode, m, lines)
    requires m1 == WithGlyphs(m, lists[i], encode) && Covers(m1, lists[i]) && characters == Encoded(m1, lists[i])
    ensures ListsInserted(m0, lists, next, encode, m1, lines + [characters])
  {
    WithGlyphsAdds(m, lists[i], encode);
    assert lists[..i + 1][..i] == lists[..i];
    forall j | 0 <= j < i
      ensures Covers(m1, lists[..i][j]) && Encoded(m1, lists[..i][j]) == Encoded(m, lists[..i][j])
    {
      CoversGrows(m, m1, lists[..i][j]);
    }
  }

  lemma CoversGrows(m1: EncodingMap, m2: EncodingMap, glyphs: seq<GlyphUnicodeMapping>)
    requires Extends(m1, m2) && Covers(m1, glyphs)
    ensures Covers(m2, glyphs) && Encoded(m2, glyphs) == Encoded(m1, glyphs)
  {
  }

  /** The CID representation after `AddToCIDRepresentation`, and whether an object ID was allocated. */
  function CidAdded(rep: Representation, glyphs: seq<GlyphUnicodeMapping>, next: nat, encode: nat -> ushort): (Representation, bool)
  {
    var m := WithGlyphs(WithNotdef(rep.glyphIdToEncodedChar, encode), glyphs, encode);
    if rep.writtenObjectId == 0 then (Representation(m, next), true) else (Representation(m, rep.writtenObjectId), false)
  }

  function CidListsAdded(rep: Representation, lists: seq<seq<GlyphUnicodeMapping>>, next: nat, encode: nat -> ushort): (Representation, bool)
  {
    var m := WithGlyphLists(WithNotdef(rep.glyphIdToEncodedChar, encode), lists, encode);
    if rep.writtenObjectId == 0 then (Representation(m, next), true) else (Representation(m, rep.writtenObjectId), false)
  }

  /** What `AppendGlyphs` leaves: the font's state, the characters, the representation used and any allocation. */
  datatype Outcome<T> = Outcome(font: FontState, encoded: seq<T>, multiByte: bool, fontObjectId: nat, newObjectId: bool)

  /**
   * `AppendGlyphs`: the first that applies of a covering CID representation,
   * a covering ANSI one, adding to an existing CID one, adding to the ANSI
   * one, and a new CID one. `out` is what the output list held before.
   */
  function Append(f: FontState, glyphs: seq<GlyphUnicodeMapping>, out: seq<ushort>, next: nat,
                  encode: nat -> ushort, ansiEncoder: AnsiEncoder): Outcome<ushort>
  {
    if f.cid.Some? && Covers(f.cid.value.glyphIdToEncodedChar, glyphs) then
      Outcome(f, Encoded(f.cid.value.glyphIdToEncodedChar, glyphs), true, f.cid.value.writtenObjectId, false)
    else if f.ansi.Some? && Covers(f.ansi.value.glyphIdToEncodedChar, glyphs) then
      Outcome(f, Encoded(f.ansi.value.glyphIdToEncodedChar, glyphs), false, f.ansi.value.writtenObjectId, false)
    else if f.cid.Some? then
      var a := CidAdded(f.cid.value, glyphs, next, encode);
      Outcome(FontState(Some(a.0), f.ansi), out + CidCharacters(a.0, glyphs, encode), true, a.0.writtenObjectId, a.1)
    else
      var ansi := if f.ansi.Some? then f.ansi.value else EmptyRepresentation;
      var tried := ansiEncoder(ansi.glyphIdToEncodedChar, glyphs);
      if tried.Some? then
        var allocate := ansi.writtenObjectId == 0;
        var id := if allocate then next else ansi.writtenObjectId;
        Outcome(FontState(None, Some(Representation(tried.value.0, id))), out + tried.value.1, false, id, allocate)
      else
        var a := CidAdded(EmptyRepresentation, glyphs, next, encode);
        Outcome(FontState(Some(a.0), Some(ansi)), out + CidCharacters(a.0, glyphs, encode), true, a.0.writtenObjectId, a.1)
  }

  /** The characters of glyphs in a CID representation they were just added to. */
  function CidCharacters(rep: Representation, glyphs: seq<GlyphUnicodeMapping>, encode: nat -> ushort): seq<ushort>
  {
    if Covers(rep.glyphIdToEncodedChar, glyphs) then Encoded(rep.glyphIdToEncodedChar, glyphs) else []
  }

  function CidListCharacters(rep: Representation, lists: seq<seq<GlyphUnicodeMapping>>): seq<seq<ushort>>
  {
    if CoversAll(rep.glyphIdToEncodedChar, lists) then EncodedLists(rep.glyphIdToEncodedChar, lists) else []
  }

  /** The list-of-lists `AppendGlyphs`: the same policy with every list covered or added. */
  function AppendLists(f: FontState, lists: seq<seq<GlyphUnicodeMapping>>, out: seq<seq<ushort>>, next: nat,
                       encode: nat -> ushort, ansiEncoder: AnsiListEncoder): Outcome<seq<ushort>>
  {
    if f.cid.Some? && CoversAll(f.cid.value.glyphIdToEncodedChar, lists) then
      Outcome(f, EncodedLists(f.cid.value.glyphIdToEncodedChar, lists), true, f.cid.value.writtenObjectId, false)
    else if f.ansi.Some? && CoversAll(f.ansi.value.glyphIdToEncodedChar, lists) then
      Outcome(f, EncodedLists(f.ansi.value.glyphIdToEncodedChar, lists), false, f.ansi.value.writtenObjectId, false)
    else if f.cid.Some? then
      var a := CidListsAdded(f.cid.value, lists, next, encode);
      Outcome(FontState(Some(a.0), f.ansi), out + CidListCharacters(a.0, lists), true, a.0.writtenObjectId, a.1)
    else
      var ansi := if f.ansi.Some? then f.ansi.value else EmptyRepresentation;
      var tried := ansiEncoder(ansi.glyphIdToEncodedChar, lists);
      if tried.Some? then
        var allocate := ansi.writtenObjectId == 0;
        var id := if allocate then next else ansi.writtenObjectId;
        Outcome(FontState(None, Some(Representation(tried.value.0, id))), out + tried.value.1, false, id, allocate)
      else
        var a := CidListsAdded(EmptyRepresentation, lists, next, encode);
        Outcome(FontState(Some(a.0), Some(ansi)), out + CidListCharacters(a.0, lists), true, a.0.writtenObjectId, a.1)
  }

  /** The font's invariant: a CID representation, once there, has its object ID. */
  predicate Settled(f: FontState)
  {
    f.cid.Some? ==> f.cid.value.writtenObjectId != 0
  }

  // ---------------------------------------------------------------------
  // Properties of the policy.

  /**
   * Adding to a CID representation: glyph 0 first when it was empty, every
   * glyph covered afterwards, earlier entries kept, one character per glyph.
   */
  lemma CidAddedCovers(rep: Representation, glyphs: seq<GlyphUnicodeMapping>, next: nat, encode: nat -> ushort)
    ensures var a := CidAdded(rep, glyphs, next, encode); var m := a.0.glyphIdToEncodedChar;
      Covers(m, glyphs) && Extends(rep.glyphIdToEncodedChar, m) &&
      (|rep.glyphIdToEncodedChar| == 0 ==> 0 in m && m[0] == GlyphEncodingInfo(encode(0), [0])) &&
      |CidCharacters(a.0, glyphs, encode)| == |glyphs|
  {
    var seeded := WithNotdef(rep.glyphIdToEncodedChar, encode);
    WithGlyphsAdds(seeded, glyphs, encode);
  }

  /** The object ID of a representation is allocated only while it is 0, and then it is the registry's next ID. */
  lemma AllocatesOnce(f: FontState, glyphs: seq<GlyphUnicodeMapping>, out: seq<ushort>, next: nat,
                      encode: nat -> ushort, ansiEncoder: AnsiEncoder)
    requires next > 0 && Settled(f)
    ensures var r := Append(f, glyphs, out, next, encode, ansiEncoder);
      Settled(r.font) && (r.multiByte ==> r.fontObjectId != 0)
    ensures var r := Append(f, glyphs, out, next, encode, ansiEncoder);
      r.newObjectId ==> r.fontObjectId == next
    ensures var r := Append(f, glyphs, out, next, encode, ansiEncoder);
      (f.cid.Some? ==> r.font.cid.value.writtenObjectId == f.cid.value.writtenObjectId) &&
      (f.ansi.Some? && f.ansi.value.writtenObjectId != 0 && r.font.ansi.Some? ==>
         r.font.ansi.value.writtenObjectId == f.ansi.value.writtenObjectId)
  {
  }

  /** Once a CID representation exists the ANSI one is never touched again, and the CID one stays. */
  lemma CidIsSticky(f: FontState, glyphs: seq<GlyphUnicodeMapping>, out: seq<ushort>, next: nat,
                    encode: nat -> ushort, ansiEncoder: AnsiEncoder)
    requires f.cid.Some?
    ensures var r := Append(f, glyphs, out, next, encode, ansiEncoder);
      r.font.ansi == f.ansi && r.font.cid.Some? &&
      Extends(f.cid.value.glyphIdToEncodedChar, r.font.cid.value.glyphIdToEncodedChar) &&
      (r.multiByte || Covers(f.ansi.value.glyphIdToEncodedChar, glyphs))
  {
    CidAddedCovers(f.cid.value, glyphs, next, encode);
  }

  /** Whatever the representation chosen, two-byte output means every glyph now has a CID entry, in order. */
  lemma MultiByteMeansCovered(f: FontState, glyphs: seq<GlyphUnicodeMapping>, out: seq<ushort>, next: nat,
                              encode: nat -> ushort, ansiEncoder: AnsiEncoder)
    ensures var r := Append(f, glyphs, out, next, encode, ansiEncoder);
      r.multiByte ==>
        r.font.cid.Some? && Covers(r.font.cid.value.glyphIdToEncodedChar, glyphs) &&
        (r.encoded == Encoded(r.font.cid.value.glyphIdToEncodedChar, glyphs) ||
         r.encoded == out + Encoded(r.font.cid.value.glyphIdToEncodedChar, glyphs))
  {
    var r := Append(f, glyphs, out, next, encode, ansiEncoder);
    if f.cid.Some? && Covers(f.cid.value.glyphIdToEncodedChar, glyphs) {
    } else if f.ansi.Some? && Covers(f.ansi.value.glyphIdToEncodedChar, glyphs) {
    } else if f.cid.Some? {
      CidAddedCovers(f.cid.value, glyphs, next, encode);
    } else {
      CidAddedCovers(EmptyRepresentation, glyphs, next, encode);
    }
  }

  /** A glyph list the CID representation already covers changes nothing and allocates nothing. */
  lemma CoveredChangesNothing(f: FontState, glyphs: seq<GlyphUnicodeMapping>, out: seq<ushort>, next: nat,
                              encode: nat -> ushort, ansiEncoder: AnsiEncoder)
    requires f.cid.Some? || f.ansi.Some?
    requires (f.cid.Some? && Covers(f.cid.value.glyphIdToEncodedChar, glyphs)) ||
             (f.ansi.Some? && Covers(f.ansi.value.glyphIdToEncodedChar, glyphs))
    ensures var r := Append(f, glyphs, out, next, encode, ansiEncoder);
      r.font == f && !r.newObjectId && |r.encoded| == |glyphs|
  {
  }

  /** The list-of-lists policy: one output list per input list when a CID representation is used. */
  lemma ListsOnePerString(f: FontState, lists: seq<seq<GlyphUnicodeMapping>>, out: seq<seq<ushort>>, next: nat,
                          encode: nat -> ushort, ansiEncoder: AnsiListEncoder)
    ensures var r := AppendLists(f, lists, out, next, encode, ansiEncoder);
      r.multiByte ==>
        r.font.cid.Some? && CoversAll(r.font.cid.value.glyphIdToEncodedChar, lists) &&
        (|r.encoded| == |lists| || |r.encoded| == |out| + |lists|)
  {
    if f.cid.Some? && !CoversAll(f.cid.value.glyphIdToEncodedChar, lists) {
      WithGlyphListsAdds(WithNotdef(f.cid.value.glyphIdToEncodedChar, encode), lists, encode);
    } else if f.cid.None? {
      WithGlyphListsAdds(WithNotdef(map[], encode), lists, encode);
    }
  }

  // ---------------------------------------------------------------------
  // The font object.

  class AbstractWrittenFont {
    /** The objects context's registry, where object IDs come from. */
    const registry: IndirectObjectsReferenceRegistry
    /** `EncodeCIDGlyph` of the font type. */
    const encodeCID: nat -> ushort
    /** `AddToANSIRepresentation` of the font type, for one list and for a list of lists. */
    const ansiEncoder: AnsiEncoder
    const ansiListEncoder: AnsiListEncoder

    var cidRepresentation: Option<Representation>
    var ansiRepresentation: Option<Representation>

    function State(): FontState
      reads this
    {
      FontState(cidRepresentation, ansiRepresentation)
    }

    predicate Valid()
      reads this, registry
    {
      |registry.entries| > 0 && Settled(State())
    }

    constructor (registry: IndirectObjectsReferenceRegistry, encodeCID: nat -> ushort,
                 ansiEncoder: AnsiEncoder, ansiListEncoder: AnsiListEncoder)
      requires |registry.entries| > 0
      ensures Valid() && State() == FontState(None, None)
      ensures this.registry == registry && this.encodeCID == encodeCID
      ensures this.ansiEncoder == ansiEncoder && this.ansiListEncoder == ansiListEncoder
    {
      this.registry, this.encodeCID := registry, encodeCID;
      this.ansiEncoder, this.ansiListEncoder := ansiEncoder, ansiListEncoder;
      cidRepresentation, ansiRepresentation := None, None;
    }

    /**
     * Whether the map has every glyph; if so the output is their characters
     * in input order, and otherwise it is the output as it was.
     */
    static method CanEncodeWithIncludedChars(rep: Representation, glyphs: seq<GlyphUnicodeMapping>, out: seq<ushort>)
      returns (allIncluded: bool, encoded: seq<ushort>)
      ensures allIncluded <==> Covers(rep.glyphIdToEncodedChar, glyphs)
      ensures encoded == if allIncluded then Encoded(rep.glyphIdToEncodedChar, glyphs) else out
    {
      var m := rep.glyphIdToEncodedChar;
      var candidate: seq<ushort> := [];
      allIncluded := true;
      var k := 0;
      while k < |glyphs|
        invariant k <= |glyphs| && |candidate| <= k
        invariant allIncluded <==> Covers(m, glyphs[..k])
        invariant allIncluded ==> candidate == Encoded(m, glyphs[..k])
      {
        if glyphs[k].glyphCode !in m {
          allIncluded := false;
        } else {
          candidate := candidate + [m[glyphs[k].glyphCode].encodedCharacter];
        }
        k := k + 1;
      }
      assert glyphs[..k] == glyphs;
      encoded := if allIncluded then candidate else out;
    }

    /** The list-of-lists check: it stops at the first glyph the map does not have. */
    static method CanEncodeListsWithIncludedChars(rep: Representation, lists: seq<seq<GlyphUnicodeMapping>>,
                                                  out: seq<seq<ushort>>)
      returns (allIncluded: bool, encoded: seq<seq<ushort>>)
      ensures allIncluded <==> CoversAll(rep.glyphIdToEncodedChar, lists)
      ensures encoded == if allIncluded then EncodedLists(rep.glyphIdToEncodedChar, lists) else out
    {
      var m := rep.glyphIdToEncodedChar;
      var candidates: seq<seq<ushort>> := [];
      allIncluded := true;
      var i := 0;
      while i < |lists| && allIncluded
        invariant i <= |lists|
        invariant allIncluded <==> CoversAll(m, lists[..i])
        invariant allIncluded ==> candidates == EncodedLists(m, lists[..i])
      {
        var covered, candidate := CanEncodeWithIncludedChars(rep, lists[i], []);
        if covered {
          assert lists[..i + 1] == lists[..i] + [lists[i]];
          candidates := candidates + [candidate];
        } else {
          assert !Covers(m, lists[..i + 1][i]);
          allIncluded := false;
        }
        i := i + 1;
      }
      if allIncluded {
        assert lists[..i] == lists;
        return true, candidates;
      }
      return false, out;
    }

    /** The glyphs' characters in the CID map, each missing glyph inserted first. */
    static method InsertGlyphs(m0: EncodingMap, glyphs: seq<GlyphUnicodeMapping>, encode: nat -> ushort)
      returns (m: EncodingMap, characters: seq<ushort>)
      ensures m == WithGlyphs(m0, glyphs, encode)
      ensures Covers(m, glyphs) && characters == Encoded(m, glyphs)
    {
      m, characters := m0, [];
      var k := 0;
      assert glyphs[..0] == [];
      while k < |glyphs|
        invariant GlyphsInserted(m0, glyphs, k, encode, m, characters)
      {
        var g := glyphs[k];
        var m1 := WithGlyph(m, g, encode);
        var next := k + 1;
        GlyphsInsertedStep(m0, glyphs, k, encode, m, characters, m1, next);
        m := m1;
        characters := characters + [m[g.glyphCode].encodedCharacter];
        k := next;
      }
      assert glyphs[..k] == glyphs;
    }

    /** Adds the glyphs to the CID representation and appends their characters; allocates its ID if it is 0. */
    method AddToCIDRepresentation(glyphs: seq<GlyphUnicodeMapping>, out: seq<ushort>) returns (encoded: seq<ushort>)
      requires cidRepresentation.Some?
      modifies this, registry
      ensures var a := CidAdded(old(cidRepresentation.value), glyphs, old(|registry.entries|), encodeCID);
        cidRepresentation == Some(a.0) && ansiRepresentation == old(ansiRepresentation) &&
        encoded == out + CidCharacters(a.0, glyphs, encodeCID) &&
        registry.entries == old(registry.entries) + (if a.1 then [NewUsedObject] else [])
    {
      var rep := cidRepresentation.value;
      var m, characters := InsertGlyphs(WithNotdef(rep.glyphIdToEncodedChar, encodeCID), glyphs, encodeCID);
      encoded := out + characters;
      var id := rep.writtenObjectId;
      if id == 0 {
        id := registry.AllocateNewObjectID();
      }
      cidRepresentation := Some(Representation(m, id));
    }

    method AddToCIDRepresentationLists(lists: seq<seq<GlyphUnicodeMapping>>, out: seq<seq<ushort>>)
      returns (encoded: seq<seq<ushort>>)
      requires cidRepresentation.Some?
      modifies this, registry
      ensures var a := CidListsAdded(old(cidRepresentation.value), lists, old(|registry.entries|), encodeCID);
        cidRepresentation == Some(a.0) && ansiRepresentation == old(ansiRepresentation) &&
        encoded == out + CidListCharacters(a.0, lists) &&
        registry.entries == old(registry.entries) + (if a.1 then [NewUsedObject] else [])
    {
      var rep := cidRepresentation.value;
      var m0 := WithNotdef(rep.glyphIdToEncodedChar, encodeCID);
      var m, lines := InsertGlyphLists(m0, lists, encodeCID);
      encoded := out + lines;
      var id := rep.writtenObjectId;
      if id == 0 {
        id := registry.AllocateNewObjectID();
      }
      cidRepresentation := Some(Representation(m, id));
    }

    /** The outer loop of the list-of-lists `AddToCIDRepresentation`. */
    static method InsertGlyphLists(m0: EncodingMap, lists: seq<seq<GlyphUnicodeMapping>>, encode: nat -> ushort)
      returns (m: EncodingMap, lines: seq<seq<ushort>>)
      ensures m == WithGlyphLists(m0, lists, encode)
      ensures CoversAll(m, lists) && lines == EncodedLists(m, lists)
    {
      m, lines := m0, [];
      var i := 0;
      assert lists[..0] == [];
      while i < |lists|
        invariant ListsInserted(m0, lists, i, encode, m, lines)
      {
        var m1, characters := InsertGlyphs(m, lists[i], encode);
        var next := i + 1;
        ListsInsertedStep(m0, lists, i, encode, m, lines, m1, characters, next);
        m := m1;
        lines := lines + [characters];
        i := next;
      }
      assert lists[..i] == lists;
    }

    /** `AddToANSIRepresentation`: the font type's encoder on the ANSI map; nothing changes when it refuses. */
    method AddToANSIRepresentation(glyphs: seq<GlyphUnicodeMapping>, out: seq<ushort>)
      returns (ok: bool, encoded: seq<ushort>)
      requires ansiRepresentation.Some?
      modifies this
      ensures var tried := ansiEncoder(old(ansiRepresentation.value.glyphIdToEncodedChar), glyphs);
        ok == tried.Some? && cidRepresentation == old(cidRepresentation) &&
        (ok ==> ansiRepresentation == Some(old(ansiRepresentation.value).(glyphIdToEncodedChar := tried.value.0)) &&
                encoded == out + tried.value.1) &&
        (!ok ==> ansiRepresentation == old(ansiRepresentation) && encoded == out)
    {
      var tried := ansiEncoder(ansiRepresentation.value.glyphIdToEncodedChar, glyphs);
      if tried.None? {
        return false, out;
      }
      ansiRepresentation := Some(ansiRepresentation.value.(glyphIdToEncodedChar := tried.value.0));
      return true, out + tried.value.1;
    }

    method AddToANSIRepresentationLists(lists: seq<seq<GlyphUnicodeMapping>>, out: seq<seq<ushort>>)
      returns (ok: bool, encoded: seq<seq<ushort>>)
      requires ansiRepresentation.Some?
      modifies this
      ensures var tried := ansiListEncoder(old(ansiRepresentation.value.glyphIdToEncodedChar), lists);
        ok == tried.Some? && cidRepresentation == old(cidRepresentation) &&
        (ok ==> ansiRepresentation == Some(old(ansiRepresentation.value).(glyphIdToEncodedChar := tried.value.0)) &&
                encoded == out + tried.value.1) &&
        (!ok ==> ansiRepresentation == old(ansiRepresentation) && encoded == out)
    {
      var tried := ansiListEncoder(ansiRepresentation.value.glyphIdToEncodedChar, lists);
      if tried.None? {
        return false, out;
      }
      ansiRepresentation := Some(ansiRepresentation.value.(glyphIdToEncodedChar := tried.value.0));
      return true, out + tried.value.1;
    }

    /** `AppendGlyphs` for one string of glyphs. */
    method AppendGlyphs(glyphs: seq<GlyphUnicodeMapping>, out: seq<ushort>)
      returns (encoded: seq<ushort>, multiByte: bool, fontObjectId: nat)
      requires Valid()
      modifies this, registry
      ensures Valid()
      ensures var r := Append(old(State()), glyphs, out, old(|registry.entries|), encodeCID, ansiEncoder);
        State() == r.font && encoded == r.encoded && multiByte == r.multiByte && fontObjectId == r.fontObjectId &&
        registry.entries == old(registry.entries) + (if r.newObjectId then [NewUsedObject] else [])
    {
      if cidRepresentation.Some? {
        var covered, e := CanEncodeWithIncludedChars(cidRepresentation.value, glyphs, out);
        if covered {
          return e, true, cidRepresentation.value.writtenObjectId;
        }
      }
      if ansiRepresentation.Some? {
        var covered, e := CanEncodeWithIncludedChars(ansiRepresentation.value, glyphs, out);
        if covered {
          return e, false, ansiRepresentation.value.writtenObjectId;
        }
      }
      if cidRepresentation.Some? {
        encoded := AddToCIDRepresentation(glyphs, out);
        return encoded, true, cidRepresentation.value.writtenObjectId;
      }
      if ansiRepresentation.None? {
        ansiRepresentation := Some(EmptyRepresentation);
      }
      var ok, e := AddToANSIRepresentation(glyphs, out);
      if ok {
        if ansiRepresentation.value.writtenObjectId == 0 {
          var id := registry.AllocateNewObjectID();
          ansiRepresentation := Some(ansiRepresentation.value.(writtenObjectId := id));
        }
        return e, false, ansiRepresentation.value.writtenObjectId;
      }
      cidRepresentation := Some(EmptyRepresentation);
      encoded := AddToCIDRepresentation(glyphs, out);
      return encoded, true, cidRepresentation.value.writtenObjectId;
    }

    /** `AppendGlyphs` for a list of glyph strings. */
    method AppendGlyphLists(lists: seq<seq<GlyphUnicodeMapping>>, out: seq<seq<ushort>>)
      returns (encoded: seq<seq<ushort>>, multiByte: bool, fontObjectId: nat)
      requires Valid()
      modifies this, registry
      ensures Valid()
      ensures var r := AppendLists(old(State()), lists, out, old(|registry.entries|), encodeCID, ansiListEncoder);
        State() == r.font && encoded == r.encoded && multiByte == r.multiByte && fontObjectId == r.fontObjectId &&
        registry.entries == old(registry.entries) + (if r.newObjectId then [NewUsedObject] else [])
    {
      if cidRepresentation.Some? {
        var covered, e := CanEncodeListsWithIncludedChars(cidRepresentation.value, lists, out);
        if covered {
          return e, true, cidRepresentation.value.writtenObjectId;
        }
      }
      if ansiRepresentation.Some? {
        var covered, e := CanEncodeListsWithIncludedChars(ansiRepresentation.value, lists, out);
        if covered {
          return e, false, ansiRepresentation.value.writtenObjectId;
        }
      }
      if cidRepresentation.Some? {
        encoded := AddToCIDRepresentationLists(lists, out);
        return encoded, true, cidRepresentation.value.writtenObjectId;
      }
      if ansiRepresentation.None? {
        ansiRepresentation := Some(EmptyRepresentation);
      }
      var ok, e := AddToANSIRepresentationLists(lists, out);
      if ok {
        if ansiRepresentation.value.writtenObjectId == 0 {
          var id := registry.AllocateNewObjectID();
          ansiRepresentation := Some(ansiRepresentation.value.(writtenObjectId := id));
        }
        return e, false, ansiRepresentation.value.writtenObjectId;
      }
      cidRepresentation := Some(EmptyRepresentation);
      encoded := AddToCIDRepresentationLists(lists, out);
      return encoded, true, cidRepresentation.value.writtenObjectId;
    }
  }
}
