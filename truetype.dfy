/**
 * `TrueTypeEmbeddedFontWriter`: builds the subset font program embedded in
 * a PDF. Glyphs keep their original ids; glyphs that are not in the subset
 * become zero-length entries of a rebuilt loca table. The head, hhea, hmtx,
 * maxp, glyf and loca tables are rebuilt, the others copied, each table
 * entry is patched with (checksum, offset, length) once its table is
 * written, and finally the head checksumAdjustment is set.
 */
module TrueType {
  import opened Common
  import opened TrueTypeTables

  /** The tables the writer handles. */
  datatype TableName = Os2 | Cmap | Cvt | Fpgm | Glyf | Head | Hhea | Hmtx | Loca | Maxp | Name | Prep

  /** A table's four-character tag, as `GetTag` is given it. */
  function TagName(t: TableName): (r: seq<byte>)
    ensures |r| == 4
  {
    match t
    case Os2 => [0x4F, 0x53, 0x2F, 0x32]   // "OS/2"
    case Cmap => [0x63, 0x6D, 0x61, 0x70]  // "cmap"
    case Cvt => [0x63, 0x76, 0x74, 0x20]   // "cvt "
    case Fpgm => [0x66, 0x70, 0x67, 0x6D]  // "fpgm"
    case Glyf => [0x67, 0x6C, 0x79, 0x66]  // "glyf"
    case Head => [0x68, 0x65, 0x61, 0x64]  // "head"
    case Hhea => [0x68, 0x68, 0x65, 0x61]  // "hhea"
    case Hmtx => [0x68, 0x6D, 0x74, 0x78]  // "hmtx"
    case Loca => [0x6C, 0x6F, 0x63, 0x61]  // "loca"
    case Maxp => [0x6D, 0x61, 0x78, 0x70]  // "maxp"
    case Name => [0x6E, 0x61, 0x6D, 0x65]  // "name"
    case Prep => [0x70, 0x72, 0x65, 0x70]  // "prep"
  }

  /** A glyf entry of the source font; a simple glyph has no components. */
  datatype GlyphEntry = GlyphEntry(componentGlyphs: seq<nat>)

  /**
   * What the writer uses of the parsed source font: the glyph count, the
   * parsed glyf entries (None for an empty glyph), the original loca
   * offsets, the horizontal metrics and the raw bytes of every table.
   */
  datatype TrueTypeInput = TrueTypeInput(
    numGlyphs: uint16,
    glyf: seq<Option<GlyphEntry>>,
    loca: seq<nat>,
    numberOfHMetrics: uint16,
    hmtx: seq<HMetric>,
    tables: map<TableName, seq<byte>>)
  {
    predicate HasOs2() { Os2 in tables }
    predicate HasCvt() { Cvt in tables }
    predicate HasFpgm() { Fpgm in tables }
    predicate HasPrep() { Prep in tables }

    /** A TrueType font as the reader delivers it, with the tables the writer needs. */
    predicate WellFormed() {
      && |glyf| == numGlyphs && |loca| == numGlyphs + 1 && |hmtx| == numGlyphs
      && (forall i, j :: 0 <= i <= j <= numGlyphs ==> loca[i] <= loca[j])
      && Glyf in tables && (forall i :: 0 <= i <= numGlyphs ==> loca[i] <= |tables[Glyf]|)
      && Head in tables && |tables[Head]| >= 52
      && Hhea in tables && |tables[Hhea]| >= 2
      && Maxp in tables && |tables[Maxp]| >= 6
      && Name in tables && Cmap in tables
      && (forall g, c :: 0 <= g < |glyf| && glyf[g].Some? && c in glyf[g].value.componentGlyphs ==> c < numGlyphs)
    }
  }

  // ----- the table directory -----

  /** The entries the directory holds, in the order they are written. */
  function DirectoryTags(f: TrueTypeInput): (r: seq<TableName>)
    ensures 8 <= |r| <= 12
  {
    (if f.HasOs2() then [Os2] else []) + [Cmap]
    + (if f.HasCvt() then [Cvt] else []) + (if f.HasFpgm() then [Fpgm] else [])
    + [Glyf, Head, Hhea, Hmtx, Loca, Maxp, Name]
    + (if f.HasPrep() then [Prep] else [])
  }

  /**
   * The numTables value as written: nine tables always, OS/2 among them,
   * plus cvt, prep and fpgm when present.
   */
  function TableCountAsWritten(f: TrueTypeInput): nat
  {
    9 + (if f.HasCvt() then 1 else 0) + (if f.HasPrep() then 1 else 0) + (if f.HasFpgm() then 1 else 0)
  }

  /** The count as written matches the entries only when the font has an OS/2 table. */
  lemma TableCountAsWrittenCountsOs2(f: TrueTypeInput)
    ensures f.HasOs2() ==> TableCountAsWritten(f) == |DirectoryTags(f)|
    ensures !f.HasOs2() ==> TableCountAsWritten(f) == |DirectoryTags(f)| + 1
  {
  }

  /** Every tag in the directory names a table of a well-formed font. */
  lemma DirectoryTablesExist(f: TrueTypeInput, t: TableName)
    requires f.WellFormed() && t in DirectoryTags(f) && t != Hmtx && t != Loca
    ensures t in f.tables
  {
  }

  /** The floor of the base-2 logarithm, the reference for `GetSmallerPower2`. */
  function Log2Floor(n: nat): (r: nat)
    requires n >= 1
    ensures Pow2(r) <= n < Pow2(r + 1)
  {
    if n == 1 then 0 else 1 + Log2Floor(n / 2)
  }

  lemma {:induction false} Pow2Monotone(a: nat, b: nat)
    requires a <= b
    ensures Pow2(a) <= Pow2(b)
    decreases b
  {
    if a < b {
      Pow2Monotone(a, b - 1);
    }
  }

  lemma Pow2Values()
    ensures Pow2(7) == 0x80 && Pow2(8) == 0x100 && Pow2(15) == 0x8000 && Pow2(16) == 0x10000
  {
    assert Pow2(1) == 2 && Pow2(2) == 4 && Pow2(3) == 8 && Pow2(4) == 16;
    assert Pow2(5) == 32 && Pow2(6) == 64 && Pow2(7) == 0x80 && Pow2(8) == 0x100;
    assert Pow2(9) == 0x200 && Pow2(10) == 0x400 && Pow2(11) == 0x800 && Pow2(12) == 0x1000;
    assert Pow2(13) == 0x2000 && Pow2(14) == 0x4000 && Pow2(15) == 0x8000 && Pow2(16) == 0x10000;
  }

  /** There is only one exponent with 2^r <= n < 2^(r+1). */
  lemma Log2Unique(n: nat, r: nat)
    requires n >= 1 && Pow2(r) <= n < Pow2(r + 1)
    ensures r == Log2Floor(n)
  {
    var l := Log2Floor(n);
    if r < l {
      Pow2Monotone(r + 1, l);
    } else if l < r {
      Pow2Monotone(l + 1, r);
    }
  }

  /** Offset-table header: version 1.0, numTables, searchRange, entrySelector, rangeShift. */
  function OffsetTable(numTables: nat): (r: seq<byte>)
    requires numTables >= 1
    ensures |r| == 12
  {
    var e := Log2Floor(numTables);
    Be32(0x10000) + Be16(numTables) + Be16(16 * Pow2(e)) + Be16(e) + Be16((numTables - Pow2(e)) * 16)
  }

  function Entries(tags: seq<TableName>): (r: seq<byte>)
    ensures |r| == 16 * |tags|
  {
    if tags == [] then [] else Entries(tags[..|tags| - 1]) + EmptyEntry(TagName(tags[|tags| - 1]))
  }

  lemma EntriesStep(tags: seq<TableName>, i: nat)
    requires i < |tags|
    ensures Entries(tags[..i + 1]) == Entries(tags[..i]) + EmptyEntry(TagName(tags[i]))
  {
    assert tags[..i + 1][..i] == tags[..i];
  }

  /** Where the placeholder of each tag lands when the entries are written from offset `p` on. */
  function EntryOffsets(p: nat, tags: seq<TableName>): map<TableName, nat>
  {
    if tags == [] then map[]
    else EntryOffsets(p, tags[..|tags| - 1])[tags[|tags| - 1] := p + 16 * (|tags| - 1) + 4]
  }

  lemma EntryOffsetsStep(p: nat, tags: seq<TableName>, i: nat)
    requires i < |tags|
    ensures EntryOffsets(p, tags[..i + 1]) == EntryOffsets(p, tags[..i])[tags[i] := p + 16 * i + 4]
  {
    assert tags[..i + 1][..i] == tags[..i];
  }

  /** Every tag written has a recorded placeholder, and each placeholder lies inside the entries. */
  lemma {:induction false} EntryOffsetsCover(p: nat, tags: seq<TableName>)
    ensures forall t :: t in EntryOffsets(p, tags) <==> t in tags
    ensures forall t :: t in EntryOffsets(p, tags) ==> EntryOffsets(p, tags)[t] + 12 <= p + 16 * |tags|
    decreases |tags|
  {
    if tags != [] {
      var init := tags[..|tags| - 1];
      EntryOffsetsCover(p, init);
      assert tags == init + [tags[|tags| - 1]];
    }
  }

  /** The table directory as written before any table: header and placeholder entries. */
  function Directory(f: TrueTypeInput): (r: seq<byte>)
    ensures |r| == 12 + 16 * |DirectoryTags(f)|
  {
    OffsetTable(|DirectoryTags(f)|) + Entries(DirectoryTags(f))
  }

  /** The directory ends word-aligned, so the padding after it is empty. */
  lemma DirectoryAligned(f: TrueTypeInput)
    ensures |Directory(f)| % 4 == 0 && Padding(|Directory(f)|) == []
  {
    var n := |DirectoryTags(f)|;
    PaddingAligned(|Directory(f)|, 3 + 4 * n);
  }

  /** Entry `i` of the directory is the placeholder entry of the i-th tag. */
  lemma {:induction false} EntryAt(tags: seq<TableName>, i: nat)
    requires i < |tags|
    ensures Entries(tags)[16 * i..16 * i + 16] == EmptyEntry(TagName(tags[i]))
    decreases |tags|
  {
    var init := tags[..|tags| - 1];
    var last := EmptyEntry(TagName(tags[|tags| - 1]));
    assert Entries(tags) == Entries(init) + last;
    if i < |tags| - 1 {
      EntryAt(init, i);
      assert init[i] == tags[i];
      SliceOfPart(Entries(init), last, 16 * i, 16 * i + 16);
    } else {
      SliceOfPart(Entries(init), last, 0, 16);
      assert last[0..16] == last;
    }
  }

  /**
   * The directory's numTables field (bytes 4-6), searchRange, entrySelector
   * and rangeShift follow the OpenType rules for the number of entries
   * written; it is followed by exactly that many entries.
   */
  lemma DirectoryLayout(f: TrueTypeInput)
    ensures var n := |DirectoryTags(f)|; var e := Log2Floor(n);
      && Directory(f)[4..6] == Be16(n)
      && Directory(f)[6..8] == Be16(16 * Pow2(e)) && Pow2(e) <= n < 2 * Pow2(e)
      && Directory(f)[8..10] == Be16(e)
      && Directory(f)[10..12] == Be16((n - Pow2(e)) * 16)
      && |Directory(f)| == 12 + 16 * n
  {
  }

  // ----- glyph data and the rebuilt loca -----

  predicate AllValid(f: TrueTypeInput, ids: seq<nat>)
  {
    forall i :: 0 <= i < |ids| ==> ids[i] < f.numGlyphs
  }

  /** A glyph's bytes as the source font holds them: its original loca span, nothing for an empty glyph. */
  function GlyphBytes(f: TrueTypeInput, g: nat): (r: seq<byte>)
    requires f.WellFormed() && g < f.numGlyphs
    ensures f.glyf[g].Some? ==> |r| == f.loca[g + 1] - f.loca[g]
    ensures f.glyf[g].None? ==> r == []
  {
    if f.glyf[g].Some? then f.tables[Glyf][f.loca[g]..f.loca[g + 1]] else []
  }

  /** The glyf table of the subset: the glyphs' bytes one after another. */
  function Glyphs(f: TrueTypeInput, ids: seq<nat>): seq<byte>
    requires f.WellFormed() && AllValid(f, ids)
  {
    if ids == [] then [] else Glyphs(f, ids[..|ids| - 1]) + GlyphBytes(f, ids[|ids| - 1])
  }

  /** The new loca value of glyph `j`: the size of the subset's glyphs below `j`. */
  function LocaAt(f: TrueTypeInput, ids: seq<nat>, j: nat): nat
    requires f.WellFormed() && AllValid(f, ids)
  {
    if ids == [] then 0
    else LocaAt(f, ids[..|ids| - 1], j) + (if ids[|ids| - 1] < j then |GlyphBytes(f, ids[|ids| - 1])| else 0)
  }

  /** The whole rebuilt loca for a glyph count. */
  function NewLoca(f: TrueTypeInput, ids: seq<nat>, glyphCount: nat): (r: seq<nat>)
    requires f.WellFormed() && AllValid(f, ids)
    ensures |r| == glyphCount + 1
  {
    seq(glyphCount + 1, j requires 0 <= j <= glyphCount => LocaAt(f, ids, j))
  }

  /** A loca whose every value is LocaAt is the rebuilt loca. */
  lemma LocaComplete(f: TrueTypeInput, ids: seq<nat>, l: seq<nat>)
    requires f.WellFormed() && AllValid(f, ids) && |l| > 0
    requires forall j :: 0 <= j < |l| ==> l[j] == LocaAt(f, ids, j)
    ensures l == NewLoca(f, ids, |l| - 1)
  {
  }

  /** The rebuilt loca starts at 0. */
  lemma {:induction false} LocaStartsAtZero(f: TrueTypeInput, ids: seq<nat>)
    requires f.WellFormed() && AllValid(f, ids)
    ensures LocaAt(f, ids, 0) == 0
    decreases |ids|
  {
    if ids != [] {
      LocaStartsAtZero(f, ids[..|ids| - 1]);
    }
  }

  /** When every glyph is below `j`, loca at `j` is the size of all of them. */
  lemma {:induction false} LocaTotal(f: TrueTypeInput, ids: seq<nat>, j: nat)
    requires f.WellFormed() && AllValid(f, ids)
    requires forall i :: 0 <= i < |ids| ==> ids[i] < j
    ensures LocaAt(f, ids, j) == |Glyphs(f, ids)|
    decreases |ids|
  {
    if ids != [] {
      LocaTotal(f, ids[..|ids| - 1], j);
    }
  }

  /** The rebuilt loca is nondecreasing. */
  lemma {:induction false} LocaMonotone(f: TrueTypeInput, ids: seq<nat>, j: nat, k: nat)
    requires f.WellFormed() && AllValid(f, ids) && j <= k
    ensures LocaAt(f, ids, j) <= LocaAt(f, ids, k) <= |Glyphs(f, ids)|
    decreases |ids|
  {
    if ids != [] {
      LocaMonotone(f, ids[..|ids| - 1], j, k);
    }
  }

  /**
   * The span of glyph `j` in the rebuilt loca: its original length when it
   * is in the subset, zero when it was skipped.
   */
  lemma {:induction false} LocaSpan(f: TrueTypeInput, ids: seq<nat>, j: nat)
    requires f.WellFormed() && AllValid(f, ids) && Increasing(ids) && j < f.numGlyphs
    ensures LocaAt(f, ids, j + 1) == LocaAt(f, ids, j) + (if j in ids then |GlyphBytes(f, j)| else 0)
    decreases |ids|
  {
    if ids != [] {
      var init := ids[..|ids| - 1];
      var last := ids[|ids| - 1];
      LocaSpan(f, init, j);
      assert j in ids <==> j in init || j == last;
      forall i | 0 <= i < |init|
        ensures init[i] < last
      {
        assert init[i] == ids[i];
      }
    }
  }

  /** In the subset's glyf table, the bytes between glyph g's new loca values are glyph g's original bytes. */
  lemma {:induction false} GlyphKeepsItsBytes(f: TrueTypeInput, ids: seq<nat>, g: nat)
    requires f.WellFormed() && AllValid(f, ids) && Increasing(ids) && g in ids
    ensures LocaAt(f, ids, g) <= LocaAt(f, ids, g + 1) <= |Glyphs(f, ids)|
    ensures Glyphs(f, ids)[LocaAt(f, ids, g)..LocaAt(f, ids, g + 1)] == GlyphBytes(f, g)
    decreases |ids|
  {
    var init := ids[..|ids| - 1];
    var last := ids[|ids| - 1];
    LastGlyphSplit(f, ids, init);
    if g == last {
      LastGlyphBytes(f, init, g);
    } else {
      var i :| 0 <= i < |ids| && ids[i] == g;
      assert i < |init| && init[i] == g && g < last;
      assert LocaAt(f, ids, g) == LocaAt(f, init, g);
      assert LocaAt(f, ids, g + 1) == LocaAt(f, init, g + 1);
      GlyphKeepsItsBytes(f, init, g);
      SliceOfPrefix(Glyphs(f, init), GlyphBytes(f, last), LocaAt(f, init, g), LocaAt(f, init, g + 1));
    }
  }

  /** Splitting an increasing valid id list before its last id. */
  lemma LastGlyphSplit(f: TrueTypeInput, ids: seq<nat>, init: seq<nat>)
    requires f.WellFormed() && AllValid(f, ids) && Increasing(ids) && |ids| > 0 && init == ids[..|ids| - 1]
    ensures AllValid(f, init) && Increasing(init)
    ensures forall i :: 0 <= i < |init| ==> init[i] < ids[|ids| - 1]
    ensures Glyphs(f, ids) == Glyphs(f, init) + GlyphBytes(f, ids[|ids| - 1])
  {
    forall i | 0 <= i < |init|
      ensures init[i] < ids[|ids| - 1]
    {
      assert init[i] == ids[i];
    }
  }

  /** The last glyph's bytes sit at the end of the glyph data. */
  lemma LastGlyphBytes(f: TrueTypeInput, init: seq<nat>, g: nat)
    requires f.WellFormed() && AllValid(f, init) && g < f.numGlyphs
    requires forall i :: 0 <= i < |init| ==> init[i] < g
    ensures LocaAt(f, init, g) == LocaAt(f, init, g + 1) == |Glyphs(f, init)|
    ensures (Glyphs(f, init) + GlyphBytes(f, g))[|Glyphs(f, init)|..|Glyphs(f, init)| + |GlyphBytes(f, g)|] == GlyphBytes(f, g)
  {
    LocaTotal(f, init, g);
    LocaTotal(f, init, g + 1);
    SliceOfSuffix(Glyphs(f, init), GlyphBytes(f, g));
  }

  /** An id of an increasing list lies above its predecessor and at most at the last id. */
  lemma IncreasingAt(ids: seq<nat>, k: nat)
    requires Increasing(ids) && k < |ids|
    ensures (k > 0 ==> ids[k - 1] < ids[k]) && ids[k] <= ids[|ids| - 1]
  {
  }

  lemma TakeOneMore<T>(s: seq<T>, k: nat)
    requires k < |s|
    ensures s[..k + 1] == s[..k] + [s[k]]
  {
  }

  lemma SliceOfSuffix(a: seq<byte>, b: seq<byte>)
    ensures (a + b)[|a|..|a| + |b|] == b
  {
  }

  lemma SliceOfPrefix(a: seq<byte>, b: seq<byte>, lo: nat, hi: nat)
    requires lo <= hi <= |a|
    ensures (a + b)[lo..hi] == a[lo..hi]
  {
  }

  /** Loca values `0..n` of `l` are the ones rebuilt for `ids`. */
  ghost predicate LocaFilled(f: TrueTypeInput, ids: seq<nat>, l: seq<nat>, n: nat)
  {
    f.WellFormed() && AllValid(f, ids) && n < |l| && forall j :: 0 <= j <= n ==> l[j] == LocaAt(f, ids, j)
  }

  /** `after` is `previous` with the values past `from` up to `to` repeating the one at `from`, then `value`. */
  ghost predicate Refilled(previous: seq<nat>, after: seq<nat>, from: nat, to: nat, value: nat)
  {
    && from <= to && to + 1 < |after| == |previous|
    && (forall j :: 0 <= j <= from ==> after[j] == previous[j])
    && (forall j :: from < j <= to ==> after[j] == previous[from])
    && after[to + 1] == value
  }

  /** Filling in glyph `g`'s loca values extends a rebuilt loca to the one with `g` added. */
  lemma LocaRefilled(f: TrueTypeInput, done: seq<nat>, g: nat, previousEnd: nat, previous: seq<nat>, after: seq<nat>, value: nat)
    requires g < f.numGlyphs && LocaFilled(f, done, previous, previousEnd)
    requires forall i :: 0 <= i < |done| ==> done[i] < previousEnd
    requires Refilled(previous, after, previousEnd, g, value)
    requires value == |Glyphs(f, done) + GlyphBytes(f, g)|
    ensures LocaFilled(f, done + [g], after, g + 1)
  {
    LocaAfterGlyph(f, done, g, previousEnd, g + 1, value);
    forall j | 0 <= j <= g + 1
      ensures after[j] == LocaAt(f, done + [g], j)
    {
      LocaAfterGlyph(f, done, g, previousEnd, j, after[j]);
    }
  }

  /** Loca value `j` after glyph `g` is copied: a skipped glyph keeps the last end, `g` ends after its bytes. */
  lemma LocaAfterGlyph(f: TrueTypeInput, done: seq<nat>, g: nat, previousEnd: nat, j: nat, v: nat)
    requires f.WellFormed() && AllValid(f, done) && g < f.numGlyphs && previousEnd <= g && j <= g + 1
    requires forall i :: 0 <= i < |done| ==> done[i] < previousEnd
    requires j <= previousEnd ==> v == LocaAt(f, done, j)
    requires previousEnd < j <= g ==> v == LocaAt(f, done, previousEnd)
    requires j == g + 1 ==> v == |Glyphs(f, done) + GlyphBytes(f, g)|
    ensures AllValid(f, done + [g]) && v == LocaAt(f, done + [g], j)
  {
    LocaStepAt(f, done, g, previousEnd, j);
  }

  /** One loca value after glyph `g` is added past every id before it. */
  lemma LocaStepAt(f: TrueTypeInput, done: seq<nat>, g: nat, previousEnd: nat, j: nat)
    requires f.WellFormed() && AllValid(f, done) && g < f.numGlyphs && previousEnd <= g
    requires forall i :: 0 <= i < |done| ==> done[i] < previousEnd
    ensures AllValid(f, done + [g]) && LocaAt(f, done, previousEnd) == |Glyphs(f, done)|
    ensures j <= previousEnd ==> LocaAt(f, done + [g], j) == LocaAt(f, done, j)
    ensures previousEnd < j <= g ==> LocaAt(f, done + [g], j) == |Glyphs(f, done)|
    ensures j == g + 1 ==> LocaAt(f, done + [g], j) == |Glyphs(f, done) + GlyphBytes(f, g)|
  {
    var next := done + [g];
    assert next[..|next| - 1] == done;
    LocaTotal(f, done, previousEnd);
    if previousEnd < j {
      LocaTotal(f, done, j);
    }
  }

  /**
   * One glyph more: appending ids[k] to the glyph data leaves loca up to
   * the previous glyph's end alone, gives the skipped glyphs that end, and
   * puts the new glyph's end at the total size.
   */
  lemma LocaStep(f: TrueTypeInput, done: seq<nat>, g: nat, previousEnd: nat)
    requires f.WellFormed() && AllValid(f, done) && g < f.numGlyphs && previousEnd <= g
    requires forall i :: 0 <= i < |done| ==> done[i] < previousEnd
    ensures AllValid(f, done + [g])
    ensures Glyphs(f, done + [g]) == Glyphs(f, done) + GlyphBytes(f, g)
    ensures LocaAt(f, done, previousEnd) == |Glyphs(f, done)|
    ensures forall j :: 0 <= j <= previousEnd ==> LocaAt(f, done + [g], j) == LocaAt(f, done, j)
    ensures forall j :: previousEnd < j <= g ==> LocaAt(f, done + [g], j) == |Glyphs(f, done)|
    ensures LocaAt(f, done + [g], g + 1) == |Glyphs(f, done + [g])|
  {
    var next := done + [g];
    assert next[..|next| - 1] == done;
    LocaTotal(f, done, previousEnd);
    forall j | previousEnd < j <= g + 1
      ensures LocaAt(f, done, j) == |Glyphs(f, done)|
    {
      LocaTotal(f, done, j);
    }
  }

  /** How many leading ids are valid glyphs: the writer stops at the first that is not. */
  function ValidCount(f: TrueTypeInput, ids: seq<nat>): (k: nat)
    ensures k <= |ids| && AllValid(f, ids[..k])
    ensures k < |ids| ==> ids[k] >= f.numGlyphs
    ensures k == |ids| <==> AllValid(f, ids)
  {
    if ids == [] then 0
    else if ids[0] >= f.numGlyphs then 0
    else
      var k := 1 + ValidCount(f, ids[1..]);
      assert forall i :: 1 <= i < k ==> ids[i] == ids[1..][i - 1];
      k
  }

  /** The first invalid id, or the end of the list, is where ValidCount stops. */
  lemma ValidCountIs(f: TrueTypeInput, ids: seq<nat>, k: nat)
    requires k <= |ids| && AllValid(f, ids[..k]) && (k < |ids| ==> ids[k] >= f.numGlyphs)
    ensures ValidCount(f, ids) == k
  {
    var n := ValidCount(f, ids);
    forall i | 0 <= i < n
      ensures ids[i] < f.numGlyphs
    {
      assert ids[..n][i] == ids[i];
    }
    forall i | 0 <= i < k
      ensures ids[i] < f.numGlyphs
    {
      assert ids[..k][i] == ids[i];
    }
  }

  // ----- composite glyphs -----

  predicate IsComposite(f: TrueTypeInput, g: nat)
    requires f.WellFormed()
  {
    g < f.numGlyphs && f.glyf[g].Some? && |f.glyf[g].value.componentGlyphs| > 0
  }

  /**
   * The components reached from glyph `id` by at most `fuel` levels of
   * composite nesting. Ids outside the font contribute nothing.
   */
  function Reach(f: TrueTypeInput, id: nat, fuel: nat): set<nat>
    requires f.WellFormed()
    decreases fuel, 0
  {
    if fuel == 0 || id >= f.numGlyphs || f.glyf[id].None? then {}
    else ReachAll(f, f.glyf[id].value.componentGlyphs, fuel - 1)
  }

  /** Each listed component, and what it reaches in turn. */
  function ReachAll(f: TrueTypeInput, cs: seq<nat>, fuel: nat): set<nat>
    requires f.WellFormed()
    decreases fuel, |cs|
  {
    if cs == [] then {}
    else ReachAll(f, cs[..|cs| - 1], fuel) + {cs[|cs| - 1]} + Reach(f, cs[|cs| - 1], fuel)
  }

  /** Everything the glyphs of a list reach. */
  function Dependents(f: TrueTypeInput, ids: seq<nat>, fuel: nat): set<nat>
    requires f.WellFormed()
  {
    if ids == [] then {} else Dependents(f, ids[..|ids| - 1], fuel) + Reach(f, ids[|ids| - 1], fuel)
  }

  /** The nesting depth the walk follows: enough for every simple path through the font's glyphs. */
  function Fuel(f: TrueTypeInput): nat { f.numGlyphs + 1 }

  lemma {:induction false} ReachInRange(f: TrueTypeInput, id: nat, fuel: nat, c: nat)
    requires f.WellFormed() && c in Reach(f, id, fuel)
    ensures c < f.numGlyphs
    decreases fuel, 0
  {
    ReachAllInRange(f, f.glyf[id].value.componentGlyphs, fuel - 1, c);
  }

  lemma {:induction false} ReachAllInRange(f: TrueTypeInput, cs: seq<nat>, fuel: nat, c: nat)
    requires f.WellFormed() && c in ReachAll(f, cs, fuel)
    requires forall k :: k in cs ==> k < f.numGlyphs
    ensures c < f.numGlyphs
    decreases fuel, |cs|
  {
    var init := cs[..|cs| - 1];
    var last := cs[|cs| - 1];
    assert last in cs;
    forall k | k in init
      ensures k in cs
    {
      var i :| 0 <= i < |init| && init[i] == k;
      assert cs[i] == k;
    }
    if c in ReachAll(f, init, fuel) {
      ReachAllInRange(f, init, fuel, c);
    } else if c != last {
      ReachInRange(f, last, fuel, c);
    }
  }

  /** Every glyph a list reaches is a glyph of the font. */
  lemma {:induction false} DependentsInRange(f: TrueTypeInput, ids: seq<nat>, fuel: nat, c: nat)
    requires f.WellFormed() && c in Dependents(f, ids, fuel)
    ensures c < f.numGlyphs
    decreases |ids|
  {
    if c in Dependents(f, ids[..|ids| - 1], fuel) {
      DependentsInRange(f, ids[..|ids| - 1], fuel, c);
    } else {
      ReachInRange(f, ids[|ids| - 1], fuel, c);
    }
  }

  /** Which listed component a reached glyph comes from. */
  lemma {:induction false} ReachAllSource(f: TrueTypeInput, cs: seq<nat>, fuel: nat, c: nat) returns (k: nat)
    requires f.WellFormed() && c in ReachAll(f, cs, fuel)
    ensures k in cs && (c == k || c in Reach(f, k, fuel))
    decreases |cs|
  {
    var init := cs[..|cs| - 1];
    if c in ReachAll(f, init, fuel) {
      k := ReachAllSource(f, init, fuel, c);
    } else {
      k := cs[|cs| - 1];
    }
  }

  /** A listed component, and all it reaches, belong to what the list reaches. */
  lemma {:induction false} ReachAllIncludes(f: TrueTypeInput, cs: seq<nat>, fuel: nat, k: nat)
    requires f.WellFormed() && k in cs
    ensures k in ReachAll(f, cs, fuel) && Reach(f, k, fuel) <= ReachAll(f, cs, fuel)
    decreases |cs|
  {
    var init := cs[..|cs| - 1];
    if k != cs[|cs| - 1] {
      ReachAllIncludes(f, init, fuel, k);
    }
  }

  /**
   * The walk is transitive: a component of a reached glyph is reached with
   * one more level of nesting.
   */
  lemma {:induction false} ReachClosed(f: TrueTypeInput, id: nat, fuel: nat, c: nat, d: nat)
    requires f.WellFormed() && c in Reach(f, id, fuel)
    requires c < f.numGlyphs && f.glyf[c].Some? && d in f.glyf[c].value.componentGlyphs
    ensures d in Reach(f, id, fuel + 1)
    decreases fuel
  {
    var cs := f.glyf[id].value.componentGlyphs;
    var k := ReachAllSource(f, cs, fuel - 1, c);
    ReachAllIncludes(f, cs, fuel, k);
    if c == k {
      ReachAllIncludes(f, f.glyf[k].value.componentGlyphs, fuel - 1, d);
    } else {
      ReachClosed(f, k, fuel - 1, c, d);
    }
  }

  // ----- the writer -----

  class TrueTypeEmbeddedFontWriter {
    /** `mTrueTypeInput`: the parsed source font. */
    const input: TrueTypeInput
    /** The font program being written (`mFontFileStream`'s buffer) and its position. */
    var font: seq<byte>
    var position: nat
    /** The m...EntryWritingOffset fields: where each table entry's placeholder starts. */
    var entryOffsets: map<TableName, nat>
    var headCheckSumOffset: nat
    var subsetGlyphsCount: uint16
    /** Where the table directory ends; every entry lies before it. */
    ghost var directoryEnd: nat

    ghost predicate Valid()
      reads this
    {
      && input.WellFormed() && position == |font| && |font| % 4 == 0 && directoryEnd <= |font|
      && (forall t :: t in entryOffsets ==> entryOffsets[t] + 12 <= directoryEnd)
    }

    /** The head checksumAdjustment word is placed after the directory and still zero. */
    ghost predicate HeadWordClear()
      reads this
    {
      HeadClearIn(font, directoryEnd, headCheckSumOffset)
    }

    /** The bookkeeping fields are as they were. */
    twostate predicate Unmoved()
      reads this
    {
      && entryOffsets == old(entryOffsets) && headCheckSumOffset == old(headCheckSumOffset)
      && subsetGlyphsCount == old(subsetGlyphsCount) && directoryEnd == old(directoryEnd)
    }

    constructor (input: TrueTypeInput)
      requires input.WellFormed()
      ensures this.input == input && font == [] && entryOffsets == map[] && Valid()
    {
      this.input := input;
      font := [];
      position := 0;
      entryOffsets := map[];
      headCheckSumOffset := 0;
      subsetGlyphsCount := 0;
      directoryEnd := 0;
    }

    // ----- stream primitives -----

    /** A write at the end of the stream. */
    method Write(b: seq<byte>)
      requires position == |font|
      modifies this
      ensures font == old(font) + b && position == |font| && Unmoved()
    {
      font := font + b;
      position := |font|;
    }

    /** A write over bytes already in the stream, after a `SetPosition` back. */
    method Overwrite(b: seq<byte>)
      requires position + |b| <= |font|
      modifies this
      ensures font == Patch(old(font), old(position), b) && position == old(position) + |b| && Unmoved()
    {
      font := Patch(font, position, b);
      position := position + |b|;
    }

    /** Seeking to offset `k` of a table just written and padded, and writing there. */
    method WriteInTable(start: nat, k: nat, b: seq<byte>, ghost before: seq<byte>, ghost table: seq<byte>,
                        ghost pad: seq<byte>)
      requires start == |before| && font == before + table + pad && k + |b| <= |table|
      modifies this
      ensures font == before + Patch(table, k, b) + pad && position == |before| + k + |b| && Unmoved()
    {
      SetPosition(start + k);
      Overwrite(b);
      PatchInTable(before, table, pad, k, b);
    }

    method SetPosition(p: nat)
      requires p <= |font|
      modifies this
      ensures position == p && font == old(font) && Unmoved()
    {
      position := p;
    }

    /** `PadTo4` at the end of the stream. */
    method PadTo4()
      requires position == |font|
      modifies this
      ensures font == old(font) + Padding(|old(font)|) && position == |font| && Unmoved()
    {
      Write(Padding(position));
    }

    // ----- small helpers -----

    /** `GetSmallerPower2`: the exponent of the highest set bit, scanning down from bit 15 or bit 7. */
    static method GetSmallerPower2(n: uint16) returns (r: uint16)
      ensures n >= 1 ==> Pow2(r) <= n < Pow2(r + 1)
      ensures n == 0 ==> r == 0xFFFF
    {
      Pow2Values();
      var comparer: nat := if n > 0xFF then 0x8000 else 0x80;
      var i: int := if n > 0xFF then 15 else 7;
      // n & comparer is the bit of n that comparer selects.
      while comparer > 0 && (n / comparer) % 2 == 0
        invariant -1 <= i <= 15
        invariant comparer == (if i >= 0 then Pow2(i) else 0)
        invariant n < Pow2(i + 1)
        decreases i + 1
      {
        BitClearBelow(n, comparer);
        comparer := comparer / 2;
        i := i - 1;
      }
      if comparer > 0 {
        BitSetAbove(n, comparer);
      }
      // With no bit set the counter wraps below zero and is truncated to 16 bits.
      r := if i < 0 then 0xFFFF else i;
    }

    /** `GetTag`: the name padded with spaces, read as a big-endian ULONG. */
    static method GetTag(name: seq<byte>) returns (tag: nat)
      requires |name| <= 4
      ensures tag < TwoTo32 && Be32(tag) == TagBytes(name)
    {
      var buffer := new byte[4];
      var i := 0;
      while i < |name|
        invariant 0 <= i <= |name| && buffer[..i] == name[..i]
      {
        buffer[i] := name[i];
        i := i + 1;
      }
      while i < 4
        invariant |name| <= i <= 4 && buffer[..i] == TagBytes(name)[..i]
      {
        buffer[i] := 0x20;
        i := i + 1;
      }
      tag := ReadBe32(buffer[..], 0);
      WrittenReadBe32(buffer[..]);
      assert buffer[..] == TagBytes(name);
    }

    // ----- the table directory -----

    /** `WriteEmptyTableEntry`: the tag, then a twelve-byte placeholder whose position is recorded. */
    method WriteEmptyTableEntry(tag: TableName)
      requires position == |font|
      modifies this
      ensures font == old(font) + EmptyEntry(TagName(tag)) && position == |font|
      ensures entryOffsets == old(entryOffsets)[tag := |old(font)| + 4]
      ensures headCheckSumOffset == old(headCheckSumOffset) && subsetGlyphsCount == old(subsetGlyphsCount)
      ensures directoryEnd == old(directoryEnd)
    {
      var t := GetTag(TagName(tag));
      Write(Be32(t));
      entryOffsets := entryOffsets[tag := position];
      Write(EntryPlaceholder);
    }

    /** The offset table: version 1.0, numTables, searchRange, entrySelector, rangeShift. */
    method WriteOffsetTable(tableCount: uint16)
      requires tableCount >= 1 && position == |font|
      modifies this
      ensures font == old(font) + OffsetTable(tableCount) && position == |font| && Unmoved()
    {
      var smallerPowerTwo := GetSmallerPower2(tableCount);
      Log2Unique(tableCount, smallerPowerTwo);
      // version, numTables, searchRange (1 << (smallerPowerTwo + 4)), entrySelector, rangeShift
      Write(Be32(0x10000) + Be16(tableCount) + Be16(16 * Pow2(smallerPowerTwo)) + Be16(smallerPowerTwo)
            + Be16((tableCount - Pow2(smallerPowerTwo)) * 16));
    }

    /**
     * `WriteTrueTypeHeader`: the offset table and one placeholder entry per
     * table, in tag order, each optional table only when the font has it.
     * numTables is the number of entries written.
     */
    method WriteTrueTypeHeader() returns (status: Status)
      requires Valid() && font == [] && entryOffsets == map[]
      modifies this
      ensures Valid() && status == Success && font == Directory(input) && directoryEnd == |font|
      ensures entryOffsets == EntryOffsets(12, DirectoryTags(input))
      ensures forall t :: t in entryOffsets <==> t in DirectoryTags(input)
      ensures headCheckSumOffset == old(headCheckSumOffset) && subsetGlyphsCount == old(subsetGlyphsCount)
    {
      var tags := DirectoryTags(input);
      WriteOffsetTable(|tags|);
      AppendEmpty(OffsetTable(|tags|));
      WriteEntries(tags);
      EntryOffsetsCover(12, tags);
      DirectoryAligned(input);
      PadTo4();
      AppendEmpty(Directory(input));
      directoryEnd := |font|;
      status := Success;
    }

    /** One placeholder entry per tag, in the order given. */
    method WriteEntries(tags: seq<TableName>)
      requires position == |font| && entryOffsets == map[]
      modifies this
      ensures font == old(font) + Entries(tags) && position == |font|
      ensures entryOffsets == EntryOffsets(|old(font)|, tags)
      ensures headCheckSumOffset == old(headCheckSumOffset) && subsetGlyphsCount == old(subsetGlyphsCount)
      ensures directoryEnd == old(directoryEnd)
    {
      ghost var before := font;
      var i := 0;
      while i < |tags|
        invariant 0 <= i <= |tags| && position == |font|
        invariant font == before + Entries(tags[..i])
        invariant entryOffsets == EntryOffsets(|before|, tags[..i])
        invariant headCheckSumOffset == old(headCheckSumOffset) && subsetGlyphsCount == old(subsetGlyphsCount)
        invariant directoryEnd == old(directoryEnd)
      {
        WriteEmptyTableEntry(tags[i]);
        EntriesStep(tags, i);
        AppendAssoc(before, Entries(tags[..i]), EmptyEntry(TagName(tags[i])));
        EntryOffsetsStep(|before|, tags, i);
        i := i + 1;
      }
      assert tags[..i] == tags;
    }

    // ----- checksums and table entries -----

    /** `GetCheckSum`, reading every ULONG of the padded table. */
    method GetCheckSum(offset: nat, length: nat) returns (sum: nat)
      requires offset + Round4(length) <= |font|
      ensures sum == CheckSum(font, offset, length)
    {
      var words := Round4(length) / 4;
      var endPosition := offset + Round4(length);
      var p := offset;
      var t := 0;
      sum := 0;
      while p < endPosition
        invariant t <= words && p == offset + 4 * t
        invariant sum + WordSum(font, p, words - t) == CheckSum(font, offset, length)
        decreases endPosition - p
      {
        var value := ReadBe32(font, p);
        sum := sum + value;
        p := p + 4;
        t := t + 1;
      }
    }

    /** `GetCheckSum` as written: the loop stops at offset + Round4(length) / 4. */
    method GetCheckSumAsWritten(offset: nat, length: nat) returns (sum: nat)
      requires offset + Round4(length) <= |font|
      ensures sum == CheckSumAsWritten(font, offset, length)
    {
      var words := WordsReadAsWritten(length);
      var endPosition := offset + Round4(length) / 4;
      var p := offset;
      var t := 0;
      sum := 0;
      while p < endPosition
        invariant t <= words && p == offset + 4 * t
        invariant sum + WordSum(font, p, words - t) == CheckSumAsWritten(font, offset, length)
        decreases endPosition - p
      {
        var value := ReadBe32(font, p);
        sum := sum + value;
        p := p + 4;
        t := t + 1;
      }
    }

    /** `WriteTableEntryData`: checksum, offset and length written over the entry placeholder. */
    method WriteTableEntryData(entryAt: nat, tableOffset: nat, tableLength: nat)
      requires entryAt + 12 <= |font| && tableOffset + Round4(tableLength) <= |font|
      modifies this
      ensures font == EntryPatched(old(font), entryAt, CheckSum(old(font), tableOffset, tableLength), tableOffset, tableLength)
      ensures position == entryAt + 12 && Unmoved()
    {
      var checksum := GetCheckSum(tableOffset, tableLength);
      ghost var f0 := font;
      SetPosition(entryAt);
      Overwrite(Be32(checksum));
      Overwrite(Be32(tableOffset));
      Overwrite(Be32(tableLength));
      PatchThrice(f0, entryAt, Be32(checksum), Be32(tableOffset), Be32(tableLength));
    }

    /**
     * Finishing a table written at `start` and padded: its entry gets the
     * checksum, offset and length, and the position returns to the end.
     */
    method FinishTable(tag: TableName, start: nat, tableLength: nat, endOfStream: nat,
                       ghost before: seq<byte>, ghost content: seq<byte>)
      requires input.WellFormed() && tag in entryOffsets && directoryEnd <= |before|
      requires forall t :: t in entryOffsets ==> entryOffsets[t] + 12 <= directoryEnd
      requires start == |before| && start % 4 == 0 && |content| == tableLength
      requires font == before + content + Padding(|before| + |content|) && endOfStream == |font|
      requires position <= |font|
      modifies this
      ensures Unmoved() && Valid() && font == TableWritten(before, entryOffsets[tag], content)
      ensures HeadClearIn(before, directoryEnd, headCheckSumOffset) ==> HeadWordClear()
    {
      var entryAt := entryOffsets[tag];
      assert entryAt + 12 <= directoryEnd;
      PaddedTable(start, tableLength);
      WriteTableEntryData(entryAt, start, tableLength);
      assert font == TableWritten(before, entryAt, content);
      SetPosition(endOfStream);
      if HeadClearIn(before, directoryEnd, headCheckSumOffset) {
        TableWrittenKeepsZero(before, entryAt, content, directoryEnd, headCheckSumOffset);
      }
    }

    /**
     * The end of every table writer: pad to four bytes, patch the entry,
     * return to the end of the stream.
     */
    method EndTable(tag: TableName, start: nat, ghost before: seq<byte>, ghost content: seq<byte>)
      requires input.WellFormed() && tag in entryOffsets && directoryEnd <= |before|
      requires forall t :: t in entryOffsets ==> entryOffsets[t] + 12 <= directoryEnd
      requires start == |before| && start % 4 == 0
      requires font == before + content && position == |font|
      modifies this
      ensures Unmoved() && Valid() && font == TableWritten(before, entryOffsets[tag], content)
      ensures HeadClearIn(before, directoryEnd, headCheckSumOffset) ==> HeadWordClear()
    {
      var endOfTable := position;
      PadTo4();
      var endOfStream := position;
      FinishTable(tag, start, endOfTable - start, endOfStream, before, content);
    }

    /** `CreateTableCopy`: the table copied unchanged from the source font. */
    method CreateTableCopy(tag: TableName) returns (status: Status)
      requires Valid() && tag in entryOffsets && tag in input.tables
      modifies this
      ensures Valid() && status == Success && Unmoved()
      ensures font == TableWritten(old(font), entryOffsets[tag], input.tables[tag])
      ensures old(HeadWordClear()) ==> HeadWordClear()
    {
      var table := input.tables[tag];
      ghost var before := font;
      var start := position;
      Write(table);
      EndTable(tag, start, before, table);
      status := Success;
    }

    /** `WriteHead`: head copied, checksumAdjustment zeroed and its offset kept, long loca offsets selected. */
    method WriteHead() returns (status: Status)
      requires Valid() && Head in entryOffsets && directoryEnd == |font|
      modifies this
      ensures entryOffsets == old(entryOffsets) && subsetGlyphsCount == old(subsetGlyphsCount)
      ensures directoryEnd == old(directoryEnd)
      ensures Valid() && status == Success && HeadWordClear()
      ensures font == TableWritten(old(font), entryOffsets[Head], HeadContent(input.tables[Head]))
      ensures headCheckSumOffset == |old(font)| + 8
    {
      var head := input.tables[Head];
      ghost var before := font;
      var start := position;
      Write(head);
      PadTo4();
      var endOfStream := position;
      ghost var pad := Padding(|before| + |head|);
      headCheckSumOffset := start + 8;
      WriteInTable(start, 8, Be32(0), before, head, pad);
      WriteInTable(start, 50, Be16(1), before, Patch(head, 8, Be32(0)), pad);
      FinishTable(Head, start, |head|, endOfStream, before, HeadContent(head));
      HeadWordZero(before, entryOffsets[Head], head);
      AlignedSum(|before|, 8);
      status := Success;
    }

    /** `WriteHHea`: hhea copied, numberOfHMetrics lowered to the glyph count when larger. */
    method WriteHHea() returns (status: Status)
      requires Valid() && Hhea in entryOffsets
      modifies this
      ensures Valid() && status == Success && Unmoved()
      ensures font == TableWritten(old(font), entryOffsets[Hhea],
                                   HheaContent(input.tables[Hhea], input.numberOfHMetrics, subsetGlyphsCount))
      ensures old(HeadWordClear()) ==> HeadWordClear()
    {
      var hhea := input.tables[Hhea];
      ghost var before := font;
      var start := position;
      Write(hhea);
      PadTo4();
      var endOfStream := position;
      if input.numberOfHMetrics > subsetGlyphsCount {
        WriteInTable(start, |hhea| - 2, Be16(subsetGlyphsCount), before, hhea, Padding(|before| + |hhea|));
      }
      FinishTable(Hhea, start, |hhea|, endOfStream, before,
                  HheaContent(hhea, input.numberOfHMetrics, subsetGlyphsCount));
      status := Success;
    }

    /** `WriteMaxp`: maxp copied, numGlyphs set to the glyph count. */
    method WriteMaxp() returns (status: Status)
      requires Valid() && Maxp in entryOffsets
      modifies this
      ensures Valid() && status == Success && Unmoved()
      ensures font == TableWritten(old(font), entryOffsets[Maxp], MaxpContent(input.tables[Maxp], subsetGlyphsCount))
      ensures old(HeadWordClear()) ==> HeadWordClear()
    {
      var maxp := input.tables[Maxp];
      ghost var before := font;
      var start := position;
      Write(maxp);
      PadTo4();
      var endOfStream := position;
      WriteInTable(start, 4, Be16(subsetGlyphsCount), before, maxp, Padding(|before| + |maxp|));
      FinishTable(Maxp, start, |maxp|, endOfStream, before, MaxpContent(maxp, subsetGlyphsCount));
      status := Success;
    }

    /** `WriteHMtx`: full metrics for the first min(numberOfHMetrics, count) glyphs, bearings after. */
    method WriteHMtx() returns (status: Status)
      requires Valid() && Hmtx in entryOffsets && subsetGlyphsCount <= input.numGlyphs
      modifies this
      ensures Valid() && status == Success && Unmoved()
      ensures font == TableWritten(old(font), entryOffsets[Hmtx],
                                   HmtxContent(input.hmtx, input.numberOfHMetrics, subsetGlyphsCount))
      ensures old(HeadWordClear()) ==> HeadWordClear()
    {
      ghost var before := font;
      var start := position;
      WriteMetrics(input.hmtx, input.numberOfHMetrics, subsetGlyphsCount);
      EndTable(Hmtx, start, before, HmtxContent(input.hmtx, input.numberOfHMetrics, subsetGlyphsCount));
      status := Success;
    }

    /** The two loops of `WriteHMtx`: pairs up to min(numberOfHMetrics, count), then bearings. */
    method WriteMetrics(ms: seq<HMetric>, hMetricsCount: uint16, glyphCount: uint16)
      requires position == |font| && glyphCount <= |ms|
      modifies this
      ensures font == old(font) + HmtxContent(ms, hMetricsCount, glyphCount) && position == |font| && Unmoved()
    {
      var numberOfHMetrics := Min(hMetricsCount, glyphCount);
      WritePairs(ms, numberOfHMetrics);
      WriteBearings(ms, numberOfHMetrics, glyphCount);
    }

    /** Advance width and left side bearing of the first `count` glyphs. */
    method WritePairs(ms: seq<HMetric>, count: nat)
      requires position == |font| && count <= |ms|
      modifies this
      ensures font == old(font) + MetricPairs(ms[..count]) && position == |font| && Unmoved()
    {
      var i := 0;
      while i < count
        invariant 0 <= i <= count && position == |font| && Unmoved()
        invariant font == old(font) + MetricPairs(ms[..i])
      {
        Write(Be16(ms[i].advanceWidth));
        Write(Be16(ms[i].leftSideBearing));
        assert ms[..i + 1][..i] == ms[..i];
        i := i + 1;
      }
    }

    /** Left side bearings of glyphs `from` up to `to`. */
    method WriteBearings(ms: seq<HMetric>, from: nat, to: nat)
      requires position == |font| && from <= to <= |ms|
      modifies this
      ensures font == old(font) + Bearings(ms[from..to]) && position == |font| && Unmoved()
    {
      var i := from;
      while i < to
        invariant from <= i <= to && position == |font| && Unmoved()
        invariant font == old(font) + Bearings(ms[from..i])
      {
        Write(Be16(ms[i].leftSideBearing));
        assert ms[from..i + 1][..i - from] == ms[from..i];
        i := i + 1;
      }
    }

    /** Filling the loca entries of skipped glyphs with the previous end: `for i in (from, to]`. */
    static method FillSkipped(loca: array<nat>, from: nat, to: nat)
      requires to < loca.Length
      modifies loca
      ensures forall j :: 0 <= j < loca.Length && !(from < j <= to) ==> loca[j] == old(loca[j])
      ensures forall j :: from < j <= to ==> loca[j] == old(loca[from])
    {
      if from < to {
        var value := loca[from];
        var i := from + 1;
        while i <= to
          invariant from < i <= to + 1
          invariant forall j :: 0 <= j < loca.Length && !(from < j < i) ==> loca[j] == old(loca[j])
          invariant forall j :: from < j < i ==> loca[j] == value
        {
          loca[i] := value;
          i := i + 1;
        }
      }
    }

    /**
     * `WriteGlyf`: the subset glyphs copied at their original ids, and the
     * new loca filled in. An id outside the font stops the copy and fails.
     */
    method WriteGlyf(ids: seq<nat>, loca: array<nat>) returns (status: Status, written: Status)
      requires Valid() && Glyf in entryOffsets && Increasing(ids) && |ids| > 0
      requires loca.Length == ids[|ids| - 1] + 2
      modifies this, loca
      ensures Valid() && Unmoved()
      ensures status == Success <==> AllValid(input, ids)
      ensures written == Success
      ensures font == TableWritten(old(font), entryOffsets[Glyf], Glyphs(input, ids[..ValidCount(input, ids)]))
      ensures status == Success ==> loca[..] == NewLoca(input, ids, loca.Length - 1)
      ensures old(HeadWordClear()) ==> HeadWordClear()
    {
      ghost var before := font;
      var start := position;
      var k;
      status, k := CopyGlyphs(ids, loca, start, before);
      EndTable(Glyf, start, before, Glyphs(input, ids[..k]));
      assert old(HeadWordClear()) ==> HeadWordClear();
      written := Success;
    }

    /** The loop of `WriteGlyf`: glyphs copied one by one until the list ends or an id is outside the font. */
    method CopyGlyphs(ids: seq<nat>, loca: array<nat>, start: nat, ghost before: seq<byte>)
      returns (status: Status, k: nat)
      requires input.WellFormed() && Increasing(ids) && |ids| > 0 && loca.Length == ids[|ids| - 1] + 2
      requires position == |font| && font == before && start == |before|
      modifies this, loca
      ensures position == |font| && Unmoved()
      ensures k == ValidCount(input, ids) && (status == Success <==> k == |ids|)
      ensures font == before + Glyphs(input, ids[..k])
      ensures status == Success ==> loca[..] == NewLoca(input, ids, loca.Length - 1)
    {
      loca[0] := 0;
      status := Success;
      var previousGlyphIndexEnd := 0;
      k := 0;
      CopyStarts(ids, loca, before);
      while k < |ids|
        invariant status == Success && Unmoved() && CopiedUpTo(ids, k, previousGlyphIndexEnd, loca, before)
      {
        var copied := CopyNext(ids, k, loca, previousGlyphIndexEnd, start, before);
        if !copied {
          return Failure, k;
        }
        previousGlyphIndexEnd := ids[k] + 1;
        k := k + 1;
      }
      CopyComplete(ids, k, previousGlyphIndexEnd, loca, before);
    }

    /** Nothing is copied yet and loca starts at 0. */
    lemma CopyStarts(ids: seq<nat>, loca: array<nat>, before: seq<byte>)
      requires input.WellFormed() && position == |font| && font == before && loca.Length > 0 && loca[0] == 0
      ensures CopiedUpTo(ids, 0, 0, loca, before)
    {
      assert ids[..0] == [];
      LocaStartsAtZero(input, []);
    }

    /** A glyph id past the font's glyphs stops the copy: the ids before it are the valid ones. */
    lemma CopyStopped(ids: seq<nat>, k: nat, previousEnd: nat, loca: array<nat>, before: seq<byte>)
      requires CopiedUpTo(ids, k, previousEnd, loca, before) && k < |ids| && ids[k] >= input.numGlyphs
      ensures k == ValidCount(input, ids) && font == before + Glyphs(input, ids[..k])
    {
      ValidCountIs(input, ids, k);
    }

    /** Once every id is copied, all of them are valid and loca is the rebuilt one. */
    lemma CopyComplete(ids: seq<nat>, k: nat, previousEnd: nat, loca: array<nat>, before: seq<byte>)
      requires CopiedUpTo(ids, k, previousEnd, loca, before) && k >= |ids| && |ids| > 0
      requires loca.Length == ids[|ids| - 1] + 2
      ensures k == |ids| == ValidCount(input, ids) && font == before + Glyphs(input, ids[..k])
      ensures loca[..] == NewLoca(input, ids, loca.Length - 1)
    {
      assert ids[..k] == ids;
      ValidCountIs(input, ids, k);
      LocaComplete(input, ids, loca[..]);
    }

    /** The state of `WriteGlyf`'s loop after the first k ids: their glyphs copied, loca filled up to the last one's end. */
    ghost predicate CopiedUpTo(ids: seq<nat>, k: nat, previousEnd: nat, loca: array<nat>, before: seq<byte>)
      reads this, loca
    {
      && input.WellFormed() && k <= |ids| && position == |font|
      && AllValid(input, ids[..k]) && font == before + Glyphs(input, ids[..k])
      && previousEnd == (if k == 0 then 0 else ids[k - 1] + 1) && previousEnd < loca.Length
      && LocaFilled(input, ids[..k], loca[..], previousEnd)
      && (forall i :: 0 <= i < k ==> ids[i] < previousEnd)
    }

    /** One turn of `WriteGlyf`'s loop, for a valid id. */
    method CopyNext(ids: seq<nat>, k: nat, loca: array<nat>, previousEnd: nat, start: nat, ghost before: seq<byte>)
      returns (copied: bool)
      requires CopiedUpTo(ids, k, previousEnd, loca, before) && Increasing(ids) && start == |before|
      requires k < |ids| && loca.Length == ids[|ids| - 1] + 2
      modifies this, loca
      ensures Unmoved() && (copied <==> ids[k] < input.numGlyphs)
      ensures copied ==> CopiedUpTo(ids, k + 1, ids[k] + 1, loca, before)
      ensures !copied ==> k == ValidCount(input, ids) && position == |font| && font == before + Glyphs(input, ids[..k])
    {
      if ids[k] >= input.numGlyphs {
        CopyStopped(ids, k, previousEnd, loca, before);
        return false;
      }
      copied := true;
      IncreasingAt(ids, k);
      WriteGlyph(ids[k], loca, previousEnd, start, before, ids[..k]);
      CopiedOneMore(ids, k, previousEnd, loca, before);
    }

    /** The state after glyph ids[k] is copied is the loop's state for the first k + 1 ids. */
    lemma CopiedOneMore(ids: seq<nat>, k: nat, previousEnd: nat, loca: array<nat>, before: seq<byte>)
      requires input.WellFormed() && k < |ids| && position == |font| && ids[k] + 1 < loca.Length
      requires (k == 0 ==> previousEnd == 0) && (k > 0 ==> previousEnd == ids[k - 1] + 1) && previousEnd <= ids[k]
      requires forall i :: 0 <= i < k ==> ids[i] < previousEnd
      requires AllValid(input, ids[..k] + [ids[k]]) && font == before + Glyphs(input, ids[..k] + [ids[k]])
      requires LocaFilled(input, ids[..k] + [ids[k]], loca[..], ids[k] + 1)
      ensures CopiedUpTo(ids, k + 1, ids[k] + 1, loca, before)
    {
      TakeOneMore(ids, k);
    }

    /** One step of `WriteGlyf`'s loop: glyph ids[k] copied and its loca values set. */
    method WriteGlyph(glyphIndex: nat, loca: array<nat>, previousGlyphIndexEnd: nat, start: nat,
                      ghost before: seq<byte>, ghost done: seq<nat>)
      requires input.WellFormed() && glyphIndex < input.numGlyphs && previousGlyphIndexEnd <= glyphIndex
      requires AllValid(input, done) && forall i :: 0 <= i < |done| ==> done[i] < previousGlyphIndexEnd
      requires position == |font| && font == before + Glyphs(input, done)
      requires glyphIndex + 1 < loca.Length && start == |before|
      requires LocaFilled(input, done, loca[..], previousGlyphIndexEnd)
      modifies this, loca
      ensures position == |font| && Unmoved() && AllValid(input, done + [glyphIndex])
      ensures font == before + Glyphs(input, done + [glyphIndex])
      ensures LocaFilled(input, done + [glyphIndex], loca[..], glyphIndex + 1)
    {
      LocaStep(input, done, glyphIndex, previousGlyphIndexEnd);
      if input.glyf[glyphIndex].Some? {
        Write(GlyphBytes(input, glyphIndex));
      }
      AppendAssoc(before, Glyphs(input, done), GlyphBytes(input, glyphIndex));
      UpdateLoca(loca, input, done, glyphIndex, previousGlyphIndexEnd, position - start);
    }

    /**
     * The loca values `WriteGlyph` sets: the glyphs skipped since the last
     * one copied keep its end, and glyph `g` ends at `value`.
     */
    static method UpdateLoca(loca: array<nat>, ghost f: TrueTypeInput, ghost done: seq<nat>, g: nat, previousEnd: nat, value: nat)
      requires f.WellFormed() && AllValid(f, done) && g < f.numGlyphs && previousEnd <= g && g + 1 < loca.Length
      requires forall i :: 0 <= i < |done| ==> done[i] < previousEnd
      requires LocaFilled(f, done, loca[..], previousEnd)
      requires value == |Glyphs(f, done) + GlyphBytes(f, g)|
      modifies loca
      ensures LocaFilled(f, done + [g], loca[..], g + 1)
    {
      ghost var previous := loca[..];
      FillSkipped(loca, previousEnd, g);
      loca[g + 1] := value;
      assert Refilled(previous, loca[..], previousEnd, g, value);
      LocaRefilled(f, done, g, previousEnd, previous, loca[..], value);
    }

    /** `WriteLoca`: the new loca values as ULONGs. */
    method WriteLoca(loca: array<nat>) returns (status: Status)
      requires Valid() && Loca in entryOffsets && loca.Length == subsetGlyphsCount + 1
      modifies this
      ensures Valid() && status == Success && Unmoved()
      ensures font == TableWritten(old(font), entryOffsets[Loca], LocaContent(loca[..]))
      ensures old(HeadWordClear()) ==> HeadWordClear()
    {
      ghost var before := font;
      var start := position;
      var i := 0;
      while i < subsetGlyphsCount + 1
        invariant 0 <= i <= loca.Length && position == |font| && Unmoved()
        invariant font == before + LocaContent(loca[..i])
      {
        Write(Be32(loca[i]));
        assert loca[..i + 1][..i] == loca[..i];
        i := i + 1;
      }
      assert loca[..i] == loca[..];
      EndTable(Loca, start, before, LocaContent(loca[..]));
      status := Success;
    }

    /** `CreateHeadTableCheckSumAdjustment`: 0xB1B0AFBA minus the file's checksum, written into head. */
    method CreateHeadTableCheckSumAdjustment() returns (status: Status)
      requires Valid() && HeadWordClear()
      modifies this
      ensures Valid() && status == Success && Unmoved() && |font| == |old(font)|
      ensures CheckSum(font, 0, |font|) % TwoTo32 == ChecksumMagic
    {
      var endStream := position;
      var sum := GetCheckSum(0, endStream);
      var checkSum := (ChecksumMagic - sum) % TwoTo32;
      ghost var before := font;
      SetPosition(headCheckSumOffset);
      Overwrite(Be32(checkSum));
      SetPosition(endStream);
      AdjustmentMakesMagic(before, headCheckSumOffset);
      status := Success;
    }

    // ----- the subset -----

    /**
     * `AddComponentGlyphs`: the components of glyph `id`, followed through
     * nested composites, added to `components`; whether `id` is composite.
     */
    method AddComponentGlyphs(id: nat, components: set<nat>, fuel: nat) returns (isComposite: bool, result: set<nat>)
      requires input.WellFormed()
      ensures isComposite <==> fuel > 0 && IsComposite(input, id)
      ensures result == components + Reach(input, id, fuel)
      decreases fuel
    {
      result := components;
      isComposite := false;
      if fuel == 0 || id >= input.numGlyphs {
        return;
      }
      var entry := input.glyf[id];
      if entry.Some? && |entry.value.componentGlyphs| > 0 {
        isComposite := true;
        var cs := entry.value.componentGlyphs;
        var k := 0;
        while k < |cs|
          invariant 0 <= k <= |cs|
          invariant result == components + ReachAll(input, cs[..k], fuel - 1)
        {
          result := result + {cs[k]};
          var _, next := AddComponentGlyphs(cs[k], result, fuel - 1);
          result := next;
          assert cs[..k + 1][..k] == cs[..k];
          k := k + 1;
        }
        assert cs[..k] == cs;
      }
    }

    /**
     * `AddDependentGlyphs`: when a glyph of the list is composite, the list
     * becomes the sorted, duplicate-free union of itself and every component
     * reached; otherwise it is left as it is.
     */
    method AddDependentGlyphs(ids: seq<nat>) returns (r: seq<nat>)
      requires input.WellFormed()
      ensures (exists i :: 0 <= i < |ids| && IsComposite(input, ids[i])) ==>
        Increasing(r) && forall x :: x in r <==> x in ids || x in Dependents(input, ids, Fuel(input))
      ensures (forall i :: 0 <= i < |ids| ==> !IsComposite(input, ids[i])) ==> r == ids
    {
      var glyphsSet: set<nat> := {};
      var hasCompositeGlyphs := false;
      var k := 0;
      while k < |ids|
        invariant 0 <= k <= |ids|
        invariant glyphsSet == Dependents(input, ids[..k], Fuel(input))
        invariant hasCompositeGlyphs <==> exists i :: 0 <= i < k && IsComposite(input, ids[i])
      {
        var isComposite, next := AddComponentGlyphs(ids[k], glyphsSet, Fuel(input));
        hasCompositeGlyphs := hasCompositeGlyphs || isComposite;
        glyphsSet := next;
        assert ids[..k + 1][..k] == ids[..k];
        k := k + 1;
      }
      assert ids[..k] == ids;
      if hasCompositeGlyphs {
        var deps := glyphsSet;
        k := 0;
        while k < |ids|
          invariant 0 <= k <= |ids|
          invariant forall x :: x in glyphsSet <==> x in deps || x in ids[..k]
        {
          glyphsSet := glyphsSet + {ids[k]};
          assert ids[..k + 1] == ids[..k] + [ids[k]];
          k := k + 1;
        }
        r := OrderedElements(glyphsSet);
        // The final sort leaves an increasing list as it is.
      } else {
        r := ids;
      }
    }

    /**
     * `CreateTrueTypeSubset` from the point the source font is read: the
     * embedding check, the closure over components, the glyph count, and the
     * tables in file order; the finished program sums to 0xB1B0AFBA.
     * `embeddingAllowed` is the verdict of the OS/2 fsType flags.
     */
    method CreateTrueTypeSubset(ids: seq<nat>, embeddingAllowed: bool) returns (status: Status, notEmbedded: bool)
      requires Valid() && font == [] && entryOffsets == map[]
      requires |ids| > 0 && Increasing(ids) && AllValid(input, ids)
      modifies this
      ensures status == Success
      ensures notEmbedded <==> input.HasOs2() && !embeddingAllowed
      ensures notEmbedded ==> font == []
      ensures !notEmbedded ==> Valid() && CheckSum(font, 0, |font|) % TwoTo32 == ChecksumMagic
    {
      if input.HasOs2() && !embeddingAllowed {
        return Success, true;
      }
      notEmbedded := false;
      var subsetGlyphIDs := AddDependentGlyphs(ids);
      SubsetStaysValid(ids, subsetGlyphIDs);
      subsetGlyphsCount := subsetGlyphIDs[|subsetGlyphIDs| - 1] + 1;
      status := WriteTrueTypeHeader();
      status := WriteMetricTables();
      status := WriteCopiedTables();
      var locaTable := new nat[subsetGlyphsCount + 1];
      var written;
      status, written := WriteGlyf(subsetGlyphIDs, locaTable);
      if status != Success {
        return;
      }
      status := WriteLoca(locaTable);
      status := CreateHeadTableCheckSumAdjustment();
    }

    /** head, hhea, hmtx and maxp, right after the directory. */
    method WriteMetricTables() returns (status: Status)
      requires Valid() && directoryEnd == |font| && subsetGlyphsCount <= input.numGlyphs
      requires forall t :: t in entryOffsets <==> t in DirectoryTags(input)
      modifies this
      ensures Valid() && status == Success && HeadWordClear()
      ensures entryOffsets == old(entryOffsets) && subsetGlyphsCount == old(subsetGlyphsCount)
      ensures directoryEnd == old(directoryEnd)
    {
      assert Head in entryOffsets && Hhea in entryOffsets && Hmtx in entryOffsets && Maxp in entryOffsets;
      status := WriteHead();
      status := WriteHHea();
      status := WriteHMtx();
      status := WriteMaxp();
    }

    /** The tables copied unchanged, each one when the font has it: cvt, fpgm, prep, name, OS/2, cmap. */
    method WriteCopiedTables() returns (status: Status)
      requires Valid() && HeadWordClear()
      requires forall t :: t in entryOffsets <==> t in DirectoryTags(input)
      modifies this
      ensures Valid() && status == Success && HeadWordClear() && Unmoved()
    {
      status := Success;
      if input.HasCvt() {
        assert Cvt in DirectoryTags(input);
        status := CreateTableCopy(Cvt);
      }
      if input.HasFpgm() {
        assert Fpgm in DirectoryTags(input);
        status := CreateTableCopy(Fpgm);
      }
      if input.HasPrep() {
        assert Prep in DirectoryTags(input);
        status := CreateTableCopy(Prep);
      }
      assert Name in DirectoryTags(input);
      status := CreateTableCopy(Name);
      if input.HasOs2() {
        assert Os2 in DirectoryTags(input);
        status := CreateTableCopy(Os2);
      }
      assert Cmap in DirectoryTags(input);
      status := CreateTableCopy(Cmap);
    }

    /** The subset after the closure is still an increasing list of the font's glyphs. */
    lemma SubsetStaysValid(ids: seq<nat>, r: seq<nat>)
      requires input.WellFormed() && |ids| > 0 && Increasing(ids) && AllValid(input, ids)
      requires (exists i :: 0 <= i < |ids| && IsComposite(input, ids[i])) ==>
        Increasing(r) && forall x :: x in r <==> x in ids || x in Dependents(input, ids, Fuel(input))
      requires (forall i :: 0 <= i < |ids| ==> !IsComposite(input, ids[i])) ==> r == ids
      ensures |r| > 0 && Increasing(r) && AllValid(input, r)
    {
      if exists i :: 0 <= i < |ids| && IsComposite(input, ids[i]) {
        assert ids[0] in r;
        forall i | 0 <= i < |r| ensures r[i] < input.numGlyphs {
          assert r[i] in r;
          if r[i] in Dependents(input, ids, Fuel(input)) {
            DependentsInRange(input, ids, Fuel(input), r[i]);
          } else {
            var j :| 0 <= j < |ids| && ids[j] == r[i];
          }
        }
      }
    }
  }

  /** Three writes side by side are one patch. */
  lemma PatchThrice(s: seq<byte>, p: nat, a: seq<byte>, b: seq<byte>, c: seq<byte>)
    requires p + |a| + |b| + |c| <= |s|
    ensures Patch(Patch(Patch(s, p, a), p + |a|, b), p + |a| + |b|, c) == Patch(s, p, a + b + c)
  {
    var q := p + |a| + |b|;
    var r1 := Patch(s, p, a);
    var r2 := Patch(r1, p + |a|, b);
    assert r1[..p + |a|] == s[..p] + a;
    assert r1[q..] == s[q..];
    assert r2 == s[..p] + a + b + s[q..];
    assert r2[..q] == s[..p] + a + b;
    assert r2[q + |c|..] == s[q + |c|..];
    assert s[..p] + a + b + c == s[..p] + (a + b + c);
  }

  /** Patching a table before it is padded. */
  lemma PatchInTable(before: seq<byte>, table: seq<byte>, pad: seq<byte>, k: nat, b: seq<byte>)
    requires k + |b| <= |table|
    ensures Patch(before + table + pad, |before| + k, b) == before + Patch(table, k, b) + pad
  {
  }

  /** Testing a bit of n below 2p: a clear bit means n < p. */
  lemma BitClearBelow(n: nat, p: nat)
    requires p > 0 && n < 2 * p && (n / p) % 2 == 0
    ensures n < p
  {
    var q := n / p;
    assert n == q * p + n % p && n % p >= 0;
    assert q * p == 2 * p + (q - 2) * p;
    assert q >= 2 ==> (q - 2) * p >= 0;
    assert q == 0;
  }

  /** A set bit means n >= p. */
  lemma BitSetAbove(n: nat, p: nat)
    requires p > 0 && (n / p) % 2 == 1
    ensures n >= p
  {
    var q := n / p;
    assert n == q * p + n % p;
    assert q >= 1;
    assert q * p >= p;
  }
}
