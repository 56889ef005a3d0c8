/**
 * The tables the CFF writer lays out after the String INDEX, as functions
 * of the source font and the subset's glyph list: the encoding, the
 * charset (sections 12 and 13 of TN #5176), the CharStrings INDEX, the
 * private DICTs, and for a CID font the FDSelect and the FDArray
 * (section 19). Each format comes with a reader, or with the lookup a
 * reader performs, and a lemma that the reader finds what was written.
 */
module CFFTables {
  import opened Common
  import opened CFF
  import XrefFormat

  /** A Card16 reads back as itself. */
  lemma Card16RoundTrip(v: card16)
    ensures |Card16(v)| == 2 && XrefFormat.BigEndianValue(Card16(v)) == v
  {
    Pow256Values();
    OffsetIsBigEndian(v, 2);
    XrefFormat.BigEndianRoundTrip(v, 2);
  }

  // ----- the encoding (section 12 of TN #5176) -----

  /** A supplementary code and the SID of the glyph it encodes. */
  datatype Supplement = Supplement(code: byte, sid: card16)

  /** Every extra code the source encoding gives the glyph's SID. */
  function GlyphSupplements(f: CFFInput, g: nat): (r: seq<Supplement>)
    ensures forall k :: 0 <= k < |r| ==> r[k].sid == SIDOf(f, g)
  {
    var sid := SIDOf(f, g);
    if sid in f.encoding.supplements then
      var codes := f.encoding.supplements[sid];
      seq(|codes|, k requires 0 <= k < |codes| => Supplement(codes[k], sid))
    else []
  }

  /** The supplements of the subset's glyphs, glyph by glyph. */
  function Supplements(f: CFFInput, ids: seq<nat>): seq<Supplement>
  {
    if ids == [] then [] else Supplements(f, ids[..|ids| - 1]) + GlyphSupplements(f, ids[|ids| - 1])
  }

  /** `encodingGlyphsCount`: the glyphs after the first, as a byte, but no more than the source encoding codes. */
  function EncodedCount(f: CFFInput, ids: seq<nat>): (r: byte)
    requires |ids| > 0
    ensures r <= f.encoding.count && r < |ids|
  {
    Min((|ids| - 1) % 256, f.encoding.count)
  }

  /** Glyph 0 comes first and is the only glyph 0 of the list. */
  predicate TailPositive(ids: seq<nat>)
  {
    forall k :: 1 <= k < |ids| ==> ids[k] > 0
  }

  /** The code of a later glyph: the source's code when it has one, else 0. */
  function GlyphCode(f: CFFInput, g: nat): byte
    requires g > 0 && |f.encoding.codes| >= f.encoding.count
  {
    if g < f.encoding.count then f.encoding.codes[g - 1] else 0
  }

  /** The codes of the first `n` glyphs after glyph 0. */
  function Codes(f: CFFInput, ids: seq<nat>, n: nat): (r: seq<byte>)
    requires n < |ids| && TailPositive(ids) && |f.encoding.codes| >= f.encoding.count
    ensures |r| == n && forall i :: 0 <= i < n ==> r[i] == GlyphCode(f, ids[i + 1])
  {
    seq(n, i requires 0 <= i < n => GlyphCode(f, ids[i + 1]))
  }

  /** Each supplement: its code, then its SID. */
  function SupplementBytes(s: seq<Supplement>): (r: seq<byte>)
    ensures |r| == 3 * |s|
  {
    if s == [] then [] else [s[0].code] + Card16(s[0].sid) + SupplementBytes(s[1..])
  }

  /**
   * `WriteEncodings` for a custom encoding: the codes of the glyphs after
   * glyph 0 and the supplements of all of them, in format 0.
   */
  function EncodingBytes(f: CFFInput, ids: seq<nat>): seq<byte>
    requires |ids| > 0 && TailPositive(ids) && |f.encoding.codes| >= f.encoding.count
  {
    EncodingFormat0(Codes(f, ids, EncodedCount(f, ids)), Supplements(f, ids))
  }

  /**
   * Format 0: the format byte with the supplement bit (0x80) when there are
   * supplements, the count and the codes, then the supplements with their
   * count as a byte.
   */
  function EncodingFormat0(codes: seq<byte>, sups: seq<Supplement>): seq<byte>
  {
    [if sups == [] then 0 else 0x80] + [|codes| % 256] + codes
    + (if sups == [] then [] else [|sups| % 256] + SupplementBytes(sups))
  }

  /** What a reader of an encoding in format 0 finds: the codes and the supplements. */
  datatype EncodingTable = EncodingTable(codes: seq<byte>, supplements: seq<Supplement>)

  function ParseEncoding(s: seq<byte>): Option<EncodingTable>
  {
    if |s| < 2 || s[0] % 0x80 != 0 then None
    else
      var n := s[1] as nat;
      if |s| < 2 + n then None
      else if s[0] == 0 then Some(EncodingTable(s[2..2 + n], []))
      else if |s| < 3 + n then None
      else
        var sups := ParseSupplements(s[3 + n..], s[2 + n] as nat);
        if sups.None? then None else Some(EncodingTable(s[2..2 + n], sups.value))
  }

  /** `m` supplements of three bytes each. */
  function ParseSupplements(s: seq<byte>, m: nat): Option<seq<Supplement>>
  {
    if m == 0 then Some([])
    else if |s| < 3 then None
    else
      var sid := XrefFormat.BigEndianValue(s[1..3]);
      var rest := ParseSupplements(s[3..], m - 1);
      if rest.None? || sid >= 0x1_0000 then None else Some([Supplement(s[0], sid)] + rest.value)
  }

  lemma {:induction false} SupplementsRoundTrip(s: seq<Supplement>)
    ensures ParseSupplements(SupplementBytes(s), |s|) == Some(s)
  {
    if s != [] {
      var b := SupplementBytes(s);
      SupplementsRoundTrip(s[1..]);
      Card16RoundTrip(s[0].sid);
      assert b[1..3] == Card16(s[0].sid);
      assert b[3..] == SupplementBytes(s[1..]);
      assert [s[0]] + s[1..] == s;
    }
  }

  /** One more supplement adds its three bytes at the end. */
  lemma {:induction false} SupplementBytesSnoc(s: seq<Supplement>, x: Supplement)
    ensures SupplementBytes(s + [x]) == SupplementBytes(s) + [x.code] + Card16(x.sid)
    decreases |s|
  {
    if s == [] {
      assert [] + [x] == [x] && [x][1..] == [];
    } else {
      assert (s + [x])[0] == s[0] && (s + [x])[1..] == s[1..] + [x];
      SupplementBytesSnoc(s[1..], x);
    }
  }

  /** Where `WriteEncodings` says the encoding is: 0 for a CID font, the predefined encoding's number, or where it wrote the table. */
  function EncodingPosition(f: CFFInput, cid: bool, at: nat): nat
  {
    if cid then 0 else if f.encoding.start <= 1 then f.encoding.start else at
  }

  /** The writes of `WriteEncodings`, field by field, make up format 0. */
  lemma EncodingWritten(written: seq<byte>, before: seq<byte>, codes: seq<byte>, sups: seq<Supplement>)
    requires sups == [] ==> written == before + [0] + [|codes| % 256] + codes
    requires sups != [] ==> written == before + [0x80] + [|codes| % 256] + codes + [|sups| % 256] + SupplementBytes(sups)
    ensures written == before + EncodingFormat0(codes, sups)
  {
    var h := [if sups == [] then 0 else 0x80] + [|codes| % 256];
    var t := if sups == [] then [] else [|sups| % 256] + SupplementBytes(sups);
    AppendAssoc(before, [if sups == [] then 0 else 0x80], [|codes| % 256]);
    AppendAssoc(before, h, codes);
    if sups != [] {
      AppendAssoc(before + (h + codes), [|sups| % 256], SupplementBytes(sups));
    } else {
      AppendEmpty(before + (h + codes));
    }
    AppendAssoc(before, h + codes, t);
  }

  /** A reader finds the codes and supplements of format 0, as long as their counts fit their bytes. */
  lemma Format0RoundTrip(codes: seq<byte>, sups: seq<Supplement>)
    requires |codes| < 256 && |sups| < 256
    ensures ParseEncoding(EncodingFormat0(codes, sups)) == Some(EncodingTable(codes, sups))
  {
    var n := |codes|;
    var b := EncodingFormat0(codes, sups);
    if sups == [] {
      assert b == [0, n] + codes;
      assert b[2..2 + n] == codes;
    } else {
      var tail := SupplementBytes(sups);
      assert b == [0x80, n] + codes + ([|sups|] + tail);
      assert b[2..2 + n] == codes;
      assert b[3 + n..] == tail && b[2 + n] == |sups|;
      SupplementsRoundTrip(sups);
      assert ParseSupplements(b[3 + n..], b[2 + n] as nat) == Some(sups);
    }
  }

  /**
   * A reader of the written encoding finds the codes of the glyphs after
   * glyph 0 and every supplement, as long as the supplements' count fits
   * its byte.
   */
  lemma EncodingRoundTrip(f: CFFInput, ids: seq<nat>)
    requires |ids| > 0 && TailPositive(ids) && |f.encoding.codes| >= f.encoding.count
    requires |Supplements(f, ids)| < 256
    ensures ParseEncoding(EncodingBytes(f, ids))
      == Some(EncodingTable(Codes(f, ids, EncodedCount(f, ids)), Supplements(f, ids)))
  {
    Format0RoundTrip(Codes(f, ids, EncodedCount(f, ids)), Supplements(f, ids));
  }

  // ----- the charset (section 13 of TN #5176) -----

  /**
   * The SIDs (CIDs for a CID font) of the glyphs after glyph 0: the
   * caller's CID mapping for a CID font when there is one, else the
   * source's SIDs.
   */
  function CharsetSIDs(f: CFFInput, ids: seq<nat>, mapping: Option<seq<card16>>, cid: bool): (r: seq<card16>)
    requires |ids| > 0 && (cid && mapping.Some? ==> |mapping.value| >= |ids|)
    ensures |r| == |ids| - 1
  {
    if cid && mapping.Some? then mapping.value[1..|ids|]
    else seq(|ids| - 1, k requires 0 <= k < |ids| - 1 => SIDOf(f, ids[k + 1]))
  }

  function SIDsBytes(sids: seq<card16>): (r: seq<byte>)
    ensures |r| == 2 * |sids|
  {
    if sids == [] then [] else Card16(sids[0]) + SIDsBytes(sids[1..])
  }

  lemma {:induction false} SIDsBytesSnoc(sids: seq<card16>, x: card16)
    ensures SIDsBytes(sids + [x]) == SIDsBytes(sids) + Card16(x)
    decreases |sids|
  {
    if sids == [] {
      assert [] + [x] == [x] && [x][1..] == [];
    } else {
      assert (sids + [x])[0] == sids[0] && (sids + [x])[1..] == sids[1..] + [x];
      SIDsBytesSnoc(sids[1..], x);
    }
  }

  /** `WriteCharsets`: format 0, then one SID per glyph after glyph 0. */
  function CharsetBytes(sids: seq<card16>): seq<byte>
  {
    [0] + SIDsBytes(sids)
  }

  /** A reader of a format-0 charset of a font with `glyphs` glyphs. */
  function ParseCharset(s: seq<byte>, glyphs: nat): Option<seq<int>>
  {
    if |s| == 0 || s[0] != 0 || glyphs == 0 then None else ParseSIDs(s[1..], glyphs - 1)
  }

  function ParseSIDs(s: seq<byte>, m: nat): Option<seq<int>>
  {
    if m == 0 then Some([])
    else if |s| < 2 then None
    else
      var rest := ParseSIDs(s[2..], m - 1);
      if rest.None? then None else Some([XrefFormat.BigEndianValue(s[..2]) as int] + rest.value)
  }

  lemma {:induction false} SIDsRoundTrip(sids: seq<card16>)
    ensures ParseSIDs(SIDsBytes(sids), |sids|) == Some(sids)
  {
    if sids != [] {
      var b := SIDsBytes(sids);
      SIDsRoundTrip(sids[1..]);
      Card16RoundTrip(sids[0]);
      assert b[..2] == Card16(sids[0]);
      assert b[2..] == SIDsBytes(sids[1..]);
      assert [sids[0]] + sids[1..] == sids;
    }
  }

  /** A reader of the charset of the subset finds the SID of every glyph after glyph 0. */
  lemma CharsetRoundTrip(sids: seq<card16>)
    ensures ParseCharset(CharsetBytes(sids), |sids| + 1) == Some(sids)
  {
    SIDsRoundTrip(sids);
    assert CharsetBytes(sids)[1..] == SIDsBytes(sids);
  }

  // ----- the CharStrings INDEX -----

  /** `CharStringType2Flattener` succeeds on every glyph of the list. */
  predicate AllFlatten(f: CFFInput, ids: seq<nat>)
  {
    forall k :: 0 <= k < |ids| ==> CharStringOf(f, ids[k]).Some?
  }

  /** The flattened programs of the glyphs, in list order; the items of the CharStrings INDEX. */
  function Programs(f: CFFInput, ids: seq<nat>): (r: seq<seq<byte>>)
    requires AllFlatten(f, ids)
    ensures |r| == |ids| && forall k :: 0 <= k < |ids| ==> r[k] == CharStringOf(f, ids[k]).value
  {
    seq(|ids|, k requires 0 <= k < |ids| => CharStringOf(f, ids[k]).value)
  }

  /** The programs of a prefix of the glyphs are a prefix of the programs. */
  lemma ProgramsPrefix(f: CFFInput, ids: seq<nat>, j: nat)
    requires AllFlatten(f, ids) && j <= |ids|
    ensures AllFlatten(f, ids[..j]) && Programs(f, ids[..j]) == Programs(f, ids)[..j]
  {
    assert forall k :: 0 <= k < j ==> ids[..j][k] == ids[k];
  }

  /** One more glyph that flattens: its program follows those before it. */
  lemma ProgramsStep(f: CFFInput, ids: seq<nat>, i: nat)
    requires i < |ids| && AllFlatten(f, ids[..i]) && CharStringOf(f, ids[i]).Some?
    ensures AllFlatten(f, ids[..i + 1])
    ensures Programs(f, ids[..i + 1]) == Programs(f, ids[..i]) + [CharStringOf(f, ids[i]).value]
  {
    assert forall k :: 0 <= k < i ==> ids[..i + 1][k] == ids[..i][k];
  }

  /**
   * An INDEX as `WriteCharStrings` and `WriteFDArray` write it: the count,
   * the offset size, the offsets and the data, the offset size and the
   * offsets written even for no item.
   */
  function FullIndex(items: seq<seq<byte>>): (r: seq<byte>)
    ensures items != [] ==> r == IndexBytes(items)
  {
    var size := OffsetSize(|Concat(items)| + 1);
    Card16(|items|) + [size] + OffsetArray(Offsets(items), size) + Concat(items)
  }

  /** The parts `WriteCharStrings` and `WriteFDArray` write after `before` make up their INDEX. */
  lemma FullIndexWritten(written: seq<byte>, before: seq<byte>, items: seq<seq<byte>>, size: byte)
    requires size == OffsetSize(|Concat(items)| + 1)
    requires written == before + Card16(|items|) + [size] + OffsetArray(Offsets(items), size) + Concat(items)
    ensures written == before + FullIndex(items)
  {
    var a, o, d := Card16(|items|), OffsetArray(Offsets(items), size), Concat(items);
    AppendAssoc(before, a, [size]);
    AppendAssoc(before, a + [size], o);
    AppendAssoc(before, a + [size] + o, d);
  }

  // ----- private DICTs -----

  /** `WritePrivateDictionaryBody`: the entries but Subrs, since the flattened charstrings call none; nothing when there is no private DICT. */
  function PrivateBody(p: PrivateDict): (r: seq<byte>)
    ensures p.start == 0 ==> r == []
  {
    if p.start != 0 then DictBytes(Without(p.items, SubrsKey)) else []
  }

  // ----- FD ranks (section 19 of TN #5176) -----

  /** The font DICTs the subset's glyphs use. */
  function UsedFDs(f: CFFInput, ids: seq<nat>): set<nat>
  {
    set i | 0 <= i < |ids| && FDOf(f, ids[i]).Some? :: FDOf(f, ids[i]).value
  }

  /** One more glyph adds its font DICT, if it has one. */
  lemma UsedFDsSnoc(f: CFFInput, ids: seq<nat>, k: nat)
    requires k < |ids|
    ensures UsedFDs(f, ids[..k + 1]) == UsedFDs(f, ids[..k]) + (if FDOf(f, ids[k]).Some? then {FDOf(f, ids[k]).value} else {})
  {
    var a, b := ids[..k + 1], ids[..k];
    forall x | x in UsedFDs(f, a)
      ensures x in UsedFDs(f, b) + (if FDOf(f, ids[k]).Some? then {FDOf(f, ids[k]).value} else {})
    {
      var i :| 0 <= i < |a| && FDOf(f, a[i]).Some? && FDOf(f, a[i]).value == x;
      if i < k {
        assert a[i] == b[i];
      }
    }
    forall x | x in UsedFDs(f, b)
      ensures x in UsedFDs(f, a)
    {
      var i :| 0 <= i < |b| && FDOf(f, b[i]).Some? && FDOf(f, b[i]).value == x;
      assert a[i] == b[i];
    }
    if FDOf(f, ids[k]).Some? {
      assert a[k] == ids[k];
    }
  }

  /**
   * `DetermineFDArrayIndexes`' map: the used font DICTs, in increasing
   * order in `order`, each ranked by its place there as a `uint8_t`.
   */
  predicate Ranked(order: seq<nat>, ranks: map<nat, byte>)
  {
    && Increasing(order)
    && ranks.Keys == (set k | 0 <= k < |order| :: order[k])
    && forall k :: 0 <= k < |order| ==> order[k] in ranks && ranks[order[k]] == k % 256
  }

  /** The ranks of an increasing list of font DICTs. */
  function RankMap(order: seq<nat>): (r: map<nat, byte>)
    requires Increasing(order)
    ensures Ranked(order, r)
  {
    map k | 0 <= k < |order| :: order[k] := k % 256
  }

  /** The ranks of an order are determined by it. */
  lemma RanksUnique(order: seq<nat>, a: map<nat, byte>, b: map<nat, byte>)
    requires Ranked(order, a) && Ranked(order, b)
    ensures a == b
  {
    forall x | x in a
      ensures a[x] == b[x]
    {
      var k :| 0 <= k < |order| && order[k] == x;
    }
  }

  /** With at most 256 font DICTs, the rank of a font DICT is its place in the FDArray, and distinct DICTs get distinct ranks. */
  lemma RankIsPlace(order: seq<nat>, ranks: map<nat, byte>, x: nat)
    requires Ranked(order, ranks) && |order| <= 256 && x in ranks
    ensures ranks[x] < |order| && order[ranks[x]] == x
  {
    var k :| 0 <= k < |order| && order[k] == x;
  }

  lemma RanksDistinct(order: seq<nat>, ranks: map<nat, byte>, x: nat, y: nat)
    requires Ranked(order, ranks) && |order| <= 256 && x in ranks && y in ranks && x != y
    ensures ranks[x] != ranks[y]
  {
    RankIsPlace(order, ranks, x);
    RankIsPlace(order, ranks, y);
  }

  // ----- FDSelect in format 3 (section 19 of TN #5176) -----

  /** The FD index `WriteFDSelect` gives a glyph: the rank of its font DICT, or 0 when it has none. */
  function FDIndex(f: CFFInput, ranks: map<nat, byte>, g: nat): byte
  {
    if FDOf(f, g).Some? && FDOf(f, g).value in ranks then ranks[FDOf(f, g).value] else 0
  }

  function GlyphFDs(f: CFFInput, ranks: map<nat, byte>, ids: seq<nat>): (r: seq<byte>)
    ensures |r| == |ids|
  {
    seq(|ids|, k requires 0 <= k < |ids| => FDIndex(f, ranks, ids[k]))
  }

  /** A range of format 3: the first glyph it covers and their FD index. */
  datatype Range3 = Range3(first: nat, fd: byte)

  /** The ranges of `WriteFDSelect`: one from glyph 0, and a new one wherever the FD index changes. */
  function Ranges(fds: seq<byte>): (r: seq<Range3>)
    requires |fds| > 0
    ensures 0 < |r| <= |fds| && r[0] == Range3(0, fds[0])
    ensures r[|r| - 1].fd == fds[|fds| - 1] && r[|r| - 1].first < |fds|
  {
    RangesTo(fds, |fds|)
  }

  /** The ranges of the first `n` glyphs, as `WriteFDSelect`'s loop has them after glyph `n - 1`. */
  function RangesTo(fds: seq<byte>, n: nat): (r: seq<Range3>)
    requires 0 < n <= |fds|
    ensures 0 < |r| <= n && r[0] == Range3(0, fds[0])
    ensures r[|r| - 1].fd == fds[n - 1] && r[|r| - 1].first < n
  {
    if n == 1 then [Range3(0, fds[0])]
    else
      var r := RangesTo(fds, n - 1);
      if fds[n - 1] != fds[n - 2] then r + [Range3(n - 1, fds[n - 1])] else r
  }

  /** The ranges of a prefix do not depend on the glyphs after it. */
  lemma {:induction false} RangesToPrefix(fds: seq<byte>, m: nat, n: nat)
    requires 0 < n <= m <= |fds|
    ensures RangesTo(fds[..m], n) == RangesTo(fds, n)
  {
    if n > 1 {
      RangesToPrefix(fds, m, n - 1);
    }
  }

  /** The last glyph opens a new range exactly when its FD index differs from the one before. */
  lemma RangesUnfold(fds: seq<byte>)
    requires |fds| > 1
    ensures var init := fds[..|fds| - 1];
      Ranges(fds) == if fds[|fds| - 1] != fds[|fds| - 2] then Ranges(init) + [Range3(|fds| - 1, fds[|fds| - 1])] else Ranges(init)
  {
    RangesToPrefix(fds, |fds| - 1, |fds| - 1);
  }

  /** One more glyph: a new range exactly when its FD index differs from the previous glyph's. */
  lemma RangesStep(fds: seq<byte>, g: nat)
    requires 0 < g < |fds|
    ensures Ranges(fds[..g + 1]) ==
      if fds[g] != fds[g - 1] then Ranges(fds[..g]) + [Range3(g, fds[g])] else Ranges(fds[..g])
  {
    assert fds[..g + 1][..g] == fds[..g];
    RangesUnfold(fds[..g + 1]);
  }

  /** The ranges as `WriteFDSelect` writes them: each one's first glyph, then its FD index. */
  function RangeBytes(r: seq<Range3>): seq<byte>
  {
    if r == [] then [] else RangeBytes(r[..|r| - 1]) + Card16(r[|r| - 1].first) + [r[|r| - 1].fd]
  }

  /** The bytes of one more range follow those of the ranges before it. */
  lemma RangeBytesSnoc(r: seq<Range3>, x: Range3)
    ensures RangeBytes(r + [x]) == RangeBytes(r) + (Card16(x.first) + [x.fd])
  {
    AppendAssoc(RangeBytes(r), Card16(x.first), [x.fd]);
    assert (r + [x])[..|r|] == r;
  }

  /** `WriteFDSelect`: format 3, the range count, the ranges and the sentinel, the glyph count. */
  function FDSelectBytes(fds: seq<byte>): seq<byte>
    requires |fds| > 0
  {
    var r := Ranges(fds);
    [3] + Card16(|r|) + RangeBytes(r) + Card16(|fds|)
  }

  /** `WriteFDSelect`'s writes, the range count patched in afterwards, make up format 3. */
  lemma FDSelectWritten(written: seq<byte>, before: seq<byte>, fds: seq<byte>)
    requires |fds| > 0 && |Ranges(fds)| < 0x1_0000
    requires var unpatched := before + [3] + Card16(1) + RangeBytes(Ranges(fds)) + Card16(|fds|);
      written == if |Ranges(fds)| != 1 then Patch(unpatched, |before| + 1, Card16(|Ranges(fds)|)) else unpatched
    ensures written == before + FDSelectBytes(fds)
  {
    var c := Card16(|Ranges(fds)|);
    var rest := RangeBytes(Ranges(fds)) + Card16(|fds|);
    var unpatched := before + [3] + Card16(1) + RangeBytes(Ranges(fds)) + Card16(|fds|);
    AppendAssoc(before + [3] + Card16(1), RangeBytes(Ranges(fds)), Card16(|fds|));
    AppendAssoc(before + [3], Card16(1), rest);
    assert unpatched == (before + [3]) + (Card16(1) + rest);
    if |Ranges(fds)| != 1 {
      PatchAfter(before + [3], Card16(1) + rest, 0, c);
      assert Patch(Card16(1) + rest, 0, c) == c + rest;
    }
    assert written == (before + [3]) + (c + rest);
    AppendAssoc(before + [3], c, rest);
    AppendAssoc(before + [3] + c, RangeBytes(Ranges(fds)), Card16(|fds|));
    AppendAssoc(before, [3], c);
    AppendAssoc(before, [3] + c, RangeBytes(Ranges(fds)));
    AppendAssoc(before, [3] + c + RangeBytes(Ranges(fds)), Card16(|fds|));
  }

  /** The lookup a reader of format 3 performs: the FD of the last range starting at or before `g`. */
  function SelectFD(r: seq<Range3>, g: nat): byte
  {
    if r == [] then 0
    else if r[|r| - 1].first <= g then r[|r| - 1].fd
    else SelectFD(r[..|r| - 1], g)
  }

  /** The ranges start at increasing glyphs. */
  predicate RangesIncrease(r: seq<Range3>)
  {
    forall i, j :: 0 <= i < j < |r| ==> r[i].first < r[j].first
  }

  /** Every glyph of the subset looks up its own FD index. */
  lemma {:induction false} RangesSelect(fds: seq<byte>, g: nat)
    requires 0 <= g < |fds|
    ensures SelectFD(Ranges(fds), g) == fds[g]
    ensures RangesIncrease(Ranges(fds))
  {
    RangesSelectFD(fds, g);
    RangesIncreasing(fds);
  }

  /** Each glyph's range, looked up from the back, carries that glyph's font DICT. */
  lemma {:induction false} RangesSelectFD(fds: seq<byte>, g: nat)
    requires 0 <= g < |fds|
    ensures SelectFD(Ranges(fds), g) == fds[g]
    decreases |fds|
  {
    if |fds| > 1 {
      var init := fds[..|fds| - 1];
      var r := Ranges(init);
      RangesUnfold(fds);
      if fds[|fds| - 1] != fds[|fds| - 2] {
        var x := Range3(|fds| - 1, fds[|fds| - 1]);
        assert Ranges(fds) == r + [x];
        if g < |fds| - 1 {
          assert (r + [x])[..|r|] == r;
          RangesSelectFD(init, g);
        }
      } else if g < |fds| - 1 {
        RangesSelectFD(init, g);
      } else {
        RangesSelectFD(init, g - 1);
        assert r[|r| - 1].first < g;
      }
    }
  }

  /** The ranges start at strictly increasing glyph indices. */
  lemma {:induction false} RangesIncreasing(fds: seq<byte>)
    requires |fds| > 0
    ensures RangesIncrease(Ranges(fds))
    decreases |fds|
  {
    if |fds| > 1 {
      var init := fds[..|fds| - 1];
      RangesUnfold(fds);
      RangesIncreasing(init);
      RangesBelow(init);
    }
  }

  /** The glyphs at which the ranges start. */
  function Firsts(r: seq<Range3>): set<nat>
  {
    if r == [] then {} else Firsts(r[..|r| - 1]) + {r[|r| - 1].first}
  }

  /** Glyph 0, and every glyph whose FD index differs from the one before. */
  function ChangePoints(fds: seq<byte>): set<nat>
  {
    set g | 0 <= g < |fds| && ChangesAt(fds, g)
  }

  predicate ChangesAt(fds: seq<byte>, g: nat)
    requires g < |fds|
  {
    g == 0 || fds[g] != fds[g - 1]
  }

  /** A range starts exactly at glyph 0 and wherever the FD index changes. */
  lemma {:induction false} RangesStart(fds: seq<byte>)
    requires |fds| > 0
    ensures Firsts(Ranges(fds)) == ChangePoints(fds)
    decreases |fds|
  {
    if |fds| > 1 {
      var init := fds[..|fds| - 1];
      var last := |fds| - 1;
      RangesUnfold(fds);
      RangesStart(init);
      ChangePointsInit(fds);
      if fds[last] != fds[last - 1] {
        FirstsSnoc(Ranges(init), Range3(last, fds[last]));
      }
    }
  }

  /** One more range adds its first glyph. */
  lemma FirstsSnoc(r: seq<Range3>, x: Range3)
    ensures Firsts(r + [x]) == Firsts(r) + {x.first}
  {
    assert (r + [x])[..|r|] == r;
  }

  /** One more glyph is a change point exactly when its FD index differs from the one before. */
  lemma ChangePointsInit(fds: seq<byte>)
    requires |fds| > 1
    ensures var last := |fds| - 1;
      ChangePoints(fds) == ChangePoints(fds[..last]) + (if fds[last] != fds[last - 1] then {last} else {})
  {
    var init := fds[..|fds| - 1];
    var last := |fds| - 1;
    var added: set<nat> := if fds[last] != fds[last - 1] then {last} else {};
    forall g: nat
      ensures g in ChangePoints(fds) <==> g in ChangePoints(init) + added
    {
      if 0 < g < last {
        assert init[g] == fds[g] && init[g - 1] == fds[g - 1];
      }
    }
  }

  /** Every range of a list of FD indices starts inside it. */
  lemma {:induction false} RangesBelow(fds: seq<byte>)
    requires |fds| > 0
    ensures forall i :: 0 <= i < |Ranges(fds)| ==> Ranges(fds)[i].first < |fds|
    decreases |fds|
  {
    if |fds| > 1 {
      RangesUnfold(fds);
      RangesBelow(fds[..|fds| - 1]);
    }
  }

  /**
   * Through the FDSelect and the ranks, every glyph of a CID subset with a
   * font DICT finds that font DICT's place in the FDArray.
   */
  lemma SelectsFontDict(f: CFFInput, order: seq<nat>, ranks: map<nat, byte>, ids: seq<nat>, g: nat)
    requires Ranked(order, ranks) && |order| <= 256 && g < |ids| && FDOf(f, ids[g]).Some? && FDOf(f, ids[g]).value in ranks
    ensures var k := SelectFD(Ranges(GlyphFDs(f, ranks, ids)), g); k < |order| && order[k] == FDOf(f, ids[g]).value
  {
    RangesSelect(GlyphFDs(f, ranks, ids), g);
    RankIsPlace(order, ranks, FDOf(f, ids[g]).value);
  }

  // ----- the FDArray (section 19 of TN #5176) -----

  /** Every listed font DICT is one of the source's. */
  predicate FontDictsListed(f: CFFInput, order: seq<nat>)
  {
    forall k :: 0 <= k < |order| ==> order[k] < |f.fontDicts|
  }

  /** The private DICT bodies of the listed font DICTs, one after the other. */
  function PrivateBodies(f: CFFInput, order: seq<nat>): seq<byte>
    requires FontDictsListed(f, order)
  {
    if order == [] then []
    else PrivateBodies(f, order[..|order| - 1]) + PrivateBody(f.fontDicts[order[|order| - 1]].privateDict)
  }

  /** A font DICT of the FDArray: its entries but Private, then the Private entry (size, position) when its body is not empty. */
  function FontDictBytes(fd: FontDict, size: nat, pos: nat): seq<byte>
  {
    DictBytes(Without(fd.items, PrivateKey))
    + (if size != 0 then IntegerOperand(size) + IntegerOperand(pos) + DictOperator(PrivateKey) else [])
  }

  /** Where a private body written at `at` is, as `WritePrivateDictionaryBody` reports it: 0 when there is none. */
  function PrivatePosition(p: PrivateDict, at: nat): nat
  {
    if p.start != 0 then at else 0
  }

  /** Where the private body of the `k`-th listed font DICT starts, counted from the first body. */
  function PrivateStart(f: CFFInput, order: seq<nat>, k: nat): nat
    requires FontDictsListed(f, order) && k <= |order|
  {
    |PrivateBodies(f, order[..k])|
  }

  /** Font DICT `k` of the FDArray, for private bodies written from `base` on: its size and its position. */
  function FontDictEntry(f: CFFInput, order: seq<nat>, base: nat, k: nat): seq<byte>
    requires FontDictsListed(f, order) && k < |order|
  {
    var fd := f.fontDicts[order[k]];
    FontDictBytes(fd, |PrivateBody(fd.privateDict)|, PrivatePosition(fd.privateDict, base + PrivateStart(f, order, k)))
  }

  /** The items of the FDArray INDEX. */
  function FontDictItems(f: CFFInput, order: seq<nat>, base: nat): (r: seq<seq<byte>>)
    requires FontDictsListed(f, order)
    ensures |r| == |order|
  {
    seq(|order|, k requires 0 <= k < |order| => FontDictEntry(f, order, base, k))
  }

  /** What `WriteFDArray` writes from `base` on: the private bodies, then the INDEX of the font DICTs. */
  function FDArrayBytes(f: CFFInput, order: seq<nat>, base: nat): seq<byte>
    requires FontDictsListed(f, order)
  {
    PrivateBodies(f, order) + IndexBytes(FontDictItems(f, order, base))
  }

  /** What `WriteFDArray` keeps of the `k`-th private DICT written from `base` on: its size and position. */
  predicate PrivateEntryAt(f: CFFInput, order: seq<nat>, base: nat, k: nat, size: nat, pos: nat)
    requires FontDictsListed(f, order) && k < |order|
  {
    var p := f.fontDicts[order[k]].privateDict;
    size == |PrivateBody(p)| && pos == PrivatePosition(p, base + PrivateStart(f, order, k))
  }

  /** One more private body follows those before it. */
  lemma PrivateBodiesStep(f: CFFInput, order: seq<nat>, k: nat)
    requires FontDictsListed(f, order) && k < |order|
    ensures FontDictsListed(f, order[..k]) && FontDictsListed(f, order[..k + 1])
    ensures PrivateBodies(f, order[..k + 1]) == PrivateBodies(f, order[..k]) + PrivateBody(f.fontDicts[order[k]].privateDict)
  {
    assert order[..k + 1][..k] == order[..k];
  }

  /** A font DICT entry built from the size and position kept for it is the FDArray's item. */
  lemma FontDictItemIs(f: CFFInput, order: seq<nat>, base: nat, k: nat, size: nat, pos: nat)
    requires FontDictsListed(f, order) && k < |order| && PrivateEntryAt(f, order, base, k, size, pos)
    ensures FontDictItems(f, order, base)[k] == FontDictBytes(f.fontDicts[order[k]], size, pos)
  {
    FontDictItemsAt(f, order, base, k);
    FontDictEntryIs(f, order, base, k, size, pos);
  }

  lemma FontDictItemsAt(f: CFFInput, order: seq<nat>, base: nat, k: nat)
    requires FontDictsListed(f, order) && k < |order|
    ensures FontDictItems(f, order, base)[k] == FontDictEntry(f, order, base, k)
  {
  }

  lemma FontDictEntryIs(f: CFFInput, order: seq<nat>, base: nat, k: nat, size: nat, pos: nat)
    requires FontDictsListed(f, order) && k < |order| && PrivateEntryAt(f, order, base, k, size, pos)
    ensures FontDictEntry(f, order, base, k) == FontDictBytes(f.fontDicts[order[k]], size, pos)
  {
  }

  // ----- the offsets in the top DICT -----

  /** A five-byte integer `UpdateIndexesAtTopDict` writes over the placeholder at `at`. */
  datatype PlaceholderValue = PlaceholderValue(at: nat, value: int)

  /**
   * `UpdateIndexesAtTopDict`'s writes, in its order: the charset and
   * CharStrings positions, the private DICT's size and position when there
   * is one, then the FDArray and FDSelect positions of a CID font or the
   * encoding's position.
   */
  function TopDictPatches(ph: Placeholders, pos: Positions, f: CFFInput, cid: bool): (r: seq<PlaceholderValue>)
    ensures |r| <= 6
  {
    [PlaceholderValue(ph.charset, pos.charset), PlaceholderValue(ph.charStrings, pos.charStrings)]
    + (if HasPrivate(f) then [PlaceholderValue(ph.privateDict, pos.privateSize), PlaceholderValue(ph.privateDict + 5, pos.privateDict)] else [])
    + (if cid then [PlaceholderValue(ph.fdArray, pos.fdArray), PlaceholderValue(ph.fdSelect, pos.fdSelect)]
       else [PlaceholderValue(ph.encoding, pos.encoding)])
  }

  /** Every write fits in `s`. */
  predicate PatchesFit(s: seq<byte>, ps: seq<PlaceholderValue>)
  {
    forall i :: 0 <= i < |ps| ==> ps[i].at + 5 <= |s|
  }

  /** The writes go forward and none overlaps another. */
  predicate Separated(ps: seq<PlaceholderValue>)
  {
    forall i, j :: 0 <= i < j < |ps| ==> ps[i].at + 5 <= ps[j].at
  }

  /** Seeking to each placeholder in turn and writing its five-byte integer. */
  function ApplyPatches(s: seq<byte>, ps: seq<PlaceholderValue>): (r: seq<byte>)
    requires PatchesFit(s, ps)
    ensures |r| == |s|
    decreases |ps|
  {
    if ps == [] then s else ApplyPatches(Patch(s, ps[0].at, DictInteger5(ps[0].value)), ps[1..])
  }

  /** The writes leave every range none of them touches alone. */
  lemma {:induction false} PatchesKeep(s: seq<byte>, ps: seq<PlaceholderValue>, lo: nat, hi: nat)
    requires PatchesFit(s, ps) && lo <= hi <= |s|
    requires forall i :: 0 <= i < |ps| ==> hi <= ps[i].at || ps[i].at + 5 <= lo
    ensures ApplyPatches(s, ps)[lo..hi] == s[lo..hi]
    decreases |ps|
  {
    if ps != [] {
      var next := Patch(s, ps[0].at, DictInteger5(ps[0].value));
      PatchElsewhere(s, ps[0].at, DictInteger5(ps[0].value), lo, hi);
      assert forall i :: 0 <= i < |ps| - 1 ==> ps[1..][i] == ps[i + 1];
      PatchesKeep(next, ps[1..], lo, hi);
    }
  }

  /** After forward, separate writes each placeholder holds its integer. */
  lemma {:induction false} PatchesWritten(s: seq<byte>, ps: seq<PlaceholderValue>, k: nat)
    requires PatchesFit(s, ps) && Separated(ps) && k < |ps|
    ensures ApplyPatches(s, ps)[ps[k].at..ps[k].at + 5] == DictInteger5(ps[k].value)
    decreases |ps|
  {
    var next := Patch(s, ps[0].at, DictInteger5(ps[0].value));
    assert forall i :: 0 <= i < |ps| - 1 ==> ps[1..][i] == ps[i + 1];
    if k == 0 {
      PatchesKeep(next, ps[1..], ps[0].at, ps[0].at + 5);
    } else {
      PatchesWritten(next, ps[1..], k - 1);
    }
  }

  /** A slot's operator survives writes that miss it. */
  lemma SlotKept(s: seq<byte>, ps: seq<PlaceholderValue>, p: nat, width: nat, op: nat)
    requires Slot(s, p, width, op) && PatchesFit(s, ps)
    requires forall i :: 0 <= i < |ps| ==> p + width + |DictOperator(op)| <= ps[i].at || ps[i].at + 5 <= p + width
    ensures Slot(ApplyPatches(s, ps), p, width, op)
  {
    var q := p + width;
    var n := |DictOperator(op)|;
    PatchesKeep(s, ps, q, q + n);
    var r := ApplyPatches(s, ps);
    assert r[q..q + n][0] == s[q..q + n][0];
    if n == 2 {
      assert r[q..q + n][1] == s[q..q + n][1];
    }
  }

  /** The integer a five-byte operand at `p` holds. */
  predicate Holds5(s: seq<byte>, p: nat, v: int)
  {
    p + 5 <= |s| && ReadIntegerOperand(s[p..p + 5]) == Some(v)
  }

  /** The placeholders of a laid out top DICT take forward writes that miss every operator. */
  lemma TopDictPatchesSeparated(s: seq<byte>, ph: Placeholders, pos: Positions, f: CFFInput, cid: bool)
    requires SlotsReady(s, ph, f, cid) && Layout(ph, f, cid)
    ensures var ps := TopDictPatches(ph, pos, f, cid);
      && PatchesFit(s, ps) && Separated(ps)
      && forall i :: 0 <= i < |ps| ==> ph.charset <= ps[i].at && ps[i].at + 5 <= ph.charset + 23 + (if cid then 14 else 7)
  {
  }

  /** Each placeholder holds what it stands for. */
  predicate OffsetsHeld(r: seq<byte>, ph: Placeholders, pos: Positions, f: CFFInput, cid: bool)
  {
    && Holds5(r, ph.charset, pos.charset) && Holds5(r, ph.charStrings, pos.charStrings)
    && (HasPrivate(f) ==> Holds5(r, ph.privateDict, pos.privateSize) && Holds5(r, ph.privateDict + 5, pos.privateDict))
    && (cid ==> Holds5(r, ph.fdArray, pos.fdArray) && Holds5(r, ph.fdSelect, pos.fdSelect))
    && (!cid ==> Holds5(r, ph.encoding, pos.encoding))
  }

  /** Every position and size fits a five-byte integer. */
  predicate PositionsFit(pos: Positions)
  {
    && pos.charset < 0x8000_0000 && pos.charStrings < 0x8000_0000 && pos.encoding < 0x8000_0000
    && pos.privateDict < 0x8000_0000 && pos.privateSize < 0x8000_0000
    && pos.fdArray < 0x8000_0000 && pos.fdSelect < 0x8000_0000
  }

  /**
   * After `UpdateIndexesAtTopDict`, each placeholder of the top DICT holds
   * the position (or size) it stands for, as a reader of the DICT decodes
   * it, and every operator is still in place behind its operand.
   */
  lemma TopDictUpdated(s: seq<byte>, ph: Placeholders, pos: Positions, f: CFFInput, cid: bool)
    requires SlotsReady(s, ph, f, cid) && Layout(ph, f, cid) && PositionsFit(pos)
    ensures PatchesFit(s, TopDictPatches(ph, pos, f, cid))
    ensures SlotsReady(ApplyPatches(s, TopDictPatches(ph, pos, f, cid)), ph, f, cid)
    ensures OffsetsHeld(ApplyPatches(s, TopDictPatches(ph, pos, f, cid)), ph, pos, f, cid)
  {
    TopDictPatchesSeparated(s, ph, pos, f, cid);
    TopDictOperatorsKept(s, ph, pos, f, cid);
    TopDictValuesWritten(s, ph, pos, f, cid);
  }

  lemma TopDictOperatorsKept(s: seq<byte>, ph: Placeholders, pos: Positions, f: CFFInput, cid: bool)
    requires SlotsReady(s, ph, f, cid) && Layout(ph, f, cid) && PatchesFit(s, TopDictPatches(ph, pos, f, cid))
    ensures SlotsReady(ApplyPatches(s, TopDictPatches(ph, pos, f, cid)), ph, f, cid)
  {
    FirstOperatorsKept(s, ph, pos, f, cid);
    LastOperatorsKept(s, ph, pos, f, cid);
  }

  lemma FirstOperatorsKept(s: seq<byte>, ph: Placeholders, pos: Positions, f: CFFInput, cid: bool)
    requires SlotsReady(s, ph, f, cid) && Layout(ph, f, cid) && PatchesFit(s, TopDictPatches(ph, pos, f, cid))
    ensures var r := ApplyPatches(s, TopDictPatches(ph, pos, f, cid));
      && Slot(r, ph.charset, 5, CharsetKey) && Slot(r, ph.charStrings, 5, CharStringsKey)
      && (HasPrivate(f) ==> Slot(r, ph.privateDict, 10, PrivateKey))
  {
    var ps := TopDictPatches(ph, pos, f, cid);
    SlotKept(s, ps, ph.charset, 5, CharsetKey);
    SlotKept(s, ps, ph.charStrings, 5, CharStringsKey);
    if HasPrivate(f) {
      PrivateOperatorKept(s, ph, pos, f, cid);
    }
  }

  lemma PrivateOperatorKept(s: seq<byte>, ph: Placeholders, pos: Positions, f: CFFInput, cid: bool)
    requires SlotsReady(s, ph, f, cid) && Layout(ph, f, cid) && PatchesFit(s, TopDictPatches(ph, pos, f, cid))
    requires HasPrivate(f)
    ensures Slot(ApplyPatches(s, TopDictPatches(ph, pos, f, cid)), ph.privateDict, 10, PrivateKey)
  {
    SlotKept(s, TopDictPatches(ph, pos, f, cid), ph.privateDict, 10, PrivateKey);
  }

  lemma LastOperatorsKept(s: seq<byte>, ph: Placeholders, pos: Positions, f: CFFInput, cid: bool)
    requires SlotsReady(s, ph, f, cid) && Layout(ph, f, cid) && PatchesFit(s, TopDictPatches(ph, pos, f, cid))
    ensures var r := ApplyPatches(s, TopDictPatches(ph, pos, f, cid));
      && (cid ==> Slot(r, ph.fdArray, 5, FDArrayKey) && Slot(r, ph.fdSelect, 5, FDSelectKey))
      && (!cid ==> Slot(r, ph.encoding, 5, EncodingKey))
  {
    var ps := TopDictPatches(ph, pos, f, cid);
    if cid {
      SlotKept(s, ps, ph.fdArray, 5, FDArrayKey);
      SlotKept(s, ps, ph.fdSelect, 5, FDSelectKey);
    } else {
      SlotKept(s, ps, ph.encoding, 5, EncodingKey);
    }
  }

  lemma TopDictValuesWritten(s: seq<byte>, ph: Placeholders, pos: Positions, f: CFFInput, cid: bool)
    requires PositionsFit(pos)
    requires PatchesFit(s, TopDictPatches(ph, pos, f, cid)) && Separated(TopDictPatches(ph, pos, f, cid))
    ensures OffsetsHeld(ApplyPatches(s, TopDictPatches(ph, pos, f, cid)), ph, pos, f, cid)
  {
    var ps := TopDictPatches(ph, pos, f, cid);
    var r := ApplyPatches(s, ps);
    forall k | 0 <= k < |ps|
      ensures Holds5(r, ps[k].at, ps[k].value)
    {
      PatchesWritten(s, ps, k);
      DictInteger5RoundTrip(ps[k].value);
    }
    var n := if HasPrivate(f) then 4 else 2;
    assert ps[0] == PlaceholderValue(ph.charset, pos.charset);
    assert ps[1] == PlaceholderValue(ph.charStrings, pos.charStrings);
    if HasPrivate(f) {
      assert ps[2] == PlaceholderValue(ph.privateDict, pos.privateSize);
      assert ps[3] == PlaceholderValue(ph.privateDict + 5, pos.privateDict);
    }
    if cid {
      assert ps[n] == PlaceholderValue(ph.fdArray, pos.fdArray) && ps[n + 1] == PlaceholderValue(ph.fdSelect, pos.fdSelect);
    } else {
      assert ps[n] == PlaceholderValue(ph.encoding, pos.encoding);
    }
  }
}
