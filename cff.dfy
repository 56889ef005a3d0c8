/**
 * The CFF font-program subsetter (`CFFEmbeddedFontWriter`): it rebuilds a
 * CFF font that holds only the glyphs a PDF uses. Charstrings are flattened,
 * the global subroutine INDEX is empty, and the charset, FDSelect and
 * top DICT offsets are written afresh. Byte formats follow Adobe Technical
 * Note #5176, "The Compact Font Format Specification".
 */
module CFF {
  import opened Common
  import XrefFormat

  type card16 = x: int | 0 <= x < 0x10000

  const TwoTo32: nat := 0x1_0000_0000

  // ----- primitive encodings (CFFPrimitiveWriter) -----

  /** `WriteCard16` / `WriteSID`: the low 16 bits, high byte first. */
  function Card16(v: int): (r: seq<byte>)
    ensures |r| == 2
  {
    Offset(v, 2)
  }

  /** `WriteOffset` with offset size `size`: the low `size` bytes, high byte first, the last byte written last. */
  function Offset(v: int, size: nat): (r: seq<byte>)
    ensures |r| == size
    decreases size
  {
    if size == 0 then [] else Offset(v / 256, size - 1) + [v % 256]
  }

  /** The field `Offset` writes is the big-endian field of the cross-reference format, so it reads back the same way. */
  lemma {:induction false} OffsetIsBigEndian(v: int, size: nat)
    ensures Offset(v, size) == XrefFormat.BigEndian(v, size)
    decreases size
  {
    if size > 0 {
      OffsetIsBigEndian(v / 256, size - 1);
      XrefFormat.BigEndianInit(v, size);
      var b := XrefFormat.BigEndian(v, size);
      assert b == b[..size - 1] + [b[size - 1]];
    }
  }

  /** `WriteDictOperator`: one byte, or the escape 12 and a second byte for the two-byte operators `12 x` (keys 0xC00 + x). */
  function DictOperator(op: nat): (r: seq<byte>)
    ensures 1 <= |r| <= 2
  {
    if op < 256 then [op] else [(op / 256) % 256, op % 256]
  }

  /** `Write5ByteDictInteger`: operand prefix 29 and a 32-bit big-endian integer (section 4 of TN #5176, table 3). */
  function DictInteger5(v: int): (r: seq<byte>)
    ensures |r| == 5 && r[0] == 29
  {
    [29] + XrefFormat.BigEndian(v, 4)
  }

  /** `Pad5Bytes`: room for a five-byte integer that `UpdateIndexesAtTopDict` writes later. */
  const Pad5: seq<byte> := [0, 0, 0, 0, 0]

  /** `WriteIntegerOperand`: the shortest DICT integer encoding of table 3 of TN #5176. */
  function IntegerOperand(v: int): (r: seq<byte>)
  {
    if -107 <= v <= 107 then [v + 139]
    else if 108 <= v <= 1131 then [(v - 108) / 256 + 247, (v - 108) % 256]
    else if -1131 <= v <= -108 then [(-v - 108) / 256 + 251, (-v - 108) % 256]
    else if -32768 <= v <= 32767 then [28] + XrefFormat.BigEndian(v, 2)
    else [29] + XrefFormat.BigEndian(v, 4)
  }

  /** Two's complement reading of an n-byte field. */
  function Signed(u: nat, n: nat): int
  {
    if 2 * u >= XrefFormat.Pow256(n) then u - XrefFormat.Pow256(n) else u
  }

  /** A DICT reader's decoding of the integer operand at the start of `s` (table 3 of TN #5176). */
  function ReadIntegerOperand(s: seq<byte>): Option<int>
  {
    if |s| == 0 then None
    else
      var b0: int := s[0];
      if 32 <= b0 <= 246 then Some(b0 - 139)
      else if 247 <= b0 <= 250 && |s| >= 2 then Some((b0 - 247) * 256 + s[1] as int + 108)
      else if 251 <= b0 <= 254 && |s| >= 2 then Some(-(b0 - 251) * 256 - s[1] as int - 108)
      else if b0 == 28 && |s| >= 3 then Some(Signed(XrefFormat.BigEndianValue(s[1..3]), 2))
      else if b0 == 29 && |s| >= 5 then Some(Signed(XrefFormat.BigEndianValue(s[1..5]), 4))
      else None
  }

  lemma Pow256Values()
    ensures XrefFormat.Pow256(1) == 256 && XrefFormat.Pow256(2) == 0x1_0000
    ensures XrefFormat.Pow256(3) == 0x100_0000 && XrefFormat.Pow256(4) == TwoTo32
  {
    assert XrefFormat.Pow256(0) == 1;
  }

  /** Every 32-bit integer operand reads back as itself. */
  lemma IntegerOperandRoundTrip(v: int)
    requires -0x8000_0000 <= v < 0x8000_0000
    ensures ReadIntegerOperand(IntegerOperand(v)) == Some(v)
  {
    Pow256Values();
    var r := IntegerOperand(v);
    if -107 <= v <= 1131 || -1131 <= v <= -108 {
    } else if -32768 <= v <= 32767 {
      assert r[1..3] == XrefFormat.BigEndian(v, 2);
      XrefFormat.BigEndianValueOf(v, 2);
      SignedOf(v, 2);
    } else {
      assert r[1..5] == XrefFormat.BigEndian(v, 4);
      XrefFormat.BigEndianValueOf(v, 4);
      SignedOf(v, 4);
    }
  }

  /** A five-byte integer reads back as itself when it fits in 32 signed bits. */
  lemma DictInteger5RoundTrip(v: int)
    requires -0x8000_0000 <= v < 0x8000_0000
    ensures ReadIntegerOperand(DictInteger5(v)) == Some(v)
  {
    Pow256Values();
    assert DictInteger5(v)[1..5] == XrefFormat.BigEndian(v, 4);
    XrefFormat.BigEndianValueOf(v, 4);
    SignedOf(v, 4);
  }

  /** The two's complement reading of `v mod 256^n` is `v` when `v` fits in n signed bytes. */
  lemma SignedOf(v: int, n: nat)
    requires -(XrefFormat.Pow256(n) as int) <= 2 * v < XrefFormat.Pow256(n)
    ensures Signed(v % XrefFormat.Pow256(n), n) == v
  {
    var p := XrefFormat.Pow256(n);
    if v >= 0 {
      XrefFormat.ModUnique(v, p, 0, v);
    } else {
      XrefFormat.ModUnique(v, p, -1, v + p);
    }
  }

  /** `GetMostCompressedOffsetSize`: the fewest bytes (1 to 4) an offset field needs. */
  function OffsetSize(offset: nat): (r: byte)
    ensures 1 <= r <= 4
  {
    if offset < 256 then 1
    else if offset < 65536 then 2
    else if offset < 0x100_0000 then 3
    else 4
  }

  /** An offset below 2^32 fits in the size chosen, and no smaller size would hold it. */
  lemma OffsetSizeFits(offset: nat)
    ensures var r := OffsetSize(offset);
      && (offset < TwoTo32 ==> offset < XrefFormat.Pow256(r))
      && (r > 1 ==> XrefFormat.Pow256(r - 1) <= offset)
  {
    Pow256Values();
  }

  // ----- INDEX structures (section 5 of TN #5176) -----

  /** The data of an INDEX: its items one after the other. */
  function Concat(items: seq<seq<byte>>): seq<byte>
  {
    if items == [] then [] else Concat(items[..|items| - 1]) + items[|items| - 1]
  }

  /** The offset (counted from 1) at which each item starts. */
  function Starts(items: seq<seq<byte>>): (r: seq<nat>)
    ensures |r| == |items|
  {
    if items == [] then [] else Starts(items[..|items| - 1]) + [|Concat(items[..|items| - 1])| + 1]
  }

  /** The offset array: every item's start, then one past the end of the data. */
  function Offsets(items: seq<seq<byte>>): (r: seq<nat>)
    ensures |r| == |items| + 1
  {
    Starts(items) + [|Concat(items)| + 1]
  }

  /** The offsets, each written in `size` bytes. */
  function OffsetArray(offsets: seq<nat>, size: nat): seq<byte>
  {
    if offsets == [] then []
    else OffsetArray(offsets[..|offsets| - 1], size) + Offset(offsets[|offsets| - 1], size)
  }

  /**
   * An INDEX: the count, the offset size, the offsets and the data; an empty
   * INDEX is its count alone.
   */
  function IndexBytes(items: seq<seq<byte>>): seq<byte>
  {
    if items == [] then Card16(0)
    else
      var size := OffsetSize(|Concat(items)| + 1);
      Card16(|items|) + [size] + OffsetArray(Offsets(items), size) + Concat(items)
  }

  lemma {:induction false} ConcatAppend(a: seq<seq<byte>>, b: seq<seq<byte>>)
    ensures Concat(a + b) == Concat(a) + Concat(b)
    decreases |b|
  {
    if b == [] {
      assert a + b == a;
    } else {
      var init := b[..|b| - 1];
      assert (a + b)[..|a + b| - 1] == a + init;
      ConcatAppend(a, init);
    }
  }

  lemma ConcatOne(x: seq<byte>)
    ensures Concat([x]) == x
  {
    var one: seq<seq<byte>> := [x];
    assert one[..0] == [];
  }

  /** Item `i` starts right after the items before it. */
  lemma {:induction false} StartsAt(items: seq<seq<byte>>, i: nat)
    requires i < |items|
    ensures Starts(items)[i] == |Concat(items[..i])| + 1
    decreases |items|
  {
    var init := items[..|items| - 1];
    if i < |init| {
      StartsAt(init, i);
      assert init[..i] == items[..i];
    } else {
      assert init == items[..i];
    }
  }

  /** Offset `i` is one past the data of the first `i` items, for every `i` up to the count. */
  lemma OffsetsAt(items: seq<seq<byte>>, i: nat)
    requires i <= |items|
    ensures Offsets(items)[i] == |Concat(items[..i])| + 1
  {
    if i < |items| {
      StartsAt(items, i);
    } else {
      assert items[..i] == items;
    }
  }

  /** Item `i` lies in the data between offsets `i` and `i + 1`. */
  lemma ItemBetweenOffsets(items: seq<seq<byte>>, i: nat)
    requires i < |items|
    ensures Offsets(items)[i + 1] == Offsets(items)[i] + |items[i]|
    ensures 1 <= Offsets(items)[i] && Offsets(items)[i + 1] <= |Concat(items)| + 1
    ensures Concat(items)[Offsets(items)[i] - 1..Offsets(items)[i + 1] - 1] == items[i]
  {
    OffsetsAt(items, i);
    OffsetsAt(items, i + 1);
    OffsetsBounded(items, i + 1);
    ItemInData(items, i);
  }

  /** Item `i` follows the data of the items before it. */
  lemma ItemInData(items: seq<seq<byte>>, i: nat)
    requires i < |items|
    ensures var at := |Concat(items[..i])|;
      && |Concat(items[..i + 1])| == at + |items[i]| <= |Concat(items)|
      && Concat(items)[at..at + |items[i]|] == items[i]
  {
    var before, after := items[..i], items[i + 1..];
    assert items[..i + 1] == before + [items[i]];
    assert items == before + [items[i]] + after;
    ConcatAround(before, items[i], after);
    MiddleSlice(Concat(before), items[i], Concat(after));
  }

  /** The data of an INDEX around one item: the items before it, the item, the items after it. */
  lemma ConcatAround(before: seq<seq<byte>>, x: seq<byte>, after: seq<seq<byte>>)
    ensures Concat(before + [x]) == Concat(before) + x
    ensures Concat(before + [x] + after) == Concat(before) + x + Concat(after)
  {
    ConcatAppend(before, [x]);
    ConcatOne(x);
    ConcatAppend(before + [x], after);
  }

  /** The offsets never exceed the last one. */
  lemma OffsetsBounded(items: seq<seq<byte>>, i: nat)
    requires i <= |items|
    ensures 1 <= Offsets(items)[i] <= |Concat(items)| + 1
  {
    OffsetsAt(items, i);
    OffsetsAt(items, |items|);
    ConcatAppend(items[..i], items[i..]);
    assert items[..i] + items[i..] == items;
    assert items[..|items|] == items;
  }

  /** The width of `n` offset fields of `size` bytes each, counted field by field. */
  function Width(n: nat, size: nat): (r: nat)
  {
    if n == 0 then 0 else Width(n - 1, size) + size
  }

  /** `Width` is the product of the count and the field size. */
  lemma {:induction false} WidthIsProduct(n: nat, size: nat)
    ensures Width(n, size) == n * size
  {
    if n > 0 {
      WidthIsProduct(n - 1, size);
    }
  }

  /** Fields further along end further along. */
  lemma {:induction false} WidthGrows(i: nat, n: nat, size: nat)
    requires i <= n
    ensures Width(i, size) <= Width(n, size)
    decreases n
  {
    if i < n {
      WidthGrows(i, n - 1, size);
    }
  }

  /** The offset array holds one field per offset. */
  lemma {:induction false} OffsetArrayLength(offsets: seq<nat>, size: nat)
    ensures |OffsetArray(offsets, size)| == Width(|offsets|, size)
    decreases |offsets|
  {
    if offsets != [] {
      OffsetArrayLength(offsets[..|offsets| - 1], size);
    }
  }

  /** Offset `i` sits in the `i`-th field of the offset array. */
  lemma {:induction false} OffsetArrayAt(offsets: seq<nat>, size: nat, i: nat)
    requires i < |offsets|
    ensures Width(i + 1, size) <= Width(|offsets|, size) == |OffsetArray(offsets, size)|
    ensures OffsetArray(offsets, size)[Width(i, size)..Width(i + 1, size)] == Offset(offsets[i], size)
    decreases |offsets|
  {
    var init := offsets[..|offsets| - 1];
    OffsetArrayLength(offsets, size);
    OffsetArrayLength(init, size);
    WidthGrows(i + 1, |offsets|, size);
    var a := OffsetArray(init, size);
    var b := Offset(offsets[|offsets| - 1], size);
    if i < |init| {
      OffsetArrayAt(init, size, i);
      assert (a + b)[Width(i, size)..Width(i + 1, size)] == a[Width(i, size)..Width(i + 1, size)];
    } else {
      assert (a + b)[|a|..|a| + |b|] == b;
    }
  }

  /** Writing one more offset extends the array by its field. */
  lemma OffsetArraySnoc(offsets: seq<nat>, size: nat, v: nat)
    ensures OffsetArray(offsets + [v], size) == OffsetArray(offsets, size) + Offset(v, size)
  {
    assert (offsets + [v])[..|offsets|] == offsets;
  }

  /**
   * Recording where item `k` starts, then writing it: the offsets recorded
   * so far are the starts of the items written.
   */
  lemma StartsGrow(items: seq<seq<byte>>, k: nat, offs: seq<nat>)
    requires k < |items| && k < |offs| && offs[k] == |Concat(items[..k])|
    requires forall j :: 0 <= j < k ==> offs[j] + 1 == Starts(items[..k])[j]
    ensures forall j :: 0 <= j <= k ==> offs[j] + 1 == Starts(items[..k + 1])[j]
    ensures Concat(items[..k + 1]) == Concat(items[..k]) + items[k]
  {
    assert items[..k + 1] == items[..k] + [items[k]];
    StartsSnoc(items[..k], items[k]);
  }

  /** The starts of all the items, then the end of the data, are the offset array. */
  lemma OffsetsRecorded(items: seq<seq<byte>>, offs: seq<nat>)
    requires |offs| == |items| + 1 && offs[|items|] == |Concat(items)|
    requires forall j :: 0 <= j < |items| ==> offs[j] + 1 == Starts(items)[j]
    ensures forall j :: 0 <= j <= |items| ==> offs[j] + 1 == Offsets(items)[j]
  {
  }

  /** The first `k` offsets written so far are the starts of the first `k` items. */
  predicate StartsRecorded(offs: seq<nat>, items: seq<seq<byte>>, k: nat)
  {
    k <= |items| && k <= |offs| && forall j :: 0 <= j < k ==> offs[j] + 1 == Starts(items[..k])[j]
  }

  /** Recording where item `k` starts, as the length of the data before it. */
  lemma StartsRecordedStep(items: seq<seq<byte>>, k: nat, offs: seq<nat>, v: nat)
    requires k < |items| && k < |offs| && StartsRecorded(offs, items, k) && v == |Concat(items[..k])|
    ensures StartsRecorded(offs[k := v], items, k + 1)
    ensures Concat(items[..k + 1]) == Concat(items[..k]) + items[k]
  {
    StartsGrow(items, k, offs[k := v]);
  }

  /** Recording the end of the data after every start completes the offset array. */
  lemma OffsetsComplete(items: seq<seq<byte>>, offs: seq<nat>, v: nat)
    requires |offs| == |items| + 1 && StartsRecorded(offs, items, |items|) && v == |Concat(items)|
    ensures forall j :: 0 <= j <= |items| ==> offs[|items| := v][j] + 1 == Offsets(items)[j]
  {
    assert items[..|items|] == items;
    OffsetsRecorded(items, offs[|items| := v]);
  }

  /** One more item starts where the data so far ends. */
  lemma StartsSnoc(items: seq<seq<byte>>, x: seq<byte>)
    ensures Starts(items + [x]) == Starts(items) + [|Concat(items)| + 1]
    ensures Concat(items + [x]) == Concat(items) + x
  {
    assert (items + [x])[..|items|] == items;
  }

  /** What a reader finds at the head of a non-empty INDEX: its count and offset size. */
  lemma {:induction false} IndexHeader(items: seq<seq<byte>>)
    requires 0 < |items| < 0x1_0000
    ensures IndexHeaderReads(IndexBytes(items), |items|, |Concat(items)|)
  {
    var size := OffsetSize(|Concat(items)| + 1);
    IndexParts(items);
    HeaderOfParts(IndexBytes(items), Card16(|items|) + [size], Offsets(items), Concat(items), size, |items|);
  }

  /**
   * How a reader reads the head of an INDEX: a two-byte count, an offset
   * size from 1 to 4, and then `count + 1` offsets of that size before
   * `dataLength` bytes of data.
   */
  predicate IndexHeaderReads(b: seq<byte>, count: nat, dataLength: nat)
  {
    && |b| > 2 && XrefFormat.BigEndianValue(b[..2]) == count && 1 <= b[2] <= 4
    && |b| == 3 + Width(count + 1, b[2] as nat) + dataLength
  }

  /** The head of an INDEX laid out as count, offset size, offset array and data. */
  lemma HeaderOfParts(b: seq<byte>, a: seq<byte>, offsets: seq<nat>, c: seq<byte>, size: byte, count: nat)
    requires b == a + OffsetArray(offsets, size as nat) + c && a == Card16(count) + [size]
    requires |offsets| == count + 1 && count < 0x1_0000 && 1 <= size <= 4
    ensures IndexHeaderReads(b, count, |c|)
  {
    FieldOfParts(b, a, OffsetArray(offsets, size as nat), c, 0, 0);
    assert b[..2] == a[..2] == Card16(count);
    OffsetArrayLength(offsets, size as nat);
    Pow256Values();
    OffsetIsBigEndian(count, 2);
    XrefFormat.BigEndianRoundTrip(count, 2);
  }

  /** Field `i` of an offset array that follows a three-byte header ending in the offset size. */
  lemma OffsetFieldOfParts(b: seq<byte>, a: seq<byte>, offsets: seq<nat>, c: seq<byte>, size: byte, i: nat)
    requires b == a + OffsetArray(offsets, size) + c && |a| == 3 && a[2] == size && i < |offsets|
    ensures b[2] == size && 3 + Width(i + 1, size as nat) <= |b|
    ensures b[3 + Width(i, size as nat)..3 + Width(i + 1, size as nat)] == Offset(offsets[i], size as nat)
  {
    OffsetArrayAt(offsets, size as nat, i);
    FieldOfParts(b, a, OffsetArray(offsets, size as nat), c, Width(i, size as nat), Width(i + 1, size as nat));
  }

  /** A field of the middle part of a three-part sequence whose first part is three bytes long. */
  lemma FieldOfParts(b: seq<byte>, a: seq<byte>, m: seq<byte>, c: seq<byte>, lo: nat, hi: nat)
    requires b == a + m + c && |a| == 3 && lo <= hi <= |m|
    ensures b[2] == a[2] && 3 + hi <= |b| && b[3 + lo..3 + hi] == m[lo..hi]
  {
    SliceIn(a, m, c, lo, hi);
  }

  /** A non-empty INDEX: the count and the offset size, the offset array, the data. */
  lemma IndexParts(items: seq<seq<byte>>)
    requires 0 < |items|
    ensures var size := OffsetSize(|Concat(items)| + 1); var a := Card16(|items|) + [size];
      && IndexBytes(items) == a + OffsetArray(Offsets(items), size) + Concat(items)
      && |a| == 3 && IndexBytes(items)[2] == size
  {
    var size := OffsetSize(|Concat(items)| + 1);
    var a := Card16(|items|) + [size];
    FieldOfParts(IndexBytes(items), a, OffsetArray(Offsets(items), size), Concat(items), 0, 0);
  }

  /**
   * How a reader finds offset `i` of an INDEX: the offset size is byte 2,
   * and field `i` of that size after the three header bytes, read big-endian,
   * is `v`.
   */
  predicate OffsetFieldReads(b: seq<byte>, i: nat, v: nat)
  {
    |b| > 2 && FieldReads(b, i, b[2] as nat, v)
  }

  /** Field `i` of an offset array of `size`-byte fields, starting at byte 3 of `b`, reads as `v`. */
  predicate FieldReads(b: seq<byte>, i: nat, size: nat, v: nat)
  {
    && 3 + Width(i + 1, size) <= |b|
    && XrefFormat.BigEndianValue(b[3 + Width(i, size)..3 + Width(i + 1, size)]) == v
  }

  /** Offset `i` of a non-empty INDEX reads back as the boundary `Offsets` records. */
  lemma {:induction false} IndexOffsetAt(items: seq<seq<byte>>, i: nat)
    requires 0 < |items| && |Concat(items)| + 1 < TwoTo32 && i <= |items|
    ensures OffsetFieldReads(IndexBytes(items), i, Offsets(items)[i])
  {
    var size := OffsetSize(|Concat(items)| + 1);
    IndexParts(items);
    OffsetsBounded(items, i);
    OffsetSizeFits(|Concat(items)| + 1);
    OffsetReadsBack(IndexBytes(items), Card16(|items|) + [size], Offsets(items), Concat(items), size, i);
  }

  /** A field of the offset array, written in `size` bytes, reads back as the offset it holds when that offset fits. */
  lemma OffsetReadsBack(b: seq<byte>, a: seq<byte>, offsets: seq<nat>, c: seq<byte>, size: byte, i: nat)
    requires b == a + OffsetArray(offsets, size) + c && |a| == 3 && a[2] == size && i < |offsets|
    requires offsets[i] < XrefFormat.Pow256(size as nat)
    ensures OffsetFieldReads(b, i, offsets[i])
  {
    var n, v := size as nat, offsets[i];
    OffsetFieldOfParts(b, a, offsets, c, size, i);
    var field := b[3 + Width(i, n)..3 + Width(i + 1, n)];
    assert field == Offset(v, n);
    OffsetIsBigEndian(v, n);
    XrefFormat.BigEndianRoundTrip(v, n);
    assert FieldReads(b, i, n, v);
  }

  /** Item `i` of a non-empty INDEX lies between the data positions its offsets `i` and `i + 1` name. */
  lemma {:induction false} IndexItemAt(items: seq<seq<byte>>, i: nat)
    requires 0 < |items| && i < |items|
    ensures ItemFieldReads(IndexBytes(items), |items| + 1, Offsets(items)[i], Offsets(items)[i + 1], items[i])
  {
    var size := OffsetSize(|Concat(items)| + 1);
    IndexParts(items);
    ItemBetweenOffsets(items, i);
    DataReadsBack(IndexBytes(items), Card16(|items|) + [size], Offsets(items), Concat(items), size,
      Offsets(items)[i], Offsets(items)[i + 1], items[i]);
  }

  /**
   * How a reader finds an item of an INDEX with `n` offsets: the data starts
   * after the header and the `n` fields of the size in byte 2, offsets count
   * from 1 there, and the bytes from offset `lo` to offset `hi` are `x`.
   */
  predicate ItemFieldReads(b: seq<byte>, n: nat, lo: nat, hi: nat, x: seq<byte>)
  {
    |b| > 2 && var d := 2 + Width(n, b[2] as nat);
    && 1 <= lo <= hi && d + hi <= |b|
    && b[d + lo..d + hi] == x
  }

  /** The data of an INDEX laid out as header, offset array and data reads back between two offsets. */
  lemma DataReadsBack(b: seq<byte>, a: seq<byte>, offsets: seq<nat>, c: seq<byte>, size: byte, lo: nat, hi: nat, x: seq<byte>)
    requires b == a + OffsetArray(offsets, size as nat) + c && |a| == 3 && a[2] == size
    requires 1 <= lo <= hi <= |c| + 1 && c[lo - 1..hi - 1] == x
    ensures ItemFieldReads(b, |offsets|, lo, hi, x)
  {
    var head := a + OffsetArray(offsets, size as nat);
    OffsetArrayLength(offsets, size as nat);
    FieldOfParts(b, a, OffsetArray(offsets, size as nat), c, 0, 0);
    SliceIn(head, c, [], lo - 1, hi - 1);
    assert head + c + [] == b;
  }

  /** A slice of the middle part of a concatenation. */
  lemma SliceIn(a: seq<byte>, m: seq<byte>, c: seq<byte>, lo: nat, hi: nat)
    requires lo <= hi <= |m|
    ensures (a + m + c)[|a| + lo..|a| + hi] == m[lo..hi]
  {
  }

  /** A one-item INDEX, as `WriteName` and `WriteTopIndex` write it field by field. */
  lemma SingleItemIndex(x: seq<byte>)
    ensures var size := OffsetSize(|x| + 1);
      IndexBytes([x]) == Card16(1) + [size] + Offset(1, size) + Offset(|x| + 1, size) + x
  {
    ConcatOne(x);
    assert Starts([x]) == [1];
    var size := OffsetSize(|x| + 1);
    assert Offsets([x]) == [1, |x| + 1];
    OffsetArraySnoc([1], size, |x| + 1);
    OffsetArraySnoc([], size, 1);
    assert [1] == [] + [1];
    assert [1, |x| + 1] == [1] + [|x| + 1];
  }

  // ----- DICT data (section 4 of TN #5176) -----

  /** A DICT entry as the font reader keeps it: its key and its operands, already encoded. */
  datatype DictItem = DictItem(op: nat, operands: seq<byte>)

  /** `WriteDictItems`: the operands, then the operator. */
  function ItemBytes(item: DictItem): seq<byte>
  {
    item.operands + DictOperator(item.op)
  }

  /** A DICT: its entries one after the other. */
  function DictBytes(items: seq<DictItem>): seq<byte>
  {
    if items == [] then [] else DictBytes(items[..|items| - 1]) + ItemBytes(items[|items| - 1])
  }

  /** Keys increase, as a `std::map` iterates them. */
  predicate KeysIncrease(items: seq<DictItem>)
  {
    forall i, j :: 0 <= i < j < |items| ==> items[i].op < items[j].op
  }

  /** `find`: the entry with key `op`. */
  function Find(items: seq<DictItem>, op: nat): (r: Option<DictItem>)
    ensures r.Some? ==> r.value in items && r.value.op == op
    ensures r.None? ==> forall i :: 0 <= i < |items| ==> items[i].op != op
  {
    if items == [] then None
    else if items[0].op == op then Some(items[0])
    else
      var r := Find(items[1..], op);
      assert r.None? ==> forall i :: 1 <= i < |items| ==> items[i] == items[1..][i - 1];
      r
  }

  /** The entries except those of key `op` (the filter of `WritePrivateDictionaryBody` and of `WriteFDArray`). */
  function Without(items: seq<DictItem>, op: nat): (r: seq<DictItem>)
  {
    if items == [] then []
    else
      var r := Without(items[..|items| - 1], op);
      if items[|items| - 1].op == op then r else r + [items[|items| - 1]]
  }

  /** `WriteTopDictSegment`'s filter: the entries it writes itself are dropped. */
  function KeptTopItems(items: seq<DictItem>): (r: seq<DictItem>)
  {
    if items == [] then []
    else
      var r := KeptTopItems(items[..|items| - 1]);
      if IsOffsetKey(items[|items| - 1].op) then r else r + [items[|items| - 1]]
  }

  const ROS: nat := 0xC1E
  const CharsetKey: nat := 15
  const EncodingKey: nat := 16
  const CharStringsKey: nat := 17
  const PrivateKey: nat := 18
  const SubrsKey: nat := 19
  const FDArrayKey: nat := 0xC24
  const FDSelectKey: nat := 0xC25
  const PostScriptKey: nat := 0xC15
  /** `N_STD_STRINGS`: the SIDs the standard strings take before the font's own. */
  const StandardStrings: nat := 391

  /** The keys `WriteTopDictSegment` does not copy. */
  predicate IsOffsetKey(op: nat)
  {
    op == ROS || op == CharsetKey || op == EncodingKey || op == CharStringsKey || op == PrivateKey
    || op == FDArrayKey || op == FDSelectKey
  }

  lemma {:induction false} KeptTopItemsMembers(items: seq<DictItem>)
    ensures forall x :: x in KeptTopItems(items) <==> x in items && !IsOffsetKey(x.op)
    decreases |items|
  {
    if items != [] {
      var init := items[..|items| - 1];
      KeptTopItemsMembers(init);
      assert items == init + [items[|items| - 1]];
    }
  }

  lemma {:induction false} WithoutMembers(items: seq<DictItem>, op: nat)
    ensures forall x :: x in Without(items, op) <==> x in items && x.op != op
    decreases |items|
  {
    if items != [] {
      var init := items[..|items| - 1];
      WithoutMembers(init, op);
      assert items == init + [items[|items| - 1]];
    }
  }

  /** Filtering keeps the order of the entries it keeps. */
  lemma {:induction false} KeptTopItemsOrdered(items: seq<DictItem>)
    requires KeysIncrease(items)
    ensures KeysIncrease(KeptTopItems(items))
    decreases |items|
  {
    if items != [] {
      var init := items[..|items| - 1];
      var last := items[|items| - 1];
      assert KeysIncrease(init);
      KeptTopItemsOrdered(init);
      KeptTopItemsMembers(init);
      var r := KeptTopItems(init);
      if !IsOffsetKey(last.op) {
        forall i, j | 0 <= i < j < |r + [last]|
          ensures (r + [last])[i].op < (r + [last])[j].op
        {
          if j == |r| {
            assert r[i] in r;
            var k :| 0 <= k < |init| && init[k] == r[i];
            assert items[k] == r[i];
          }
        }
      }
    }
  }

  lemma DictBytesSnoc(items: seq<DictItem>, x: DictItem)
    ensures DictBytes(items + [x]) == DictBytes(items) + ItemBytes(x)
  {
    assert (items + [x])[..|items|] == items;
  }

  // ----- the font as the reader delivers it -----

  /** `PrivateDictInfo`: where the private DICT was in the source font (`mPrivateDictStart`, 0 for none) and its entries. */
  datatype PrivateDict = PrivateDict(start: nat, items: seq<DictItem>)

  /** `FontDictInfo`: a font DICT of a CID font's FDArray and its private DICT. */
  datatype FontDict = FontDict(items: seq<DictItem>, privateDict: PrivateDict)

  /** `EncodingsInfo`: `mEncodingStart` (0 and 1 name the predefined encodings), the format-0 codes and the supplements by SID. */
  datatype Encoding = Encoding(start: nat, count: byte, codes: seq<byte>, supplements: map<card16, seq<byte>>)

  /**
   * What `OpenTypeFileInput` reads from the font file, as far as the writer
   * uses it. The glyph-indexed tables give the outcomes of the code the
   * writer calls on each glyph: `dependencies` is
   * `CalculateDependenciesForCharIndex`'s (None when it fails), `charStrings`
   * is `CharStringType2Flattener`'s flattened program (None when it fails),
   * `glyphSIDs` is `GetGlyphSID`'s, and `fdSelect` is `mFDSelect`, naming a
   * font DICT by its place in `fontDicts` (None for a null pointer).
   */
  datatype CFFInput = CFFInput(
    header: seq<byte>,
    names: seq<seq<byte>>,
    topDict: seq<DictItem>,
    strings: seq<seq<byte>>,
    stringIndex: seq<byte>,
    dependencies: seq<Option<seq<nat>>>,
    charStrings: seq<Option<seq<byte>>>,
    glyphSIDs: seq<card16>,
    encoding: Encoding,
    privateDict: PrivateDict,
    fdSelect: seq<Option<nat>>,
    fontDicts: seq<FontDict>,
    fsType: Option<card16>)
  {
    /** `mOS2Exists`, with `mOS2.fsType` in it. */
    predicate HasOs2() { fsType.Some? }

    predicate WellFormed()
    {
      && |names| > 0 && KeysIncrease(topDict) && |strings| < 0x1_0000
      && (forall i :: 0 <= i < |strings| ==> 0 !in strings[i])
      && |encoding.codes| >= encoding.count
      && (forall g :: 0 <= g < |fdSelect| && fdSelect[g].Some? ==> fdSelect[g].value < |fontDicts|)
    }
  }

  /** A glyph's entry in a glyph-indexed table; an id past its end (undefined behaviour in the source) finds nothing. */
  function DependenciesOf(f: CFFInput, g: nat): Option<seq<nat>>
  {
    if g < |f.dependencies| then f.dependencies[g] else None
  }

  function CharStringOf(f: CFFInput, g: nat): Option<seq<byte>>
  {
    if g < |f.charStrings| then f.charStrings[g] else None
  }

  function SIDOf(f: CFFInput, g: nat): card16
  {
    if g < |f.glyphSIDs| then f.glyphSIDs[g] else 0
  }

  function FDOf(f: CFFInput, g: nat): Option<nat>
  {
    if g < |f.fdSelect| then f.fdSelect[g] else None
  }

  /** `mIsCID`: the top DICT has a ROS entry. */
  predicate IsCID(f: CFFInput)
  {
    Find(f.topDict, ROS).Some?
  }

  predicate HasPrivate(f: CFFInput)
  {
    f.privateDict.start != 0
  }

  /** The top DICT lacks embedded PostScript while an OS/2 table exists: the writer adds the fsType as PostScript. */
  predicate AddsFSType(f: CFFInput)
  {
    Find(f.topDict, PostScriptKey).None? && f.HasOs2()
  }

  /** `mOptionalEmbeddedPostscript`: `/FSType <n> def`, or nothing. */
  function FSTypeText(f: CFFInput): (r: seq<byte>)
    ensures r != [] <==> AddsFSType(f)
  {
    if AddsFSType(f) then FSTypePostScript(f.fsType.value) else []
  }

  /** The PostScript `/FSType <n> def`, n in decimal. */
  function FSTypePostScript(fsType: nat): (r: seq<byte>)
    ensures r != []
  {
    Ascii("/FSType ") + XrefFormat.Decimal(fsType) + Ascii(" def")
  }

  // ----- the top DICT -----

  /** The part of the new top DICT before the placeholders: ROS first, the copied entries, then the fsType PostScript, whose SID is the string added last. */
  function TopDictHead(f: CFFInput, cid: bool): seq<byte>
  {
    (if cid && Find(f.topDict, ROS).Some? then ItemBytes(Find(f.topDict, ROS).value) else [])
    + DictBytes(KeptTopItems(f.topDict))
    + (if AddsFSType(f) then IntegerOperand(|f.strings| + StandardStrings) + DictOperator(PostScriptKey) else [])
  }

  /** The placeholders: charset, CharStrings, Private (size and offset) when there is one, then FDArray and FDSelect for a CID font or Encoding otherwise. */
  function TopDictTail(f: CFFInput, cid: bool): seq<byte>
  {
    FixedSlots() + PrivateSlot(f) + LastSlots(cid)
  }

  function FixedSlots(): seq<byte>
  {
    Pad5 + DictOperator(CharsetKey) + Pad5 + DictOperator(CharStringsKey)
  }

  function PrivateSlot(f: CFFInput): seq<byte>
  {
    if HasPrivate(f) then Pad5 + Pad5 + DictOperator(PrivateKey) else []
  }

  function LastSlots(cid: bool): seq<byte>
  {
    if cid then Pad5 + DictOperator(FDArrayKey) + Pad5 + DictOperator(FDSelectKey)
    else Pad5 + DictOperator(EncodingKey)
  }

  /** Where each placeholder starts (0 for one not written) in a segment whose placeholders follow `head` bytes. */
  datatype Placeholders = Placeholders(
    charset: nat, encoding: nat, charStrings: nat, privateDict: nat, fdArray: nat, fdSelect: nat)
  {
    function Shift(d: nat): Placeholders
    {
      Placeholders(charset + d, encoding + d, charStrings + d, privateDict + d, fdArray + d, fdSelect + d)
    }
  }

  function TopDictPlaceholders(f: CFFInput, cid: bool, head: nat): Placeholders
  {
    var rest := head + 12 + (if HasPrivate(f) then 11 else 0);
    Placeholders(
      head,
      if cid then 0 else rest,
      head + 6,
      if HasPrivate(f) then head + 12 else 0,
      if cid then rest else 0,
      if cid then rest + 7 else 0)
  }

  /** The operator `op` is written at `q`. */
  predicate OperatorAt(s: seq<byte>, q: nat, op: nat)
  {
    if op < 256 then q < |s| && s[q] == op
    else q + 1 < |s| && s[q] == (op / 256) % 256 && s[q + 1] == op % 256
  }

  /** An operand of `width` bytes at `p`, followed by the operator `op`. */
  predicate Slot(s: seq<byte>, p: nat, width: nat, op: nat)
  {
    OperatorAt(s, p + width, op)
  }

  /** Every placeholder `TopDictPlaceholders` records is a five-byte slot before its operator (ten bytes for Private). */
  lemma TopDictSlots(f: CFFInput, cid: bool)
    ensures var head := TopDictHead(f, cid); var seg := head + TopDictTail(f, cid);
      var ph := TopDictPlaceholders(f, cid, |head|);
      && Slot(seg, ph.charset, 5, CharsetKey) && Slot(seg, ph.charStrings, 5, CharStringsKey)
      && (HasPrivate(f) ==> Slot(seg, ph.privateDict, 10, PrivateKey))
      && (cid ==> Slot(seg, ph.fdArray, 5, FDArrayKey) && Slot(seg, ph.fdSelect, 5, FDSelectKey))
      && (!cid ==> Slot(seg, ph.encoding, 5, EncodingKey))
  {
    var head := TopDictHead(f, cid);
    var tail := TopDictTail(f, cid);
    var ph := TopDictPlaceholders(f, cid, 0);
    TailSlots(f, cid);
    SlotShift(head, tail, ph.charset, 5, CharsetKey);
    SlotShift(head, tail, ph.charStrings, 5, CharStringsKey);
    if HasPrivate(f) {
      SlotShift(head, tail, ph.privateDict, 10, PrivateKey);
    }
    if cid {
      SlotShift(head, tail, ph.fdArray, 5, FDArrayKey);
      SlotShift(head, tail, ph.fdSelect, 5, FDSelectKey);
    } else {
      SlotShift(head, tail, ph.encoding, 5, EncodingKey);
    }
  }

  lemma TailSlots(f: CFFInput, cid: bool)
    ensures var tail := TopDictTail(f, cid); var ph := TopDictPlaceholders(f, cid, 0);
      && Slot(tail, ph.charset, 5, CharsetKey) && Slot(tail, ph.charStrings, 5, CharStringsKey)
      && (HasPrivate(f) ==> Slot(tail, ph.privateDict, 10, PrivateKey))
      && (cid ==> Slot(tail, ph.fdArray, 5, FDArrayKey) && Slot(tail, ph.fdSelect, 5, FDSelectKey))
      && (!cid ==> Slot(tail, ph.encoding, 5, EncodingKey))
  {
    var a, p, q := FixedSlots(), PrivateSlot(f), LastSlots(cid);
    assert |a| == 12 && |p| == (if HasPrivate(f) then 11 else 0);
    assert Slot(a, 0, 5, CharsetKey) && Slot(a, 6, 5, CharStringsKey);
    AppendAssoc(a, p, q);
    SlotPrefix(a, p + q, 0, 5, CharsetKey);
    SlotPrefix(a, p + q, 6, 5, CharStringsKey);
    if HasPrivate(f) {
      assert Slot(p, 0, 10, PrivateKey);
      SlotPrefix(p, q, 0, 10, PrivateKey);
      SlotShift(a, p + q, 0, 10, PrivateKey);
    }
    if cid {
      assert Slot(q, 0, 5, FDArrayKey) && Slot(q, 7, 5, FDSelectKey);
      SlotShift(a + p, q, 0, 5, FDArrayKey);
      SlotShift(a + p, q, 7, 5, FDSelectKey);
    } else {
      assert Slot(q, 0, 5, EncodingKey);
      SlotShift(a + p, q, 0, 5, EncodingKey);
    }
  }

  lemma SlotShift(pre: seq<byte>, s: seq<byte>, p: nat, width: nat, op: nat)
    requires Slot(s, p, width, op)
    ensures Slot(pre + s, |pre| + p, width, op)
  {
  }

  lemma SlotPrefix(s: seq<byte>, post: seq<byte>, p: nat, width: nat, op: nat)
    requires Slot(s, p, width, op)
    ensures Slot(s + post, p, width, op)
  {
  }

  /** The segment `WriteTopDictSegment` builds. */
  function TopDictSegment(f: CFFInput, cid: bool): seq<byte>
  {
    TopDictHead(f, cid) + TopDictTail(f, cid)
  }

  /** The placeholders lie one after the other, as the tail lays them out. */
  predicate Layout(ph: Placeholders, f: CFFInput, cid: bool)
  {
    var rest := ph.charset + 12 + (if HasPrivate(f) then 11 else 0);
    && ph.charStrings == ph.charset + 6
    && (HasPrivate(f) ==> ph.privateDict == ph.charset + 12)
    && (cid ==> ph.fdArray == rest && ph.fdSelect == rest + 7)
    && (!cid ==> ph.encoding == rest)
  }

  /** The placeholders of the layout are slots of `s`. */
  predicate SlotsReady(s: seq<byte>, ph: Placeholders, f: CFFInput, cid: bool)
  {
    && Slot(s, ph.charset, 5, CharsetKey) && Slot(s, ph.charStrings, 5, CharStringsKey)
    && (HasPrivate(f) ==> Slot(s, ph.privateDict, 10, PrivateKey))
    && (cid ==> Slot(s, ph.fdArray, 5, FDArrayKey) && Slot(s, ph.fdSelect, 5, FDSelectKey))
    && (!cid ==> Slot(s, ph.encoding, 5, EncodingKey))
  }

  /** Bytes written before and after a segment move its slots by the length of what precedes it. */
  lemma SlotsMove(pre: seq<byte>, s: seq<byte>, post: seq<byte>, ph: Placeholders, f: CFFInput, cid: bool)
    requires SlotsReady(s, ph, f, cid)
    ensures SlotsReady(pre + s + post, ph.Shift(|pre|), f, cid)
  {
    var d := |pre|;
    var q := ph.Shift(d);
    SlotShift(pre, s, ph.charset, 5, CharsetKey);
    SlotPrefix(pre + s, post, q.charset, 5, CharsetKey);
    SlotShift(pre, s, ph.charStrings, 5, CharStringsKey);
    SlotPrefix(pre + s, post, q.charStrings, 5, CharStringsKey);
    if HasPrivate(f) {
      SlotShift(pre, s, ph.privateDict, 10, PrivateKey);
      SlotPrefix(pre + s, post, q.privateDict, 10, PrivateKey);
    }
    if cid {
      SlotShift(pre, s, ph.fdArray, 5, FDArrayKey);
      SlotPrefix(pre + s, post, q.fdArray, 5, FDArrayKey);
      SlotShift(pre, s, ph.fdSelect, 5, FDSelectKey);
      SlotPrefix(pre + s, post, q.fdSelect, 5, FDSelectKey);
    } else {
      SlotShift(pre, s, ph.encoding, 5, EncodingKey);
      SlotPrefix(pre + s, post, q.encoding, 5, EncodingKey);
    }
  }

  /** The name `WriteName` puts in the Name INDEX: the subset name, or the font's first name when none is given. */
  function FontName(f: CFFInput, subsetFontName: seq<byte>): seq<byte>
    requires |f.names| > 0
  {
    if subsetFontName == [] then f.names[0] else subsetFontName
  }

  /** Where the tables the top DICT points to were written, and the private DICT's size. */
  datatype Positions = Positions(
    charset: nat, encoding: nat, charStrings: nat, privateDict: nat, privateSize: nat, fdArray: nat, fdSelect: nat)

  /** The length of the data of an INDEX holding `items`, summed item by item. */
  method DataLength(items: seq<seq<byte>>) returns (total: nat)
    ensures total == |Concat(items)|
  {
    total := 0;
    var i := 0;
    while i < |items|
      invariant i <= |items| && total == |Concat(items[..i])|
    {
      StringsStep(items, i);
      total := total + |items[i]|;
      i := i + 1;
    }
    assert items[..i] == items;
  }

  lemma StringsStep(strings: seq<seq<byte>>, i: nat)
    requires i < |strings|
    ensures Concat(strings[..i + 1]) == Concat(strings[..i]) + strings[i]
    ensures Starts(strings[..i + 1]) == Starts(strings[..i]) + [|Concat(strings[..i])| + 1]
  {
    assert strings[..i + 1] == strings[..i] + [strings[i]];
    StartsSnoc(strings[..i], strings[i]);
  }

  /** The String INDEX with one more string, in the order `WriteStringIndex` writes its parts after `before`. */
  lemma StringIndexBytes(before: seq<byte>, strings: seq<seq<byte>>, ps: seq<byte>)
    ensures var c := |Concat(strings)|; var size := OffsetSize(c + |ps| + 1);
      before + IndexBytes(strings + [ps])
      == before + (Card16(|strings| + 1) + [size]) + OffsetArray(Starts(strings), size)
         + Offset(c + 1, size) + Offset(c + |ps| + 1, size) + Concat(strings) + ps
  {
    var c := |Concat(strings)|;
    var size := OffsetSize(c + |ps| + 1);
    var head := Card16(|strings| + 1) + [size];
    var a, b, d := OffsetArray(Starts(strings), size), Offset(c + 1, size), Offset(c + |ps| + 1, size);
    IndexSnocParts(strings, ps);
    Flatten(before, head, a, b, d, Concat(strings), ps);
  }

  /** The parts of an INDEX after `before`, as a flat run. */
  lemma Flatten(before: seq<byte>, head: seq<byte>, a: seq<byte>, b: seq<byte>, d: seq<byte>, data: seq<byte>, ps: seq<byte>)
    ensures before + (head + (a + b + d) + (data + ps)) == before + head + a + b + d + data + ps
  {
    AppendAssoc(before, head + (a + b + d), data + ps);
    AppendAssoc(before, head, a + b + d);
    var x := before + head;
    AppendAssoc(x, a + b, d);
    AppendAssoc(x, a, b);
    AppendAssoc(x + a + b + d, data, ps);
  }

  /** A non-empty INDEX with one more item: its head, its offsets and its data. */
  lemma IndexSnocParts(strings: seq<seq<byte>>, ps: seq<byte>)
    ensures var c := |Concat(strings)|; var size := OffsetSize(c + |ps| + 1);
      IndexBytes(strings + [ps])
      == (Card16(|strings| + 1) + [size])
         + (OffsetArray(Starts(strings), size) + Offset(c + 1, size) + Offset(c + |ps| + 1, size))
         + (Concat(strings) + ps)
  {
    var c := |Concat(strings)|;
    var all := strings + [ps];
    StartsSnoc(strings, ps);
    var size := OffsetSize(c + |ps| + 1);
    var starts := Starts(strings) + [c + 1];
    assert Offsets(all) == starts + [c + |ps| + 1];
    OffsetArraySnoc(starts, size, c + |ps| + 1);
    OffsetArraySnoc(Starts(strings), size, c + 1);
    var o := OffsetArray(Offsets(all), size);
    assert |Concat(all)| + 1 == c + |ps| + 1;
    assert IndexBytes(all) == Card16(|all|) + [size] + o + Concat(all);
    AppendAssoc(Card16(|all|), [size], o);
  }

  /** The bytes `WriteStringIndex` writes after `before` are that String INDEX. */
  lemma StringIndexWritten(written: seq<byte>, before: seq<byte>, strings: seq<seq<byte>>, ps: seq<byte>, size: byte)
    requires var c := |Concat(strings)|;
      && size == OffsetSize(c + |ps| + 1)
      && written == before + Card16(|strings| + 1) + [size] + OffsetArray(Starts(strings), size) + Offset(c + 1, size)
         + Offset(c + |ps| + 1, size) + Concat(strings) + ps
    ensures written == before + IndexBytes(strings + [ps])
  {
    AppendAssoc(before, Card16(|strings| + 1), [size]);
    StringIndexBytes(before, strings, ps);
  }

  /** The segment built piece by piece is the head and the tail. */
  lemma TailAssembly(head: seq<byte>, f: CFFInput, cid: bool, segment: seq<byte>)
    requires cid ==> segment == head + FixedSlots() + PrivateSlot(f) + (Pad5 + DictOperator(FDArrayKey))
                                + (Pad5 + DictOperator(FDSelectKey))
    requires !cid ==> segment == head + FixedSlots() + PrivateSlot(f) + (Pad5 + DictOperator(EncodingKey))
    ensures segment == head + TopDictTail(f, cid)
  {
    var a, p, q := FixedSlots(), PrivateSlot(f), LastSlots(cid);
    if cid {
      AppendAssoc(head + a + p, Pad5 + DictOperator(FDArrayKey), Pad5 + DictOperator(FDSelectKey));
    }
    assert segment == head + a + p + q;
    AppendAssoc(head + a, p, q);
    AppendAssoc(head, a, p + q);
  }

  /** The slots of a segment, moved to where a one-item INDEX holding it puts its data. */
  lemma IndexedSlots(before: seq<byte>, segment: seq<byte>, ph: Placeholders, f: CFFInput, cid: bool)
    requires SlotsReady(segment, ph, f, cid) && Layout(ph, f, cid)
    ensures var d := |before| + 3 + 2 * OffsetSize(|segment| + 1);
      SlotsReady(before + IndexBytes([segment]), ph.Shift(d), f, cid) && Layout(ph.Shift(d), f, cid)
  {
    var size := OffsetSize(|segment| + 1);
    var header := Card16(1) + [size] + Offset(1, size) + Offset(|segment| + 1, size);
    SingleItemIndex(segment);
    AppendAssoc(before, header, segment);
    PrefixedSlots(before, header, segment, before + IndexBytes([segment]), |before| + 3 + 2 * size, ph, f, cid);
  }

  /** The slots of a segment, in a sequence where `d` bytes precede it. */
  lemma PrefixedSlots(before: seq<byte>, header: seq<byte>, segment: seq<byte>, whole: seq<byte>, d: nat,
                      ph: Placeholders, f: CFFInput, cid: bool)
    requires whole == before + header + segment && d == |before| + |header|
    requires SlotsReady(segment, ph, f, cid) && Layout(ph, f, cid)
    ensures SlotsReady(whole, ph.Shift(d), f, cid) && Layout(ph.Shift(d), f, cid)
  {
    AppendEmpty(whole);
    SlotsMove(before + header, segment, [], ph, f, cid);
    LayoutShift(ph, f, cid, d);
  }

  /** Moving every placeholder by the same distance keeps the layout. */
  lemma LayoutShift(ph: Placeholders, f: CFFInput, cid: bool, d: nat)
    requires Layout(ph, f, cid)
    ensures Layout(ph.Shift(d), f, cid)
  {
  }

  /** The placeholders of the Top DICT segment, moved to where a Top DICT INDEX written at `at` puts its data. */
  function TopIndexPlaceholders(f: CFFInput, cid: bool, at: nat): Placeholders
  {
    TopDictPlaceholders(f, cid, |TopDictHead(f, cid)|).Shift(at + 3 + 2 * OffsetSize(|TopDictSegment(f, cid)| + 1))
  }

  /** Shifting the segment's placeholders by where a one-item INDEX written at `at` starts its data. */
  lemma TopIndexShift(f: CFFInput, cid: bool, at: nat, segment: seq<byte>, ph: Placeholders, dataOffset: nat)
    requires segment == TopDictSegment(f, cid) && ph == TopDictPlaceholders(f, cid, |TopDictHead(f, cid)|)
    requires dataOffset == at + 3 + 2 * OffsetSize(|segment| + 1)
    ensures ph.Shift(dataOffset) == TopIndexPlaceholders(f, cid, at)
  {
  }

  /** The moved placeholders are slots of the Top DICT INDEX, laid out as the segment lays them out. */
  lemma TopIndexSlots(before: seq<byte>, f: CFFInput, cid: bool)
    ensures var ph := TopIndexPlaceholders(f, cid, |before|);
      SlotsReady(before + IndexBytes([TopDictSegment(f, cid)]), ph, f, cid) && Layout(ph, f, cid)
  {
    var ph := TopDictPlaceholders(f, cid, |TopDictHead(f, cid)|);
    var segment := TopDictSegment(f, cid);
    var whole := before + IndexBytes([segment]);
    var moved := ph.Shift(|before| + 3 + 2 * OffsetSize(|segment| + 1));
    assert moved == TopIndexPlaceholders(f, cid, |before|);
    TopDictSlots(f, cid);
    assert SlotsReady(segment, ph, f, cid);
    TopDictLayout(f, cid, |TopDictHead(f, cid)|);
    IndexedSlots(before, segment, ph, f, cid);
    assert SlotsReady(whole, moved, f, cid);
  }

  lemma TopDictLayout(f: CFFInput, cid: bool, head: nat)
    ensures Layout(TopDictPlaceholders(f, cid, head), f, cid)
  {
  }
}
