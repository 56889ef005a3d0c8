/**
 * Byte-level layer of the TrueType subset writer: the big-endian fields of
 * the OpenType file format, patching bytes in place, the table checksum, and
 * the contents of the tables the writer rebuilds rather than copies.
 */
module TrueTypeTables {
  import opened Common

  type uint16 = x: int | 0 <= x < 0x10000
  type int16 = x: int | -0x8000 <= x < 0x8000

  const TwoTo32: nat := 0x1_0000_0000

  /** The value the whole-file checksum must reach (the head table's checksumAdjustment rule). */
  const ChecksumMagic: nat := 0xB1B0AFBA

  function Pow2(k: nat): (r: nat)
    ensures r >= 1
  {
    if k == 0 then 1 else 2 * Pow2(k - 1)
  }

  // ----- big-endian fields -----

  /** `WriteUSHORT`/`WriteSHORT`: the low 16 bits, high byte first (two's complement for negatives). */
  function Be16(v: int): (r: seq<byte>)
    ensures |r| == 2
  {
    [(v / 256) % 256, v % 256]
  }

  /** `WriteULONG`: the low 32 bits, high byte first. */
  function Be32(v: int): (r: seq<byte>)
    ensures |r| == 4
  {
    var b1 := v / 256;
    var b2 := b1 / 256;
    var b3 := b2 / 256;
    [b3 % 256, b2 % 256, b1 % 256, v % 256]
  }

  /** `ReadULONG` at offset `p`. */
  function ReadBe32(s: seq<byte>, p: nat): (v: nat)
    requires p + 4 <= |s|
    ensures v < TwoTo32
  {
    ((s[p] as int * 256 + s[p + 1] as int) * 256 + s[p + 2] as int) * 256 + s[p + 3] as int
  }

  /** Reading back a written ULONG gives the value modulo 2^32. */
  lemma ReadWrittenBe32(v: int)
    ensures ReadBe32(Be32(v), 0) == v % TwoTo32
  {
    var b1 := v / 256;
    var b2 := b1 / 256;
    var b3 := b2 / 256;
    var b4 := b3 / 256;
    assert v == b1 * 256 + v % 256;
    assert b1 == b2 * 256 + b1 % 256;
    assert b2 == b3 * 256 + b2 % 256;
    assert b3 == b4 * 256 + b3 % 256;
    var low := ((b3 % 256 * 256 + b2 % 256) * 256 + b1 % 256) * 256 + v % 256;
    assert v == b4 * TwoTo32 + low;
    assert 0 <= low < TwoTo32;
  }

  /** Writing back a read ULONG gives the same four bytes. */
  lemma WrittenReadBe32(b: seq<byte>)
    requires |b| == 4
    ensures Be32(ReadBe32(b, 0)) == b
  {
    var v := ReadBe32(b, 0);
    var b1 := v / 256;
    var b2 := b1 / 256;
    var b3 := b2 / 256;
    var x0, x1, x2, x3 := b[0] as int, b[1] as int, b[2] as int, b[3] as int;
    assert v == ((x0 * 256 + x1) * 256 + x2) * 256 + x3;
    assert v % 256 == x3 && b1 == (x0 * 256 + x1) * 256 + x2;
    assert b1 % 256 == x2 && b2 == x0 * 256 + x1;
    assert b2 % 256 == x1 && b3 == x0;
  }

  // ----- padding -----

  /** `(n + 3) & ~3`: `n` rounded up to a multiple of four. */
  function Round4(n: nat): (r: nat)
    ensures r % 4 == 0 && n <= r < n + 4
    ensures n % 4 == 0 ==> r == n
  {
    (n + 3) / 4 * 4
  }

  /** `PadTo4`: the zero bytes that take a stream of length `n` to a multiple of four. */
  function Padding(n: nat): (r: seq<byte>)
    ensures (n + |r|) % 4 == 0 && |r| < 4
    ensures forall i :: 0 <= i < |r| ==> r[i] == 0
  {
    seq((4 - n % 4) % 4, _ => 0)
  }

  /** At a word-aligned offset there is nothing to pad. */
  lemma PaddingAligned(n: nat, k: nat)
    requires n == 4 * k
    ensures n % 4 == 0 && Padding(n) == []
  {
  }

  /** Twelve zero bytes: `Pad(12)`, the placeholder of a table entry. */
  const EntryPlaceholder: seq<byte> := [0, 0, 0, 0, 0, 0, 0, 0, 0, 0, 0, 0]

  // ----- checksums -----

  /** The sum of `k` big-endian ULONGs starting at `p`. */
  function WordSum(s: seq<byte>, p: nat, k: nat): nat
    requires p + 4 * k <= |s|
    decreases k
  {
    if k == 0 then 0 else ReadBe32(s, p) + WordSum(s, p + 4, k - 1)
  }

  /**
   * The OpenType table checksum: the sum of every ULONG of the table,
   * the table taken padded to a multiple of four bytes.
   */
  function CheckSum(s: seq<byte>, offset: nat, length: nat): nat
    requires offset + Round4(length) <= |s|
  {
    WordSum(s, offset, Round4(length) / 4)
  }

  /**
   * The number of ULONGs `GetCheckSum` reads as written: its loop steps the
   * position by four bytes but stops at `offset + Round4(length) / 4`.
   */
  function WordsReadAsWritten(length: nat): (k: nat)
    ensures 4 * k <= Round4(length)
  {
    (Round4(length) / 4 + 3) / 4
  }

  /** The sum `GetCheckSum` computes as written. */
  function CheckSumAsWritten(s: seq<byte>, offset: nat, length: nat): nat
    requires offset + Round4(length) <= |s|
  {
    WordSum(s, offset, WordsReadAsWritten(length))
  }

  /** For every table longer than one ULONG the loop as written stops before the end. */
  lemma CheckSumAsWrittenStopsEarly(length: nat)
    requires length > 4
    ensures WordsReadAsWritten(length) < Round4(length) / 4
  {
  }

  /** An eight-byte table whose second ULONG is 1: the checksum as written misses it. */
  lemma CheckSumAsWrittenMissesSecondWord()
    ensures CheckSumAsWritten([0, 0, 0, 0, 0, 0, 0, 1], 0, 8) == 0
    ensures CheckSum([0, 0, 0, 0, 0, 0, 0, 1], 0, 8) == 1
  {
    var s: seq<byte> := [0, 0, 0, 0, 0, 0, 0, 1];
    assert WordsReadAsWritten(8) == 1 && Round4(8) / 4 == 2;
    assert ReadBe32(s, 0) == 0 && ReadBe32(s, 4) == 1;
    assert WordSum(s, 8, 0) == 0 && WordSum(s, 4, 0) == 0;
    assert WordSum(s, 4, 1) == 1;
  }

  /** Word sums only look at the bytes they cover. */
  lemma {:induction false} WordSumAgree(s: seq<byte>, t: seq<byte>, p: nat, k: nat)
    requires p + 4 * k <= |s| && p + 4 * k <= |t|
    requires forall i :: p <= i < p + 4 * k ==> s[i] == t[i]
    ensures WordSum(s, p, k) == WordSum(t, p, k)
    decreases k
  {
    if k > 0 {
      assert s[p] == t[p] && s[p + 1] == t[p + 1] && s[p + 2] == t[p + 2] && s[p + 3] == t[p + 3];
      WordSumAgree(s, t, p + 4, k - 1);
    }
  }

  /** Overwriting one aligned ULONG inside the summed range changes the sum by the difference. */
  lemma {:induction false} WordSumPatch(s: seq<byte>, p: nat, k: nat, at: nat, v: int)
    requires p + 4 * k <= |s|
    requires p <= at && at + 4 <= p + 4 * k && (at - p) % 4 == 0
    ensures WordSum(Patch(s, at, Be32(v)), p, k) == WordSum(s, p, k) - ReadBe32(s, at) + v % TwoTo32
    decreases k
  {
    var t := Patch(s, at, Be32(v));
    if at == p {
      assert t[p..p + 4] == Be32(v);
      ReadWrittenBe32(v);
      assert ReadBe32(t, p) == ReadBe32(Be32(v), 0);
      PatchOutside(s, at, Be32(v));
      WordSumAgree(s, t, p + 4, k - 1);
    } else {
      assert t[p] == s[p] && t[p + 1] == s[p + 1] && t[p + 2] == s[p + 2] && t[p + 3] == s[p + 3];
      WordSumPatch(s, p + 4, k - 1, at, v);
    }
  }

  /**
   * The checksumAdjustment rule: with the adjustment word zeroed, writing
   * `0xB1B0AFBA - checksum` into it makes the whole file sum to 0xB1B0AFBA.
   */
  lemma AdjustmentMakesMagic(s: seq<byte>, at: nat)
    requires |s| % 4 == 0 && at % 4 == 0 && at + 4 <= |s|
    requires s[at..at + 4] == [0, 0, 0, 0]
    ensures (ChecksumMagic - CheckSum(s, 0, |s|)) % TwoTo32 < TwoTo32
    ensures CheckSum(Patch(s, at, Be32((ChecksumMagic - CheckSum(s, 0, |s|)) % TwoTo32)), 0, |s|) % TwoTo32
            == ChecksumMagic
  {
    var sum := CheckSum(s, 0, |s|);
    var adj := (ChecksumMagic - sum) % TwoTo32;
    assert Round4(|s|) == |s|;
    assert ReadBe32(s, at) == 0 by {
      assert s[at] == 0 && s[at + 1] == 0 && s[at + 2] == 0 && s[at + 3] == 0;
    }
    WordSumPatch(s, 0, |s| / 4, at, adj);
    assert adj % TwoTo32 == adj;
    AddAdjustment(sum);
  }

  /** The arithmetic behind the checksumAdjustment rule, modulo 2^32. */
  lemma AddAdjustment(sum: nat)
    ensures (sum + (ChecksumMagic - sum) % TwoTo32) % TwoTo32 == ChecksumMagic
  {
    var d := 0xB1B0AFBA - sum;
    var a := d % 0x1_0000_0000;
    var q := d / 0x1_0000_0000;
    assert d == q * 0x1_0000_0000 + a;
    ModShift(0xB1B0AFBA, -q);
    assert sum + a == 0xB1B0AFBA + (-q) * 0x1_0000_0000;
  }

  /** Adding whole multiples of 2^32 leaves a residue unchanged. */
  lemma {:induction false} ModShift(x: int, k: int)
    requires 0 <= x < 0x1_0000_0000
    ensures (x + k * 0x1_0000_0000) % 0x1_0000_0000 == x
    decreases if k < 0 then -k else k
  {
    if k > 0 {
      ModShift(x, k - 1);
      assert x + k * 0x1_0000_0000 == (x + (k - 1) * 0x1_0000_0000) + 0x1_0000_0000;
    } else if k < 0 {
      ModShift(x, k + 1);
      assert x + k * 0x1_0000_0000 == (x + (k + 1) * 0x1_0000_0000) - 0x1_0000_0000;
    }
  }

  // ----- table entries -----

  /** `GetTag`'s bytes: the name, padded with spaces (0x20) to four bytes. */
  function TagBytes(name: seq<byte>): (r: seq<byte>)
    requires |name| <= 4
    ensures |r| == 4 && r[..|name|] == name
    ensures forall i :: |name| <= i < 4 ==> r[i] == 0x20
  {
    name + seq(4 - |name|, _ => 0x20)
  }

  /** A placeholder table entry: the tag, then twelve zero bytes. */
  function EmptyEntry(tag: seq<byte>): (r: seq<byte>)
    requires |tag| <= 4
    ensures |r| == 16
  {
    TagBytes(tag) + EntryPlaceholder
  }

  /**
   * `WriteTableEntryData`: the three ULONGs of a table entry (checksum,
   * offset, unpadded length) written over the placeholder at `entryAt`.
   */
  function EntryPatched(s: seq<byte>, entryAt: nat, checksum: nat, offset: nat, length: nat): (r: seq<byte>)
    requires entryAt + 12 <= |s|
    ensures |r| == |s|
  {
    Patch(s, entryAt, Be32(checksum) + Be32(offset) + Be32(length))
  }

  /**
   * Writing one table: its bytes are appended at the current end, padded to
   * four bytes, and the placeholder entry is patched with its checksum,
   * offset and unpadded length.
   */
  function TableWritten(font: seq<byte>, entryAt: nat, content: seq<byte>): (r: seq<byte>)
    requires entryAt + 12 <= |font| && |font| % 4 == 0
    ensures |r| == |font| + Round4(|content|) && |r| % 4 == 0
  {
    PaddedTable(|font|, |content|);
    var body := font + content + Padding(|font| + |content|);
    EntryPatched(body, entryAt, CheckSum(body, |font|, |content|), |font|, |content|)
  }

  /** A table appended at an aligned offset and padded occupies its rounded-up length. */
  lemma PaddedTable(start: nat, length: nat)
    requires start % 4 == 0
    ensures length + |Padding(start + length)| == Round4(length)
  {
    var a, m := length / 4, length % 4;
    assert length == 4 * a + m && start + length == 4 * (start / 4 + a) + m;
    assert (start + length) % 4 == m;
    if m != 0 {
      assert length + 3 == 4 * (a + 1) + (m - 1);
      assert Round4(length) == 4 * a + 4;
    }
  }

  /** The three ULONGs patched into an entry read back as written. */
  lemma EntryReadsBack(s: seq<byte>, entryAt: nat, checksum: nat, offset: nat, length: nat)
    requires entryAt + 12 <= |s|
    ensures var r := EntryPatched(s, entryAt, checksum, offset, length);
      && ReadBe32(r, entryAt) == checksum % TwoTo32
      && ReadBe32(r, entryAt + 4) == offset % TwoTo32
      && ReadBe32(r, entryAt + 8) == length % TwoTo32
  {
    var r := EntryPatched(s, entryAt, checksum, offset, length);
    assert r[entryAt..entryAt + 12] == Be32(checksum) + Be32(offset) + Be32(length);
    assert r[entryAt..entryAt + 4] == Be32(checksum);
    assert r[entryAt + 4..entryAt + 8] == Be32(offset);
    assert r[entryAt + 8..entryAt + 12] == Be32(length);
    ReadWrittenBe32(checksum);
    ReadWrittenBe32(offset);
    ReadWrittenBe32(length);
    assert ReadBe32(r, entryAt) == ReadBe32(Be32(checksum), 0);
    assert ReadBe32(r, entryAt + 4) == ReadBe32(Be32(offset), 0);
    assert ReadBe32(r, entryAt + 8) == ReadBe32(Be32(length), 0);
  }

  /**
   * What a written table looks like: the table starts at the old end, its
   * bytes follow unchanged, the file stays four-byte aligned, and the entry
   * reads back as (checksum, offset, length).
   */
  lemma TableLayout(font: seq<byte>, entryAt: nat, content: seq<byte>)
    requires entryAt + 12 <= |font| && |font| % 4 == 0
    ensures var r := TableWritten(font, entryAt, content);
      && |r| == |font| + Round4(|content|) && |r| % 4 == 0
      && r[|font|..|font| + |content|] == content
      && r[..entryAt] == font[..entryAt]
      && ReadBe32(r, entryAt) == CheckSum(r, |font|, |content|) % TwoTo32
      && ReadBe32(r, entryAt + 4) == |font| % TwoTo32
      && ReadBe32(r, entryAt + 8) == |content| % TwoTo32
  {
    PaddedTable(|font|, |content|);
    var body := font + content + Padding(|font| + |content|);
    var sum := CheckSum(body, |font|, |content|);
    var r := TableWritten(font, entryAt, content);
    assert r == EntryPatched(body, entryAt, sum, |font|, |content|);
    EntryReadsBack(body, entryAt, sum, |font|, |content|);
    TableBodyKept(font, entryAt, content);
    WordSumAgree(body, r, |font|, Round4(|content|) / 4);
  }

  /** Writing a table's entry leaves the bytes before the entry and the whole appended table as they were. */
  lemma TableBodyKept(font: seq<byte>, entryAt: nat, content: seq<byte>)
    requires entryAt + 12 <= |font| && |font| % 4 == 0
    ensures var body := font + content + Padding(|font| + |content|);
      var r := TableWritten(font, entryAt, content);
      && (forall i :: |font| <= i < |body| ==> r[i] == body[i])
      && r[|font|..|font| + |content|] == content
      && r[..entryAt] == font[..entryAt]
  {
    var body := font + content + Padding(|font| + |content|);
    var r := TableWritten(font, entryAt, content);
    var entry := Be32(CheckSum(body, |font|, |content|)) + Be32(|font|) + Be32(|content|);
    assert r == Patch(body, entryAt, entry);
    PatchOutside(body, entryAt, entry);
    MiddleSlice(font, content, Padding(|font| + |content|));
    PatchElsewhere(body, entryAt, entry, |font|, |font| + |content|);
    PatchElsewhere(body, entryAt, entry, 0, entryAt);
    assert body[..|font|][..entryAt] == font[..entryAt];
  }

  /** Writing a table leaves every existing byte outside its entry alone. */
  lemma TableWrittenKeeps(font: seq<byte>, entryAt: nat, content: seq<byte>, p: nat)
    requires entryAt + 12 <= |font| && |font| % 4 == 0 && p + 4 <= |font|
    requires p + 4 <= entryAt || entryAt + 12 <= p
    ensures TableWritten(font, entryAt, content)[p..p + 4] == font[p..p + 4]
  {
    var body := font + content + Padding(|font| + |content|);
    var r := TableWritten(font, entryAt, content);
    var entry := Be32(CheckSum(body, |font|, |content|)) + Be32(|font|) + Be32(|content|);
    assert r == Patch(body, entryAt, entry);
    PatchOutside(body, entryAt, entry);
    assert forall i :: p <= i < p + 4 ==> r[i] == body[i] == font[i];
  }

  /** The head checksumAdjustment word at `p` lies after the directory, which ends at `directoryEnd`, and is zero. */
  predicate HeadClearIn(font: seq<byte>, directoryEnd: nat, p: nat)
  {
    directoryEnd <= p && p % 4 == 0 && p + 4 <= |font| && font[p..p + 4] == [0, 0, 0, 0]
  }

  /** A zero head word after the directory stays zero when a table is finished. */
  lemma TableWrittenKeepsZero(font: seq<byte>, entryAt: nat, content: seq<byte>, directoryEnd: nat, p: nat)
    requires entryAt + 12 <= directoryEnd && |font| % 4 == 0 && HeadClearIn(font, directoryEnd, p)
    ensures HeadClearIn(TableWritten(font, entryAt, content), directoryEnd, p)
  {
    TableWrittenKeeps(font, entryAt, content, p);
  }

  /** Inside the table just written, the bytes are the table's own. */
  lemma TableWrittenHolds(font: seq<byte>, entryAt: nat, content: seq<byte>, k: nat)
    requires entryAt + 12 <= |font| && |font| % 4 == 0 && k + 4 <= |content|
    ensures TableWritten(font, entryAt, content)[|font| + k..|font| + k + 4] == content[k..k + 4]
  {
    var body := font + content + Padding(|font| + |content|);
    var r := TableWritten(font, entryAt, content);
    var entry := Be32(CheckSum(body, |font|, |content|)) + Be32(|font|) + Be32(|content|);
    assert r == Patch(body, entryAt, entry);
    PatchOutside(body, entryAt, entry);
    assert forall i :: |font| + k <= i < |font| + k + 4 ==> r[i] == body[i] == content[i - |font|];
  }

  // ----- the tables the writer rebuilds -----

  /** head with checksumAdjustment (offset 8) zeroed and indexToLocFormat (offset 50) set to 1, long offsets. */
  function HeadContent(head: seq<byte>): (r: seq<byte>)
    requires |head| >= 52
    ensures |r| == |head| && r[8..12] == [0, 0, 0, 0] && r[50..52] == [0, 1]
    ensures forall i :: 0 <= i < |head| && !(8 <= i < 12) && !(50 <= i < 52) ==> r[i] == head[i]
  {
    Patch(Patch(head, 8, [0, 0, 0, 0]), 50, Be16(1))
  }

  /** After head is written, its checksumAdjustment word is zero. */
  lemma HeadWordZero(font: seq<byte>, entryAt: nat, head: seq<byte>)
    requires entryAt + 12 <= |font| && |font| % 4 == 0 && |head| >= 52
    ensures |font| + 12 <= |TableWritten(font, entryAt, HeadContent(head))|
    ensures TableWritten(font, entryAt, HeadContent(head))[|font| + 8..|font| + 12] == [0, 0, 0, 0]
  {
    TableWrittenHolds(font, entryAt, HeadContent(head), 8);
  }

  /** Offsets stay word-aligned when a multiple of four is added. */
  lemma AlignedSum(a: nat, b: nat)
    requires a % 4 == 0 && b % 4 == 0
    ensures (a + b) % 4 == 0
  {
    assert a == 4 * (a / 4) && b == 4 * (b / 4);
    assert a + b == 4 * (a / 4 + b / 4);
  }

  /** hhea with numberOfHMetrics (its last USHORT) lowered to the glyph count when it is larger. */
  function HheaContent(hhea: seq<byte>, numberOfHMetrics: nat, glyphCount: uint16): (r: seq<byte>)
    requires |hhea| >= 2
    ensures |r| == |hhea|
  {
    if numberOfHMetrics > glyphCount then Patch(hhea, |hhea| - 2, Be16(glyphCount)) else hhea
  }

  /** maxp with numGlyphs (offset 4) set to the glyph count. */
  function MaxpContent(maxp: seq<byte>, glyphCount: uint16): (r: seq<byte>)
    requires |maxp| >= 6
    ensures |r| == |maxp| && r[4..6] == Be16(glyphCount)
    ensures forall i :: 0 <= i < |maxp| && !(4 <= i < 6) ==> r[i] == maxp[i]
  {
    Patch(maxp, 4, Be16(glyphCount))
  }

  /** One hmtx longHorMetric. */
  datatype HMetric = HMetric(advanceWidth: uint16, leftSideBearing: int16)

  /** Full metrics: advance width then left side bearing, for each entry. */
  function MetricPairs(ms: seq<HMetric>): (r: seq<byte>)
    ensures |r| == 4 * |ms|
  {
    if ms == [] then []
    else MetricPairs(ms[..|ms| - 1]) + Be16(ms[|ms| - 1].advanceWidth) + Be16(ms[|ms| - 1].leftSideBearing)
  }

  /** Left side bearings only, for each entry. */
  function Bearings(ms: seq<HMetric>): (r: seq<byte>)
    ensures |r| == 2 * |ms|
  {
    if ms == [] then [] else Bearings(ms[..|ms| - 1]) + Be16(ms[|ms| - 1].leftSideBearing)
  }

  /** The rebuilt hmtx: min(numberOfHMetrics, count) pairs, then bearings up to the glyph count. */
  function HmtxContent(ms: seq<HMetric>, numberOfHMetrics: nat, glyphCount: nat): seq<byte>
    requires glyphCount <= |ms|
  {
    var k := Min(numberOfHMetrics, glyphCount);
    MetricPairs(ms[..k]) + Bearings(ms[k..glyphCount])
  }

  lemma {:induction false} MetricPairsAt(ms: seq<HMetric>, i: nat)
    requires i < |ms|
    ensures MetricPairs(ms)[4 * i..4 * i + 4] == Be16(ms[i].advanceWidth) + Be16(ms[i].leftSideBearing)
    decreases |ms|
  {
    var init := ms[..|ms| - 1];
    assert MetricPairs(ms) == MetricPairs(init) + (Be16(ms[|ms| - 1].advanceWidth) + Be16(ms[|ms| - 1].leftSideBearing));
    if i < |ms| - 1 {
      MetricPairsAt(init, i);
      assert init[i] == ms[i];
    }
  }

  lemma {:induction false} BearingsAt(ms: seq<HMetric>, i: nat)
    requires i < |ms|
    ensures Bearings(ms)[2 * i..2 * i + 2] == Be16(ms[i].leftSideBearing)
    decreases |ms|
  {
    var init := ms[..|ms| - 1];
    if i < |ms| - 1 {
      BearingsAt(init, i);
      assert init[i] == ms[i];
    }
  }

  /**
   * Where each glyph's metrics sit in the rebuilt hmtx: a four-byte pair for
   * the first min(numberOfHMetrics, count) glyphs, a two-byte bearing after.
   */
  lemma HmtxLayout(ms: seq<HMetric>, numberOfHMetrics: nat, glyphCount: nat, i: nat)
    requires glyphCount <= |ms| && i < glyphCount
    ensures var k := Min(numberOfHMetrics, glyphCount);
      var r := HmtxContent(ms, numberOfHMetrics, glyphCount);
      && |r| == 4 * k + 2 * (glyphCount - k)
      && (i < k ==> r[4 * i..4 * i + 4] == Be16(ms[i].advanceWidth) + Be16(ms[i].leftSideBearing))
      && (k <= i ==> r[4 * k + 2 * (i - k)..4 * k + 2 * (i - k) + 2] == Be16(ms[i].leftSideBearing))
  {
    var k := Min(numberOfHMetrics, glyphCount);
    var pairs := MetricPairs(ms[..k]);
    var rest := Bearings(ms[k..glyphCount]);
    assert HmtxContent(ms, numberOfHMetrics, glyphCount) == pairs + rest && |pairs| == 4 * k;
    if i < k {
      MetricPairsAt(ms[..k], i);
      SliceOfPart(pairs, rest, 4 * i, 4 * i + 4);
    } else {
      BearingsAt(ms[k..glyphCount], i - k);
      SliceOfPart(pairs, rest, 2 * (i - k), 2 * (i - k) + 2);
    }
  }

  /** The rebuilt loca: one ULONG per value (long offsets). */
  function LocaContent(values: seq<nat>): (r: seq<byte>)
    ensures |r| == 4 * |values|
  {
    if values == [] then [] else LocaContent(values[..|values| - 1]) + Be32(values[|values| - 1])
  }

  /** Each loca value reads back from its slot (modulo 2^32, the ULONG width). */
  lemma {:induction false} LocaContentAt(values: seq<nat>, i: nat)
    requires i < |values|
    ensures ReadBe32(LocaContent(values), 4 * i) == values[i] % TwoTo32
    decreases |values|
  {
    var init := values[..|values| - 1];
    var r := LocaContent(values);
    if i < |values| - 1 {
      LocaContentAt(init, i);
      assert r[4 * i..4 * i + 4] == LocaContent(init)[4 * i..4 * i + 4];
      assert init[i] == values[i];
    } else {
      assert r[4 * i..4 * i + 4] == Be32(values[i]);
      ReadWrittenBe32(values[i]);
    }
  }
}
