/**
 * Byte-level formats of the cross-reference section: the printf-style
 * zero-padded decimals of a classical xref table (section 7.5.4 of
 * ISO 32000-1) and the fixed-width big-endian fields of an xref stream
 * (section 7.5.8 of ISO 32000-1).
 */
module XrefFormat {
  import opened Common

  predicate IsDigit(b: byte) { 48 <= b <= 57 }

  predicate AllDigits(s: seq<byte>) { forall i :: 0 <= i < |s| ==> IsDigit(s[i]) }

  /** Decimal digits of `n`, without leading zeros (`0` is one digit). */
  function Decimal(n: nat): (r: seq<byte>)
    ensures |r| >= 1 && AllDigits(r)
  {
    if n < 10 then [48 + n] else Decimal(n / 10) + [48 + n % 10]
  }

  /** The number a string of decimal digits denotes. */
  function DigitsValue(s: seq<byte>): nat
    requires AllDigits(s)
  {
    if s == [] then 0 else DigitsValue(s[..|s| - 1]) * 10 + (s[|s| - 1] - 48)
  }

  function Pow10(k: nat): nat
  {
    if k == 0 then 1 else 10 * Pow10(k - 1)
  }

  lemma {:induction false} DecimalValue(n: nat)
    ensures DigitsValue(Decimal(n)) == n
  {
    if n >= 10 {
      var r := Decimal(n);
      assert r[..|r| - 1] == Decimal(n / 10);
      DecimalValue(n / 10);
    }
  }

  /** A number below 10^k has at most k digits. */
  lemma {:induction false} DecimalLength(n: nat, k: nat)
    requires 1 <= k && n < Pow10(k)
    ensures |Decimal(n)| <= k
  {
    if n >= 10 {
      assert Pow10(1) == 10;
      DecimalLength(n / 10, k - 1);
    }
  }

  function Zeros(k: nat): (r: seq<byte>)
    ensures |r| == k && AllDigits(r)
  {
    seq(k, _ => 48)
  }

  lemma {:induction false} ZerosPrefixValue(k: nat, s: seq<byte>)
    requires AllDigits(s)
    ensures AllDigits(Zeros(k) + s) && DigitsValue(Zeros(k) + s) == DigitsValue(s)
    decreases |s|
  {
    var t := Zeros(k) + s;
    if s == [] {
      assert t == Zeros(k);
      ZerosValue(k);
    } else {
      assert t[..|t| - 1] == Zeros(k) + s[..|s| - 1];
      ZerosPrefixValue(k, s[..|s| - 1]);
    }
  }

  lemma {:induction false} ZerosValue(k: nat)
    ensures DigitsValue(Zeros(k)) == 0
  {
    if k > 0 {
      assert Zeros(k)[..k - 1] == Zeros(k - 1);
      ZerosValue(k - 1);
    }
  }

  /** printf's `%0<w>d` for a non-negative value. */
  function PadDecimal(n: nat, w: nat): (r: seq<byte>)
    ensures |r| >= w && AllDigits(r)
  {
    if |Decimal(n)| >= w then Decimal(n) else Zeros(w - |Decimal(n)|) + Decimal(n)
  }

  /** A value that fits in `w` digits is printed in exactly `w` digits and reads back unchanged. */
  lemma PadDecimalExact(n: nat, w: nat)
    requires 1 <= w && n < Pow10(w)
    ensures |PadDecimal(n, w)| == w && DigitsValue(PadDecimal(n, w)) == n
  {
    DecimalLength(n, w);
    DecimalValue(n);
    if |Decimal(n)| < w {
      ZerosPrefixValue(w - |Decimal(n)|, Decimal(n));
    }
  }

  /** printf's `%0<w>lld`: the sign of a negative value precedes the zero padding. */
  function FormatPadded(v: int, w: nat): (r: seq<byte>)
    ensures |r| >= w
  {
    if v >= 0 then PadDecimal(v, w) else [45] + PadDecimal(-v, if w >= 1 then w - 1 else 0)
  }

  const InUseMark: byte := 110    // 'n'
  const FreeMark: byte := 102     // 'f'

  /** The text `"%010lld %05ld <kind>\r\n"` before it is cut to its buffer. */
  function EntryText(offset: int, generation: nat, kind: byte): (r: seq<byte>)
    ensures |r| >= 20
  {
    FormatPadded(offset, 10) + [32] + FormatPadded(generation, 5) + [32, kind, 13, 10]
  }

  /**
   * One xref table entry as written: the text is formatted into a 21-byte
   * buffer (so at most 20 characters survive) and 20 bytes are written.
   */
  function XrefEntry(offset: int, generation: nat, kind: byte): (r: seq<byte>)
    ensures |r| == 20
  {
    EntryText(offset, generation, kind)[..20]
  }

  /**
   * An entry whose offset fits in ten digits and whose generation fits in
   * five is a ten-digit offset, a space, a five-digit generation, a space,
   * the kind letter and CR LF; both numbers read back unchanged.
   */
  lemma XrefEntryLayout(offset: int, generation: nat, kind: byte)
    requires 0 <= offset < Pow10(10) && generation < Pow10(5)
    ensures var r := XrefEntry(offset, generation, kind);
      && AllDigits(r[..10]) && DigitsValue(r[..10]) == offset
      && r[10] == 32
      && AllDigits(r[11..16]) && DigitsValue(r[11..16]) == generation
      && r[16] == 32 && r[17] == kind && r[18] == 13 && r[19] == 10
  {
    PadDecimalExact(offset, 10);
    PadDecimalExact(generation, 5);
    var t := EntryText(offset, generation, kind);
    var r := XrefEntry(offset, generation, kind);
    assert r[..10] == t[..10] == PadDecimal(offset, 10);
    assert r[11..16] == t[11..16] == PadDecimal(generation, 5);
  }

  function Pow256(n: nat): (r: nat)
    ensures r >= 1
  {
    if n == 0 then 1 else 256 * Pow256(n - 1)
  }

  /**
   * The `n` low-order bytes of `v`, most significant first: byte `j` is the
   * value shifted right (arithmetically) by 8 (n - 1 - j) bits and masked with 0xff.
   */
  function BigEndian(v: int, n: nat): (r: seq<byte>)
    ensures |r| == n
  {
    seq(n, j requires 0 <= j < n => (v / Pow256(n - 1 - j)) % 256)
  }

  function BigEndianValue(s: seq<byte>): nat
  {
    if s == [] then 0 else BigEndianValue(s[..|s| - 1]) * 256 + s[|s| - 1]
  }

  lemma MulStep(d: int, a: int, b: int)
    requires d > 0
    ensures a < b ==> d * a + d <= d * b
  {
    if a < b {
      var k := b - a - 1;
      assert d * k >= 0;
      assert d * b == d * a + d * k + d;
    }
  }

  lemma ModUnique(v: int, d: int, q: int, r: int)
    requires d > 0 && v == d * q + r && 0 <= r < d
    ensures v / d == q && v % d == r
  {
    var q0, r0 := v / d, v % d;
    assert v == d * q0 + r0;
    MulStep(d, q0, q);
    MulStep(d, q, q0);
  }

  /** Dividing by a and then by b is dividing by a * b; the remainders combine likewise. */
  lemma DivDiv(v: int, a: int, b: int)
    requires a > 0 && b > 0
    ensures a * b > 0
    ensures v / a / b == v / (a * b)
    ensures (v / a) % b * a + v % a == v % (a * b)
  {
    var q, r := v / a, v % a;
    var q2, r2 := q / b, q % b;
    assert v == a * q + r;
    assert q == b * q2 + r2;
    assert a * q == a * (b * q2) + a * r2;
    assert a * (b * q2) == (a * b) * q2;
    assert a * r2 <= a * (b - 1) by { MulStep(a, r2, b - 1); }
    assert a * (b - 1) == a * b - a;
    ModUnique(v, a * b, q2, a * r2 + r);
  }

  /** Dropping the last byte of a field leaves the field of the value shifted right by 8. */
  lemma BigEndianInit(v: int, n: nat)
    requires n > 0
    ensures BigEndian(v, n)[..n - 1] == BigEndian(v / 256, n - 1)
    ensures BigEndian(v, n)[n - 1] == v % 256
  {
    forall j | 0 <= j < n - 1 ensures BigEndian(v, n)[j] == BigEndian(v / 256, n - 1)[j] {
      var k: nat := n - 2 - j;
      assert Pow256(n - 1 - j) == 256 * Pow256(k);
      DivDiv(v, 256, Pow256(k));
    }
    assert Pow256(0) == 1;
  }

  /** Reading the written bytes back gives the value modulo 256^n (two's complement for negatives). */
  lemma {:induction false} BigEndianValueOf(v: int, n: nat)
    ensures BigEndianValue(BigEndian(v, n)) == v % Pow256(n)
    decreases n
  {
    if n > 0 {
      BigEndianInit(v, n);
      BigEndianValueOf(v / 256, n - 1);
      DivDiv(v, 256, Pow256(n - 1));
    }
  }

  /** A value that fits in n bytes reads back exactly. */
  lemma BigEndianRoundTrip(v: int, n: nat)
    requires 0 <= v < Pow256(n)
    ensures BigEndianValue(BigEndian(v, n)) == v
  {
    BigEndianValueOf(v, n);
    ModUnique(v, Pow256(n), 0, v);
  }

  /**
   * `WriteXrefNumber`'s buffer: filled from the last byte towards the first,
   * masking the value and shifting it right by 8 at each step.
   */
  method WriteXrefNumber(element: int, elementSize: nat) returns (r: seq<byte>)
    ensures r == BigEndian(element, elementSize)
  {
    var buffer := new byte[elementSize];
    var v := element;
    var i := elementSize;
    while i > 0
      invariant 0 <= i <= elementSize
      invariant v == element / Pow256(elementSize - i)
      invariant buffer[i..] == BigEndian(element, elementSize)[i..]
    {
      XrefNumberStep(element, elementSize, i, v);
      buffer[i - 1] := v % 256;
      assert buffer[i - 1..] == [v % 256] + buffer[i..];
      v := v / 256;
      i := i - 1;
    }
    assert buffer[..] == buffer[0..];
    r := buffer[..];
  }

  /** One step of `WriteXrefNumber`: the masked value is byte `i - 1`, and the shift moves on to the next byte. */
  lemma XrefNumberStep(element: int, n: nat, i: nat, v: int)
    requires 0 < i <= n && v == element / Pow256(n - i)
    ensures BigEndian(element, n)[i - 1] == v % 256
    ensures v / 256 == element / Pow256(n - (i - 1))
  {
    DivDiv(element, Pow256(n - i), 256);
    assert Pow256(n - (i - 1)) == 256 * Pow256(n - i);
  }
}
