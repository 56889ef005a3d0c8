/**
 * `UnicodeString`: a list of code points with conversions from and to
 * UTF-8 (RFC 3629 section 3) and UTF-16 (RFC 2781 sections 2 and 3.2),
 * big-endian, little-endian or as 16-bit units.
 */
module Unicode {
  import opened Common

  type uint16 = x: int | 0 <= x < 0x1_0000

  /** A result that may have stopped early: whether it finished, and what was produced. */
  function Prepend<T>(p: seq<T>, r: (bool, seq<T>)): (bool, seq<T>)
  {
    (r.0, p + r.1)
  }

  /** A Unicode scalar value: a code point that is not a surrogate. */
  predicate IsScalar(c: nat) { c <= 0x10FFFF && !(0xD800 <= c <= 0xDFFF) }

  predicate AllScalar(cs: seq<nat>) { forall k :: 0 <= k < |cs| ==> IsScalar(cs[k]) }

  // ---------------------------------------------------------------------
  // UTF-8

  /** How many bytes a sequence with this lead byte has; 0 when it cannot lead. */
  function LeadLength(b: byte): nat
  {
    if b <= 0x7F then 1
    else if b / 32 == 0x6 then 2
    else if b / 16 == 0xE then 3
    else if b / 8 == 0x1E then 4
    else 0
  }

  /** The code point bits a lead byte carries. */
  function LeadBits(b: byte): nat
  {
    if b <= 0x7F then b
    else if b / 32 == 0x6 then b % 32
    else if b / 16 == 0xE then b % 16
    else b % 8
  }

  predicate IsContinuation(b: byte) { b / 64 == 0x2 }

  /** Continuation bytes `t[k..end]` appended six bits each to `acc`; None at a missing or bad one. */
  function Continued(acc: nat, t: seq<byte>, k: nat, end: nat): (r: Option<nat>)
    requires k <= end && k <= |t|
    ensures r.Some? ==> end <= |t|
    decreases end - k
  {
    if k == end then Some(acc)
    else if k >= |t| || !IsContinuation(t[k]) then None
    else Continued(acc * 64 + t[k] % 64, t, k + 1, end)
  }

  /** The code point at the front of `t` and the number of bytes it takes. */
  function Utf8Step(t: seq<byte>): (r: Option<(nat, nat)>)
    requires |t| > 0
    ensures r.Some? ==> 0 < r.value.1 <= |t|
  {
    var n := LeadLength(t[0]);
    if n == 0 then None
    else
      var v := Continued(LeadBits(t[0]), t, 1, n);
      if v.None? then None else Some((v.value, n))
  }

  /** `FromUTF8`: the code points decoded, up to the first malformed sequence. */
  function DecodeUtf8(s: seq<byte>): (bool, seq<nat>)
    decreases |s|
  {
    if s == [] then (true, [])
    else
      var step := Utf8Step(s);
      if step.None? then (false, [])
      else Prepend([step.value.0], DecodeUtf8(s[step.value.1..]))
  }

  /** The UTF-8 bytes of one code point; None above U+10FFFF. */
  function Utf8Bytes(c: nat): (r: Option<seq<byte>>)
    ensures r.Some? <==> c <= 0x10FFFF
  {
    if c <= 0x7F then Some([c])
    else if c <= 0x7FF then Some([0xC0 + c / 64, 0x80 + c % 64])
    else if c <= 0xFFFF then Some([0xE0 + c / 64 / 64, 0x80 + (c / 64) % 64, 0x80 + c % 64])
    else if c <= 0x10FFFF then
      Some([0xF0 + c / 64 / 64 / 64, 0x80 + (c / 64 / 64) % 64, 0x80 + (c / 64) % 64, 0x80 + c % 64])
    else None
  }

  /** `ToUTF8`: the bytes of the code points, up to the first one that has no encoding. */
  function EncodeUtf8(cs: seq<nat>): (bool, seq<byte>)
  {
    if cs == [] then (true, [])
    else
      var e := Utf8Bytes(cs[0]);
      if e.None? then (false, []) else Prepend(e.value, EncodeUtf8(cs[1..]))
  }

  /** The encoding succeeds exactly when every code point is at most U+10FFFF. */
  lemma {:induction false} EncodeUtf8SucceedsIff(cs: seq<nat>)
    ensures EncodeUtf8(cs).0 <==> forall k :: 0 <= k < |cs| ==> cs[k] <= 0x10FFFF
  {
    if cs != [] {
      EncodeUtf8SucceedsIff(cs[1..]);
      if Utf8Bytes(cs[0]).Some? {
        assert EncodeUtf8(cs).0 == EncodeUtf8(cs[1..]).0;
      }
      assert (forall k :: 0 <= k < |cs| ==> cs[k] <= 0x10FFFF)
        <==> cs[0] <= 0x10FFFF && forall k :: 0 <= k < |cs[1..]| ==> cs[1..][k] <= 0x10FFFF;
    }
  }

  /** One encoded code point decodes back to itself, whatever follows it. */
  lemma Utf8StepRoundTrip(c: nat, rest: seq<byte>)
    requires c <= 0x10FFFF
    ensures var e := Utf8Bytes(c).value; Utf8Step(e + rest) == Some((c, |e|))
  {
    if c <= 0x7F {
    } else if c <= 0x7FF {
      TwoByteRoundTrip(c, Utf8Bytes(c).value + rest);
    } else if c <= 0xFFFF {
      ThreeByteRoundTrip(c, Utf8Bytes(c).value + rest);
    } else {
      FourByteRoundTrip(c, Utf8Bytes(c).value + rest);
    }
  }

  lemma TwoByteRoundTrip(c: nat, t: seq<byte>)
    requires 0x7F < c <= 0x7FF && |t| >= 2 && t[..2] == Utf8Bytes(c).value
    ensures Utf8Step(t) == Some((c, 2))
  {
    assert t[0] == 0xC0 + c / 64 && t[1] == 0x80 + c % 64;
    assert LeadLength(t[0]) == 2 && LeadBits(t[0]) == c / 64;
    assert Continued(c / 64, t, 1, 2) == Continued(c, t, 2, 2);
  }

  lemma ThreeByteRoundTrip(c: nat, t: seq<byte>)
    requires 0x7FF < c <= 0xFFFF && |t| >= 3 && t[..3] == Utf8Bytes(c).value
    ensures Utf8Step(t) == Some((c, 3))
  {
    assert t[0] == 0xE0 + c / 64 / 64 && t[1] == 0x80 + (c / 64) % 64 && t[2] == 0x80 + c % 64;
    assert LeadLength(t[0]) == 3 && LeadBits(t[0]) == c / 64 / 64;
    assert Continued(c / 64 / 64, t, 1, 3) == Continued(c / 64, t, 2, 3);
    assert Continued(c / 64, t, 2, 3) == Continued(c, t, 3, 3);
  }

  lemma FourByteRoundTrip(c: nat, t: seq<byte>)
    requires 0xFFFF < c <= 0x10FFFF && |t| >= 4 && t[..4] == Utf8Bytes(c).value
    ensures Utf8Step(t) == Some((c, 4))
  {
    assert t[0] == 0xF0 + c / 64 / 64 / 64 && t[1] == 0x80 + (c / 64 / 64) % 64;
    assert t[2] == 0x80 + (c / 64) % 64 && t[3] == 0x80 + c % 64;
    assert LeadLength(t[0]) == 4 && LeadBits(t[0]) == c / 64 / 64 / 64;
    assert Continued(c / 64 / 64 / 64, t, 1, 4) == Continued(c / 64 / 64, t, 2, 4);
    assert Continued(c / 64 / 64, t, 2, 4) == Continued(c / 64, t, 3, 4);
    assert Continued(c / 64, t, 3, 4) == Continued(c, t, 4, 4);
  }

  /** Decoding what `ToUTF8` wrote gives the code points back. */
  lemma {:induction false} Utf8RoundTrip(cs: seq<nat>)
    requires forall k :: 0 <= k < |cs| ==> cs[k] <= 0x10FFFF
    ensures DecodeUtf8(EncodeUtf8(cs).1) == (true, cs)
  {
    if cs != [] {
      var e := Utf8Bytes(cs[0]).value;
      var rest := EncodeUtf8(cs[1..]).1;
      Utf8RoundTrip(cs[1..]);
      Utf8StepRoundTrip(cs[0], rest);
      assert EncodeUtf8(cs).1 == e + rest;
      assert (e + rest)[|e|..] == rest;
      assert DecodeUtf8(e + rest) == Prepend([cs[0]], DecodeUtf8(rest));
      assert [cs[0]] + cs[1..] == cs;
    }
  }

  /** No check for overlong forms: two bytes for a code point that needs one are accepted. */
  lemma Utf8AcceptsOverlong(c: nat)
    requires c <= 0x3F
    ensures DecodeUtf8([0xC0, 0x80 + c]) == (true, [c]) && EncodeUtf8([c]) == (true, [c])
  {
    var t: seq<byte> := [0xC0, 0x80 + c];
    assert Continued(0, t, 1, 2) == Continued(c, t, 2, 2);
    assert Utf8Step(t) == Some((c, 2));
    assert t[2..] == [];
    assert DecodeUtf8(t) == Prepend([c], DecodeUtf8([]));
    assert [c][1..] == [];
    assert EncodeUtf8([c]) == Prepend([c], EncodeUtf8([]));
    assert [c] + [] == [c];
  }

  // ---------------------------------------------------------------------
  // UTF-16

  predicate IsHighSurrogate(u: uint16) { 0xD800 <= u <= 0xDBFF }

  predicate IsLowSurrogate(u: uint16) { 0xDC00 <= u <= 0xDFFF }

  /** The code point a surrogate pair stands for. */
  function PairValue(high: uint16, low: uint16): nat
    requires IsHighSurrogate(high) && IsLowSurrogate(low)
  {
    0x10000 + (high - 0xD800) * 1024 + (low - 0xDC00)
  }

  /** `FromUTF16UShort`: code points from 16-bit units, up to a high surrogate without its low one. */
  function DecodeUnits(u: seq<uint16>): (bool, seq<nat>)
  {
    if u == [] then (true, [])
    else if IsHighSurrogate(u[0]) then
      if |u| < 2 || !IsLowSurrogate(u[1]) then (false, [])
      else Prepend([PairValue(u[0], u[1])], DecodeUnits(u[2..]))
    else Prepend([u[0]], DecodeUnits(u[1..]))
  }

  /** The unit at byte offset `i`, in the given byte order. */
  function UnitAt(s: seq<byte>, i: nat, bigEndian: bool): uint16
    requires i + 1 < |s|
  {
    if bigEndian then s[i] as int * 256 + s[i + 1] else s[i + 1] as int * 256 + s[i]
  }

  /** The units of an even number of bytes. */
  function UnitsOf(s: seq<byte>, bigEndian: bool): (r: seq<uint16>)
    ensures |r| == |s| / 2
  {
    seq(|s| / 2, k requires 0 <= k < |s| / 2 => UnitAt(s, 2 * k, bigEndian))
  }

  /** `FromUTF16BE` / `FromUTF16LE`: an odd length fails at once. */
  function DecodeUtf16(s: seq<byte>, bigEndian: bool): (bool, seq<nat>)
  {
    if |s| % 2 != 0 then (false, []) else DecodeUnits(UnitsOf(s, bigEndian))
  }

  /** The byte order a BOM announces; None when the input is too short or has no BOM. */
  function BomOrder(s: seq<byte>): (r: Option<bool>)
    ensures r.Some? ==> |s| >= 2
  {
    if |s| < 2 then None
    else if s[0] == 0xFE && s[1] == 0xFF then Some(true)
    else if s[0] == 0xFF && s[1] == 0xFE then Some(false)
    else None
  }

  function Bom(bigEndian: bool): seq<byte>
  {
    if bigEndian then [0xFE, 0xFF] else [0xFF, 0xFE]
  }

  /** Whether a code point is written as one unit (U+D7FF, U+E000 and U+FFFF included). */
  predicate SingleUnit(c: nat) { c <= 0xD7FF || 0xE000 <= c <= 0xFFFF }

  function HighSurrogate(c: nat): uint16
    requires 0xFFFF < c <= 0x10FFFF
  {
    (c - 0x10000) / 1024 + 0xD800
  }

  function LowSurrogate(c: nat): uint16
    requires 0xFFFF < c <= 0x10FFFF
  {
    (c - 0x10000) % 1024 + 0xDC00
  }

  /** The units for one code point; None for a surrogate or a value above U+10FFFF. */
  function UnitsFor(c: nat): (r: Option<seq<uint16>>)
    ensures r.Some? <==> IsScalar(c)
  {
    if SingleUnit(c) then Some([c])
    else if 0xFFFF < c <= 0x10FFFF then Some([HighSurrogate(c), LowSurrogate(c)])
    else None
  }

  /** `ToUTF16UShort`: the units of the code points, up to the first one that has none. */
  function EncodeUnits(cs: seq<nat>): (bool, seq<uint16>)
  {
    if cs == [] then (true, [])
    else
      var e := UnitsFor(cs[0]);
      if e.None? then (false, []) else Prepend(e.value, EncodeUnits(cs[1..]))
  }

  function UnitBytes(u: uint16, bigEndian: bool): seq<byte>
  {
    if bigEndian then [u / 256, u % 256] else [u % 256, u / 256]
  }

  function BytesOfUnits(u: seq<uint16>, bigEndian: bool): (r: seq<byte>)
    ensures |r| == 2 * |u|
  {
    if u == [] then [] else UnitBytes(u[0], bigEndian) + BytesOfUnits(u[1..], bigEndian)
  }

  /** `ToUTF16BE` / `ToUTF16LE`: the BOM when asked for, then the bytes of the units. */
  function EncodeUtf16(cs: seq<nat>, bigEndian: bool, withBom: bool): (bool, seq<byte>)
  {
    var e := EncodeUnits(cs);
    (e.0, (if withBom then Bom(bigEndian) else []) + BytesOfUnits(e.1, bigEndian))
  }

  /** The encoding succeeds exactly when every code point is a scalar value. */
  lemma {:induction false} EncodeUnitsSucceedsIff(cs: seq<nat>)
    ensures EncodeUnits(cs).0 <==> AllScalar(cs)
  {
    if cs != [] {
      EncodeUnitsSucceedsIff(cs[1..]);
      if UnitsFor(cs[0]).Some? {
        assert EncodeUnits(cs).0 == EncodeUnits(cs[1..]).0;
      }
      assert AllScalar(cs) <==> IsScalar(cs[0]) && AllScalar(cs[1..]);
    }
  }

  /** A scalar value's units decode back to it, whatever follows. */
  lemma UnitsForRoundTrip(c: nat, rest: seq<uint16>)
    requires IsScalar(c)
    ensures var e := UnitsFor(c).value; DecodeUnits(e + rest) == Prepend([c], DecodeUnits(rest))
  {
    var e := UnitsFor(c).value;
    if SingleUnit(c) {
      assert (e + rest)[1..] == rest;
    } else {
      assert (e + rest)[2..] == rest;
      assert PairValue(HighSurrogate(c), LowSurrogate(c)) == c;
    }
  }

  /** Whenever `ToUTF16UShort` succeeds, `FromUTF16UShort` of its units gives the code points back. */
  lemma {:induction false} UnitsRoundTrip(cs: seq<nat>)
    requires EncodeUnits(cs).0
    ensures DecodeUnits(EncodeUnits(cs).1) == (true, cs)
  {
    if cs != [] {
      var e := UnitsFor(cs[0]).value;
      EncodeUnitsSucceedsIff(cs);
      assert EncodeUnits(cs[1..]).0;
      UnitsRoundTrip(cs[1..]);
      UnitsForRoundTrip(cs[0], EncodeUnits(cs[1..]).1);
      assert EncodeUnits(cs).1 == e + EncodeUnits(cs[1..]).1;
      assert [cs[0]] + cs[1..] == cs;
    }
  }

  lemma UnitsOfAppend(a: seq<byte>, b: seq<byte>, bigEndian: bool)
    requires |a| % 2 == 0
    ensures UnitsOf(a + b, bigEndian) == UnitsOf(a, bigEndian) + UnitsOf(b, bigEndian)
  {
    var l, r := UnitsOf(a + b, bigEndian), UnitsOf(a, bigEndian) + UnitsOf(b, bigEndian);
    assert |l| == |r|;
    forall k | 0 <= k < |l|
      ensures l[k] == r[k]
    {
      if k < |a| / 2 {
        assert (a + b)[2 * k] == a[2 * k] && (a + b)[2 * k + 1] == a[2 * k + 1];
      } else {
        assert (a + b)[2 * k] == b[2 * (k - |a| / 2)] && (a + b)[2 * k + 1] == b[2 * (k - |a| / 2) + 1];
      }
    }
  }

  /** The units written as bytes are read back in the same byte order. */
  lemma {:induction false} UnitsOfBytes(u: seq<uint16>, bigEndian: bool)
    ensures UnitsOf(BytesOfUnits(u, bigEndian), bigEndian) == u
  {
    if u != [] {
      UnitsOfBytes(u[1..], bigEndian);
      UnitsOfAppend(UnitBytes(u[0], bigEndian), BytesOfUnits(u[1..], bigEndian), bigEndian);
      assert UnitsOf(UnitBytes(u[0], bigEndian), bigEndian) == [u[0]];
    }
  }

  lemma {:induction false} BytesOfUnitsAppend(a: seq<uint16>, b: seq<uint16>, bigEndian: bool)
    ensures BytesOfUnits(a + b, bigEndian) == BytesOfUnits(a, bigEndian) + BytesOfUnits(b, bigEndian)
  {
    if a != [] {
      assert (a + b)[0] == a[0] && (a + b)[1..] == a[1..] + b;
      BytesOfUnitsAppend(a[1..], b, bigEndian);
      AppendAssoc(UnitBytes(a[0], bigEndian), BytesOfUnits(a[1..], bigEndian), BytesOfUnits(b, bigEndian));
    } else {
      assert a + b == b;
    }
  }

  /** A BOM names its own byte order and nothing after it changes that. */
  lemma BomRoundTrip(bigEndian: bool, rest: seq<byte>)
    ensures BomOrder(Bom(bigEndian) + rest) == Some(bigEndian) && (Bom(bigEndian) + rest)[2..] == rest
  {
  }

  /**
   * `FromUTF16` of what `ToUTF16BE(true)` or `ToUTF16LE(true)` wrote: the BOM
   * selects the byte order, and the code points come back.
   */
  lemma Utf16RoundTrip(cs: seq<nat>, bigEndian: bool)
    requires AllScalar(cs)
    ensures var e := EncodeUtf16(cs, bigEndian, true);
      e.0 && BomOrder(e.1) == Some(bigEndian) && DecodeUtf16(e.1[2..], bigEndian) == (true, cs)
  {
    EncodeUnitsSucceedsIff(cs);
    var u := EncodeUnits(cs).1;
    BomRoundTrip(bigEndian, BytesOfUnits(u, bigEndian));
    UnitsOfBytes(u, bigEndian);
    UnitsRoundTrip(cs);
  }

  /** The BOM is the only difference the flag makes. */
  lemma BomOnlyWhenAsked(cs: seq<nat>, bigEndian: bool)
    ensures EncodeUtf16(cs, bigEndian, true).1 == Bom(bigEndian) + EncodeUtf16(cs, bigEndian, false).1
    ensures EncodeUtf16(cs, bigEndian, true).0 == EncodeUtf16(cs, bigEndian, false).0
  {
    assert [] + BytesOfUnits(EncodeUnits(cs).1, bigEndian) == BytesOfUnits(EncodeUnits(cs).1, bigEndian);
  }

  // ---------------------------------------------------------------------
  // The two boundaries of the UTF-16 code as written.

  /** `ToUTF16*`'s test for a one-unit code point, as written: the three bounds are strict. */
  predicate SingleUnitAsWritten(c: nat) { c < 0xD7FF || (0xE000 < c && c < 0xFFFF) }

  /** The three scalar values the test as written turns away. */
  predicate Boundary(c: nat) { c == 0xD7FF || c == 0xE000 || c == 0xFFFF }

  predicate NoBoundary(cs: seq<nat>) { forall k :: 0 <= k < |cs| ==> !Boundary(cs[k]) }

  /** The units the encoders as written give one code point; None also for the three boundary values. */
  function UnitsForAsWritten(c: nat): (r: Option<seq<uint16>>)
    ensures r.Some? <==> IsScalar(c) && !Boundary(c)
  {
    if SingleUnitAsWritten(c) then Some([c])
    else if 0xFFFF < c <= 0x10FFFF then Some([HighSurrogate(c), LowSurrogate(c)])
    else None
  }

  /** U+D7FF, U+E000 and U+FFFF are scalar values, yet the test as written has no units for them. */
  lemma SingleUnitAsWrittenRejectsScalars(c: nat)
    requires c == 0xD7FF || c == 0xE000 || c == 0xFFFF
    ensures IsScalar(c) && UnitsForAsWritten(c).None? && UnitsFor(c) == Some([c])
  {
  }

  /** Away from the three boundary values the test as written and the corrected one agree. */
  lemma SingleUnitAgreesElsewhere(c: nat)
    requires c != 0xD7FF && c != 0xE000 && c != 0xFFFF
    ensures UnitsForAsWritten(c) == UnitsFor(c)
  {
  }

  /** `ToUTF16UShort` as written: the units of the code points, up to the first one the strict test turns away. */
  function EncodeUnitsAsWritten(cs: seq<nat>): (bool, seq<uint16>)
  {
    if cs == [] then (true, [])
    else
      var e := UnitsForAsWritten(cs[0]);
      if e.None? then (false, []) else Prepend(e.value, EncodeUnitsAsWritten(cs[1..]))
  }

  /** `ToUTF16BE` / `ToUTF16LE` as written: the BOM when asked for, then the bytes of the units. */
  function EncodeUtf16AsWritten(cs: seq<nat>, bigEndian: bool, withBom: bool): (bool, seq<byte>)
  {
    var e := EncodeUnitsAsWritten(cs);
    (e.0, (if withBom then Bom(bigEndian) else []) + BytesOfUnits(e.1, bigEndian))
  }

  /**
   * The encoders as written succeed exactly when every code point is a
   * scalar value other than U+D7FF, U+E000 and U+FFFF.
   */
  lemma {:induction false} EncodeUnitsAsWrittenSucceedsIff(cs: seq<nat>)
    ensures EncodeUnitsAsWritten(cs).0 <==> AllScalar(cs) && NoBoundary(cs)
  {
    if cs != [] {
      EncodeUnitsAsWrittenSucceedsIff(cs[1..]);
      if UnitsForAsWritten(cs[0]).Some? {
        assert EncodeUnitsAsWritten(cs).0 == EncodeUnitsAsWritten(cs[1..]).0;
      }
      assert AllScalar(cs) <==> IsScalar(cs[0]) && AllScalar(cs[1..]);
      assert NoBoundary(cs) <==> !Boundary(cs[0]) && NoBoundary(cs[1..]);
    }
  }

  /** Without the three boundary values, the encoder as written and the corrected one give the same result. */
  lemma {:induction false} EncodeUnitsAsWrittenAgrees(cs: seq<nat>)
    requires NoBoundary(cs)
    ensures EncodeUnitsAsWritten(cs) == EncodeUnits(cs)
  {
    if cs != [] {
      SingleUnitAgreesElsewhere(cs[0]);
      assert NoBoundary(cs[1..]) by {
        forall k | 0 <= k < |cs[1..]| ensures !Boundary(cs[1..][k]) {
          assert cs[1..][k] == cs[k + 1];
        }
      }
      EncodeUnitsAsWrittenAgrees(cs[1..]);
    }
  }

  /** Whenever `ToUTF16UShort` as written succeeds, `FromUTF16UShort` of its units gives the code points back. */
  lemma UnitsAsWrittenRoundTrip(cs: seq<nat>)
    requires EncodeUnitsAsWritten(cs).0
    ensures DecodeUnits(EncodeUnitsAsWritten(cs).1) == (true, cs)
  {
    EncodeUnitsAsWrittenSucceedsIff(cs);
    EncodeUnitsAsWrittenAgrees(cs);
    UnitsRoundTrip(cs);
  }

  /**
   * `FromUTF16` of what `ToUTF16BE(true)` or `ToUTF16LE(true)` as written
   * produced, whenever they succeed: the BOM selects the byte order and the
   * code points come back.
   */
  lemma Utf16AsWrittenRoundTrip(cs: seq<nat>, bigEndian: bool)
    requires EncodeUtf16AsWritten(cs, bigEndian, true).0
    ensures var e := EncodeUtf16AsWritten(cs, bigEndian, true);
      BomOrder(e.1) == Some(bigEndian) && DecodeUtf16(e.1[2..], bigEndian) == (true, cs)
  {
    EncodeUnitsAsWrittenSucceedsIff(cs);
    EncodeUnitsAsWrittenAgrees(cs);
    Utf16RoundTrip(cs, bigEndian);
  }

  /** `unsigned long` arithmetic, modulo 2^64. */
  const ULongModulus: int := 0x1_0000_0000_0000_0000

  /** `FromUTF16BE`/`LE`'s loop test as written: `i < inLength - 1` in unsigned arithmetic. */
  predicate UnitLoopContinuesAsWritten(i: nat, length: nat)
  {
    i < (length - 1) % ULongModulus
  }

  /** The loop test the model uses: a whole unit is left from `i` on. */
  predicate UnitLoopContinues(i: nat, length: nat) { i + 1 < length }

  /**
   * With no bytes after the BOM, `inLength - 1` wraps around and the loop
   * as written reads the two bytes at offsets 0 and 1 of an empty input.
   */
  lemma BomOnlyInputReadsPastEnd()
    ensures UnitLoopContinuesAsWritten(0, 0) && !UnitLoopContinues(0, 0)
  {
  }

  /** For any input length that is not zero the two loop tests agree. */
  lemma UnitLoopAgreesOnNonEmpty(i: nat, length: nat)
    requires 0 < length < ULongModulus
    ensures UnitLoopContinuesAsWritten(i, length) <==> UnitLoopContinues(i, length)
  {
  }

  /** With the corrected test a BOM alone is the empty string. */
  lemma BomOnlyIsEmpty(bigEndian: bool)
    ensures BomOrder(Bom(bigEndian)) == Some(bigEndian) && DecodeUtf16(Bom(bigEndian)[2..], bigEndian) == (true, [])
  {
    assert Bom(bigEndian)[2..] == [];
  }

  // ---------------------------------------------------------------------
  // The string object.

  class UnicodeString {
    /** `mUnicodeCharacters`. */
    var characters: seq<nat>

    constructor (list: seq<nat>)
      ensures characters == list
    {
      characters := list;
    }

    /** Clears the list, then appends each decoded code point; stops at the first malformed sequence. */
    method FromUTF8(s: seq<byte>) returns (ok: bool)
      modifies this
      ensures (ok, characters) == DecodeUtf8(s)
    {
      characters := [];
      var i := 0;
      assert [] + DecodeUtf8(s).1 == DecodeUtf8(s).1;
      while i < |s|
        invariant i <= |s|
        invariant DecodeUtf8(s) == Prepend(characters, DecodeUtf8(s[i..]))
        decreases |s| - i
      {
        var valid, c, n := ReadUtf8Sequence(s, i);
        if !valid {
          assert characters + [] == characters;
          return false;
        }
        assert s[i..][n..] == s[i + n..];
        assert characters + ([c] + DecodeUtf8(s[i + n..]).1) == (characters + [c]) + DecodeUtf8(s[i + n..]).1;
        characters := characters + [c];
        i := i + n;
      }
      assert characters + [] == characters;
      return true;
    }

    /** One round of `FromUTF8`: the lead byte, then its continuation bytes one by one. */
    static method ReadUtf8Sequence(s: seq<byte>, i: nat) returns (ok: bool, c: nat, n: nat)
      requires i < |s|
      ensures ok <==> Utf8Step(s[i..]).Some?
      ensures ok ==> Utf8Step(s[i..]) == Some((c, n))
    {
      ghost var t := s[i..];
      n := LeadLength(s[i]);
      if n == 0 {
        return false, 0, 0;
      }
      c := LeadBits(s[i]);
      var k := 1;
      while k < n
        invariant 1 <= k <= n && k <= |t|
        invariant Continued(LeadBits(t[0]), t, 1, n) == Continued(c, t, k, n)
        decreases n - k
      {
        if i + k >= |s| || !IsContinuation(s[i + k]) {
          return false, 0, 0;
        }
        c := c * 64 + s[i + k] % 64;
        k := k + 1;
      }
      return true, c, n;
    }

    /** The UTF-8 bytes, as far as the code points can be encoded; the list is unchanged. */
    method ToUTF8() returns (ok: bool, bytes: seq<byte>)
      ensures (ok, bytes) == EncodeUtf8(characters)
    {
      bytes := [];
      var i := 0;
      assert [] + EncodeUtf8(characters).1 == EncodeUtf8(characters).1;
      while i < |characters|
        invariant i <= |characters|
        invariant EncodeUtf8(characters) == Prepend(bytes, EncodeUtf8(characters[i..]))
        decreases |characters| - i
      {
        var e := Utf8Bytes(characters[i]);
        if e.None? {
          assert bytes + [] == bytes;
          return false, bytes;
        }
        assert characters[i..][1..] == characters[i + 1..];
        AppendAssoc(bytes, e.value, EncodeUtf8(characters[i + 1..]).1);
        bytes := bytes + e.value;
        i := i + 1;
      }
      assert bytes + [] == bytes;
      return true, bytes;
    }

    /** `FromUTF16`: the BOM chooses the byte order; too short or without a BOM fails and leaves the list. */
    method FromUTF16(s: seq<byte>) returns (ok: bool)
      modifies this
      ensures BomOrder(s).None? ==> !ok && characters == old(characters)
      ensures BomOrder(s).Some? ==> (ok, characters) == DecodeUtf16(s[2..], BomOrder(s).value)
    {
      if |s| < 2 {
        return false;
      }
      if s[0] == 0xFE && s[1] == 0xFF {
        ok := FromUTF16BE(s[2..]);
      } else if s[0] == 0xFF && s[1] == 0xFE {
        ok := FromUTF16LE(s[2..]);
      } else {
        ok := false;
      }
    }

    method FromUTF16BE(s: seq<byte>) returns (ok: bool)
      modifies this
      ensures (ok, characters) == DecodeUtf16(s, true)
    {
      ok := FromUTF16Bytes(s, true);
    }

    method FromUTF16LE(s: seq<byte>) returns (ok: bool)
      modifies this
      ensures (ok, characters) == DecodeUtf16(s, false)
    {
      ok := FromUTF16Bytes(s, false);
    }

    /** The loop `FromUTF16BE` and `FromUTF16LE` share, over byte pairs in the given order. */
    method FromUTF16Bytes(s: seq<byte>, bigEndian: bool) returns (ok: bool)
      modifies this
      ensures (ok, characters) == DecodeUtf16(s, bigEndian)
    {
      characters := [];
      if |s| % 2 != 0 {
        return false;
      }
      ghost var u := UnitsOf(s, bigEndian);
      var i := 0;
      assert [] + DecodeUnits(u).1 == DecodeUnits(u).1;
      while UnitLoopContinues(i, |s|)
        invariant i % 2 == 0 && i <= |s|
        invariant DecodeUnits(u) == Prepend(characters, DecodeUnits(u[i / 2..]))
        decreases |s| - i
      {
        var valid, c, next := ReadUnits(s, i, bigEndian);
        if !valid {
          assert characters + [] == characters;
          return false;
        }
        Extend(characters, c, DecodeUnits(u[next / 2..]).1);
        characters := characters + [c];
        i := next;
      }
      assert u[i / 2..] == [];
      assert characters + [] == characters;
      return true;
    }

    /** One round of `FromUTF16BE`/`LE`: a unit, and the low surrogate after a high one. */
    static method ReadUnits(s: seq<byte>, i: nat, bigEndian: bool) returns (ok: bool, c: nat, next: nat)
      requires |s| % 2 == 0 && i % 2 == 0 && UnitLoopContinues(i, |s|)
      ensures var u := UnitsOf(s, bigEndian);
        ok ==> next % 2 == 0 && i < next <= |s| && DecodeUnits(u[i / 2..]) == Prepend([c], DecodeUnits(u[next / 2..]))
      ensures !ok ==> DecodeUnits(UnitsOf(s, bigEndian)[i / 2..]) == (false, [])
    {
      ghost var u := UnitsOf(s, bigEndian);
      var unit := UnitAt(s, i, bigEndian);
      assert unit == u[i / 2];
      if !IsHighSurrogate(unit) {
        assert u[i / 2..][1..] == u[(i + 2) / 2..];
        return true, unit, i + 2;
      }
      var j := i + 2;
      if !UnitLoopContinues(j, |s|) {
        return false, 0, 0;
      }
      var low := UnitAt(s, j, bigEndian);
      assert low == u[j / 2];
      if !IsLowSurrogate(low) {
        return false, 0, 0;
      }
      assert u[i / 2..][2..] == u[(j + 2) / 2..];
      return true, PairValue(unit, low), j + 2;
    }

    /** `FromUTF16UShort`: the same decoding over 16-bit units. */
    method FromUTF16UShort(u: seq<uint16>) returns (ok: bool)
      modifies this
      ensures (ok, characters) == DecodeUnits(u)
    {
      characters := [];
      var i := 0;
      assert [] + DecodeUnits(u).1 == DecodeUnits(u).1;
      while i < |u|
        invariant i <= |u|
        invariant DecodeUnits(u) == Prepend(characters, DecodeUnits(u[i..]))
        decreases |u| - i
      {
        if IsHighSurrogate(u[i]) {
          i := i + 1;
          if i >= |u| || !IsLowSurrogate(u[i]) {
            assert characters + [] == characters;
            return false;
          }
          assert u[i - 1..][2..] == u[i + 1..];
          Extend(characters, PairValue(u[i - 1], u[i]), DecodeUnits(u[i + 1..]).1);
          characters := characters + [PairValue(u[i - 1], u[i])];
        } else {
          assert u[i..][1..] == u[i + 1..];
          Extend(characters, u[i], DecodeUnits(u[i + 1..]).1);
          characters := characters + [u[i]];
        }
        i := i + 1;
      }
      assert characters + [] == characters;
      return true;
    }

    method ToUTF16BE(withBom: bool) returns (ok: bool, bytes: seq<byte>)
      ensures (ok, bytes) == EncodeUtf16AsWritten(characters, true, withBom)
    {
      ok, bytes := ToUTF16Bytes(true, withBom);
    }

    method ToUTF16LE(withBom: bool) returns (ok: bool, bytes: seq<byte>)
      ensures (ok, bytes) == EncodeUtf16AsWritten(characters, false, withBom)
    {
      ok, bytes := ToUTF16Bytes(false, withBom);
    }

    /** The loop `ToUTF16BE` and `ToUTF16LE` share: each code point's units, as bytes in the given order. */
    method ToUTF16Bytes(bigEndian: bool, withBom: bool) returns (ok: bool, bytes: seq<byte>)
      ensures (ok, bytes) == EncodeUtf16AsWritten(characters, bigEndian, withBom)
    {
      var prefix := if withBom then Bom(bigEndian) else [];
      bytes := prefix;
      ghost var units: seq<uint16> := [];
      var i := 0;
      assert [] + EncodeUnitsAsWritten(characters).1 == EncodeUnitsAsWritten(characters).1;
      assert prefix + [] == prefix;
      while i < |characters|
        invariant i <= |characters|
        invariant EncodeUnitsAsWritten(characters) == Prepend(units, EncodeUnitsAsWritten(characters[i..]))
        invariant bytes == prefix + BytesOfUnits(units, bigEndian)
        decreases |characters| - i
      {
        var e := UnitsForAsWritten(characters[i]);
        if e.None? {
          assert units + [] == units;
          return false, bytes;
        }
        assert characters[i..][1..] == characters[i + 1..];
        AppendAssoc(units, e.value, EncodeUnitsAsWritten(characters[i + 1..]).1);
        BytesOfUnitsAppend(units, e.value, bigEndian);
        AppendAssoc(prefix, BytesOfUnits(units, bigEndian), BytesOfUnits(e.value, bigEndian));
        units := units + e.value;
        bytes := bytes + BytesOfUnits(e.value, bigEndian);
        i := i + 1;
      }
      assert units + [] == units;
      return true, bytes;
    }

    /** `ToUTF16UShort`: the units, as far as the code points can be encoded. */
    method ToUTF16UShort() returns (ok: bool, units: seq<uint16>)
      ensures (ok, units) == EncodeUnitsAsWritten(characters)
    {
      units := [];
      var i := 0;
      assert [] + EncodeUnitsAsWritten(characters).1 == EncodeUnitsAsWritten(characters).1;
      while i < |characters|
        invariant i <= |characters|
        invariant EncodeUnitsAsWritten(characters) == Prepend(units, EncodeUnitsAsWritten(characters[i..]))
        decreases |characters| - i
      {
        var c := characters[i];
        var e: seq<uint16>;
        if SingleUnitAsWritten(c) {
          e := [c];
        } else if 0xFFFF < c <= 0x10FFFF {
          e := [HighSurrogate(c), LowSurrogate(c)];
        } else {
          assert units + [] == units;
          return false, units;
        }
        assert characters[i..][1..] == characters[i + 1..];
        AppendAssoc(units, e, EncodeUnitsAsWritten(characters[i + 1..]).1);
        units := units + e;
        i := i + 1;
      }
      assert units + [] == units;
      return true, units;
    }
  }

  /** Appending one decoded code point to the list. */
  lemma Extend(done: seq<nat>, c: nat, rest: seq<nat>)
    ensures done + ([c] + rest) == (done + [c]) + rest
  {
  }
}
