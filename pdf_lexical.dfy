/**
 * The token-level part of the object parser: deciding what kind of object
 * a token starts, and decoding the bytes of literal strings, hexadecimal
 * strings, names and integers (sections 7.3.3 to 7.3.5 of ISO 32000-1).
 * Tokens are the byte strings the tokenizer delivers; every one holds at
 * least one byte.
 */
module PdfLexical {
  import opened Common
  import XrefFormat

  type Token = t: seq<byte> | |t| > 0 witness [0]

  /** The value of one hexadecimal digit. */
  type nibble = x: int | 0 <= x < 16

  const Backslash: byte := 0x5C
  const LeftParenthesis: byte := 0x28
  const RightParenthesis: byte := 0x29
  const LeftAngle: byte := 0x3C
  const RightAngle: byte := 0x3E
  const Slash: byte := 0x2F
  const Sharp: byte := 0x23
  const Percent: byte := 0x25
  const Plus: byte := 0x2B
  const Minus: byte := 0x2D
  const Dot: byte := 0x2E

  const TrueKeyword: seq<byte> := [0x74, 0x72, 0x75, 0x65]
  const FalseKeyword: seq<byte> := [0x66, 0x61, 0x6C, 0x73, 0x65]
  const NullKeyword: seq<byte> := [0x6E, 0x75, 0x6C, 0x6C]
  const ReferenceKeyword: seq<byte> := [0x52]
  const StreamKeyword: seq<byte> := [0x73, 0x74, 0x72, 0x65, 0x61, 0x6D]
  const ArrayStart: seq<byte> := [0x5B]
  const ArrayEnd: seq<byte> := [0x5D]
  const DictionaryStart: seq<byte> := [0x3C, 0x3C]
  const DictionaryEnd: seq<byte> := [0x3E, 0x3E]

  // ---------------------------------------------------------------------
  // Recognizers: the first test that holds decides the object's kind.

  predicate IsBoolean(t: Token) { t == TrueKeyword || t == FalseKeyword }

  predicate IsLiteralString(t: Token) { t[0] == LeftParenthesis }

  /** `<` not followed by a second `<`, which would start a dictionary. */
  predicate IsHexadecimalString(t: Token) { t[0] == LeftAngle && (|t| < 2 || t[1] != LeftAngle) }

  predicate IsNull(t: Token) { t == NullKeyword }

  predicate IsName(t: Token) { t[0] == Slash }

  predicate IsArray(t: Token) { t == ArrayStart }

  predicate IsDictionary(t: Token) { t == DictionaryStart }

  predicate IsComment(t: Token) { t[0] == Percent }

  // ---------------------------------------------------------------------
  // Numbers.

  predicate IsSign(b: byte) { b == Plus || b == Minus }

  /**
   * `IsNumber`'s scan of the characters after the first: digits, and one
   * dot at most counting a dot in first place (`dot`).
   */
  function NumberTail(t: Token, i: nat, dot: bool): bool
    requires 1 <= i <= |t|
    decreases |t| - i
  {
    if i == |t| then true
    else if t[i] == Dot then !dot && NumberTail(t, i + 1, true)
    else XrefFormat.IsDigit(t[i]) && NumberTail(t, i + 1, dot)
  }

  /** `IsNumber`: a sign, digit or dot, then digits and dots; a lone sign is not a number. */
  function IsNumber(t: Token): bool
  {
    if !(IsSign(t[0]) || t[0] == Dot || XrefFormat.IsDigit(t[0])) then false
    else if IsSign(t[0]) && |t| == 1 then false
    else NumberTail(t, 1, t[0] == Dot)
  }

  function DotCount(s: seq<byte>): nat
  {
    if s == [] then 0 else DotCount(s[..|s| - 1]) + (if s[|s| - 1] == Dot then 1 else 0)
  }

  /** What the scan from `i` accepts: only digits and dots, and one dot in all. */
  lemma {:induction false} NumberTailIff(t: Token, i: nat, dot: bool)
    requires 1 <= i <= |t| && dot == (DotCount(t[..i]) > 0) && DotCount(t[..i]) <= 1
    ensures NumberTail(t, i, dot) <==>
      (forall k :: i <= k < |t| ==> t[k] == Dot || XrefFormat.IsDigit(t[k])) && DotCount(t) <= 1
    decreases |t| - i
  {
    if i == |t| {
      assert t[..i] == t;
    } else {
      assert t[..i + 1][..i] == t[..i];
      if t[i] == Dot {
        if !dot {
          NumberTailIff(t, i + 1, true);
        } else {
          DotCountGrows(t, i + 1);
        }
      } else if XrefFormat.IsDigit(t[i]) {
        NumberTailIff(t, i + 1, dot);
      }
    }
  }

  /** Dots counted in a prefix are never more than in the whole. */
  lemma {:induction false} DotCountGrows(s: seq<byte>, i: nat)
    requires i <= |s|
    ensures DotCount(s[..i]) <= DotCount(s)
    decreases |s| - i
  {
    if i < |s| {
      assert s[..i + 1][..i] == s[..i];
      DotCountGrows(s, i + 1);
    } else {
      assert s[..i] == s;
    }
  }

  /** IsNumber states the three conditions on the token's characters. */
  lemma IsNumberIff(t: Token)
    ensures IsNumber(t) <==>
      && (IsSign(t[0]) || t[0] == Dot || XrefFormat.IsDigit(t[0]))
      && (forall k :: 1 <= k < |t| ==> t[k] == Dot || XrefFormat.IsDigit(t[k]))
      && DotCount(t) <= 1
      && !(IsSign(t[0]) && |t| == 1)
  {
    assert t[..1][..0] == [];
    if IsSign(t[0]) || t[0] == Dot || XrefFormat.IsDigit(t[0]) {
      NumberTailIff(t, 1, t[0] == Dot);
    }
  }

  /** An integer token: a number with no dot. */
  predicate IsIntegerToken(t: Token) { IsNumber(t) && Dot !in t }

  /** After an optional sign, an integer token holds only digits. */
  lemma IntegerTokenDigits(t: Token)
    requires IsIntegerToken(t)
    ensures IsSign(t[0]) ==> XrefFormat.AllDigits(t[1..])
    ensures !IsSign(t[0]) ==> XrefFormat.AllDigits(t)
  {
    IsNumberIff(t);
    forall k | 0 <= k < |t| && !(k == 0 && IsSign(t[0]))
      ensures XrefFormat.IsDigit(t[k])
    {
      assert t[k] != Dot;
    }
    if IsSign(t[0]) {
      forall k | 0 <= k < |t[1..]| ensures XrefFormat.IsDigit(t[1..][k]) {
        assert t[1..][k] == t[k + 1];
      }
    }
  }

  /** The value of an integer token: an optional sign, then decimal digits. */
  function IntegerValue(t: Token): int
    requires IsIntegerToken(t)
  {
    IntegerTokenDigits(t);
    if IsSign(t[0]) then
      var magnitude: int := XrefFormat.DigitsValue(t[1..]);
      if t[0] == Minus then -magnitude else magnitude
    else XrefFormat.DigitsValue(t)
  }

  /** The decimal text of an integer, with a minus sign when negative. */
  function IntegerText(n: int): (t: Token)
  {
    if n < 0 then [Minus] + XrefFormat.Decimal(-n) else XrefFormat.Decimal(n)
  }

  /** The decimal text of any integer is an integer token of that value. */
  lemma IntegerTextRoundTrip(n: int)
    ensures IsIntegerToken(IntegerText(n)) && IntegerValue(IntegerText(n)) == n
  {
    var t := IntegerText(n);
    var d := XrefFormat.Decimal(if n < 0 then -n else n);
    assert Dot !in d;
    assert DotCount(d) == 0 by { NoDotCount(d); }
    if n < 0 {
      assert t[1..] == d;
      NoDotCount(t);
    } else {
      NoDotCount(t);
    }
    IsNumberIff(t);
    XrefFormat.DecimalValue(if n < 0 then -n else n);
  }

  lemma {:induction false} NoDotCount(s: seq<byte>)
    requires Dot !in s
    ensures DotCount(s) == 0
  {
    if s != [] {
      assert Dot !in s[..|s| - 1];
      NoDotCount(s[..|s| - 1]);
    }
  }

  // ---------------------------------------------------------------------
  // Hexadecimal digits and strings.

  predicate IsHexDigit(c: byte)
  {
    (0x30 <= c <= 0x39) || (0x41 <= c <= 0x46) || (0x61 <= c <= 0x66)
  }

  /** `GetHexValue`: the value of a hexadecimal digit in either case, None for anything else. */
  function HexValue(c: byte): (r: Option<nibble>)
    ensures r.Some? <==> IsHexDigit(c)
  {
    if 0x30 <= c <= 0x39 then Some(c - 0x30)
    else if 0x41 <= c <= 0x46 then Some(c - 0x41 + 10)
    else if 0x61 <= c <= 0x66 then Some(c - 0x61 + 10)
    else None
  }

  /** The upper-case digit for a nibble. */
  function HexDigitFor(n: nibble): (c: byte)
    ensures HexValue(c) == Some(n)
  {
    if n < 10 then 0x30 + n else 0x41 + n - 10
  }

  /** The values of the hexadecimal digits of `s`, in order; other bytes are skipped. */
  function HexNibbles(s: seq<byte>): seq<nibble>
  {
    if s == [] then []
    else
      var v := HexValue(s[|s| - 1]);
      HexNibbles(s[..|s| - 1]) + (if v.Some? then [v.value] else [])
  }

  /** Pairs of nibbles packed high nibble first; a final odd nibble gets a zero low nibble. */
  function PackNibbles(ns: seq<nibble>): (r: seq<byte>)
    ensures |r| == (|ns| + 1) / 2
  {
    if |ns| == 0 then []
    else if |ns| == 1 then var b: byte := ns[0] as int * 16; [b]
    else var b: byte := ns[0] as int * 16 + ns[1]; [b] + PackNibbles(ns[2..])
  }

  /** Packing an even run and then two more nibbles. */
  lemma {:induction false} PackNibblesAppend(ns: seq<nibble>, hi: nibble, lo: nibble)
    requires |ns| % 2 == 0
    ensures PackNibbles(ns + [hi, lo]) == PackNibbles(ns) + [hi * 16 + lo]
    decreases |ns|
  {
    if |ns| > 0 {
      assert (ns + [hi, lo])[2..] == ns[2..] + [hi, lo];
      PackNibblesAppend(ns[2..], hi, lo);
    }
  }

  /** Packing an even run and then one nibble. */
  lemma {:induction false} PackNibblesAppendOdd(ns: seq<nibble>, hi: nibble)
    requires |ns| % 2 == 0
    ensures PackNibbles(ns + [hi]) == PackNibbles(ns) + [hi * 16]
    decreases |ns|
  {
    if |ns| > 0 {
      assert (ns + [hi])[2..] == ns[2..] + [hi];
      PackNibblesAppendOdd(ns[2..], hi);
    }
  }

  /**
   * The bytes a hexadecimal string's content denotes (section 7.3.4.3 of
   * ISO 32000-1): its digits taken two by two, a final lone digit as if
   * followed by 0.
   */
  function HexBytes(content: seq<byte>): (r: seq<byte>)
    ensures |r| == (|HexNibbles(content)| + 1) / 2
  {
    PackNibbles(HexNibbles(content))
  }

  /** One more byte of content adds its digit's value, if it is a digit. */
  lemma HexNibblesStep(s: seq<byte>, i: nat)
    requires i < |s|
    ensures HexNibbles(s[..i + 1]) == HexNibbles(s[..i]) + (if HexValue(s[i]).Some? then [HexValue(s[i]).value] else [])
  {
    assert s[..i + 1][..i] == s[..i];
  }

  /** The nibbles of a concatenation are those of its parts. */
  lemma {:induction false} HexNibblesAppend(a: seq<byte>, b: seq<byte>)
    ensures HexNibbles(a + b) == HexNibbles(a) + HexNibbles(b)
    decreases |b|
  {
    if b != [] {
      assert (a + b)[..|a + b| - 1] == a + b[..|b| - 1];
      HexNibblesAppend(a, b[..|b| - 1]);
    } else {
      assert a + b == a;
    }
  }

  /** The even part of a run of nibbles: all of them, or all but the last. */
  function EvenPart(ns: seq<nibble>): seq<nibble>
  {
    ns[..|ns| - |ns| % 2]
  }

  /**
   * The state of the hexadecimal decoder after `content[..i]`: the packed
   * whole bytes, and whether a high nibble `high` waits for its partner.
   */
  ghost predicate HexDecoded(content: seq<byte>, i: nat, r: seq<byte>, pending: bool, high: nibble)
  {
    && i <= |content|
    && var ns := HexNibbles(content[..i]);
    && pending == (|ns| % 2 == 1)
    && (pending ==> high == ns[|ns| - 1])
    && r == PackNibbles(EvenPart(ns))
  }

  /** `DecodeHexString`: one pass keeping the high nibble of an unfinished byte. */
  method DecodeHexString(content: seq<byte>) returns (r: seq<byte>)
    ensures r == HexBytes(content)
  {
    r := [];
    var pending := false;
    var high: nibble := 0;
    var i := 0;
    while i < |content|
      invariant HexDecoded(content, i, r, pending, high)
    {
      r, pending, high := DecodeHexByte(content, i, r, pending, high);
      i := i + 1;
    }
    HexDecodedEnd(content, r, pending, high);
    if pending {
      r := r + [high * 16];
    }
  }

  /** One byte of a hexadecimal string's content: a digit finishes or starts a byte. */
  method DecodeHexByte(content: seq<byte>, i: nat, r0: seq<byte>, pending0: bool, high0: nibble)
    returns (r: seq<byte>, pending: bool, high: nibble)
    requires i < |content| && HexDecoded(content, i, r0, pending0, high0)
    ensures HexDecoded(content, i + 1, r, pending, high)
  {
    ghost var ns := HexNibbles(content[..i]);
    r, pending, high := r0, pending0, high0;
    var v := HexValue(content[i]);
    HexNibblesStep(content, i);
    if v.Some? {
      assert HexNibbles(content[..i + 1]) == ns + [v.value];
      if pending {
        HexPairStep(ns, high, v.value);
        r := r + [high * 16 + v.value];
        pending := false;
      } else {
        HexFirstStep(ns, v.value);
        high := v.value;
        pending := true;
      }
    } else {
      assert HexNibbles(content[..i + 1]) == ns;
    }
  }

  /** At the end of the content, a pending nibble is the lone last digit. */
  lemma HexDecodedEnd(content: seq<byte>, r: seq<byte>, pending: bool, high: nibble)
    requires HexDecoded(content, |content|, r, pending, high)
    ensures (if pending then r + [high * 16] else r) == HexBytes(content)
  {
    var ns := HexNibbles(content);
    assert content[..|content|] == content;
    if !pending {
      assert EvenPart(ns) == ns;
    } else {
      HexOddEnd(ns, high);
    }
  }

  /** A digit completing a byte: the even part grows by the finished pair. */
  lemma HexPairStep(ns: seq<nibble>, high: nibble, v: nibble)
    requires |ns| % 2 == 1 && high == ns[|ns| - 1]
    ensures PackNibbles(EvenPart(ns + [v])) == PackNibbles(EvenPart(ns)) + [high * 16 + v]
  {
    assert EvenPart(ns + [v]) == EvenPart(ns) + [high, v];
    PackNibblesAppend(EvenPart(ns), high, v);
  }

  /** A digit starting a byte: the even part stays. */
  lemma HexFirstStep(ns: seq<nibble>, v: nibble)
    requires |ns| % 2 == 0
    ensures EvenPart(ns + [v]) == EvenPart(ns)
  {
  }

  /** A lone last digit is packed with a zero low nibble. */
  lemma HexOddEnd(ns: seq<nibble>, high: nibble)
    requires |ns| % 2 == 1 && high == ns[|ns| - 1]
    ensures PackNibbles(EvenPart(ns)) + [high * 16] == PackNibbles(ns)
  {
    var e := ns[..|ns| - 1];
    EvenPartOdd(ns);
    assert e + [high] == ns;
    PackNibblesAppendOdd(e, high);
  }

  /** The even part of an odd run is all but its last nibble. */
  lemma EvenPartOdd(ns: seq<nibble>)
    requires |ns| % 2 == 1
    ensures EvenPart(ns) == ns[..|ns| - 1] && (|ns| - 1) % 2 == 0
  {
  }

  /** Two upper-case digits per byte, high nibble first. */
  function HexText(b: seq<byte>): (r: seq<byte>)
    ensures |r| == 2 * |b|
  {
    if b == [] then [] else HexText(b[..|b| - 1]) + [HexDigitFor(b[|b| - 1] / 16), HexDigitFor(b[|b| - 1] % 16)]
  }

  /** High and low nibble of each byte, in order. */
  function NibblesOf(b: seq<byte>): (r: seq<nibble>)
    ensures |r| == 2 * |b|
  {
    if b == [] then [] else NibblesOf(b[..|b| - 1]) + [b[|b| - 1] / 16, b[|b| - 1] % 16]
  }

  /** The digits of the hexadecimal text of bytes are the bytes' nibbles. */
  lemma {:induction false} HexTextNibbles(b: seq<byte>)
    ensures HexNibbles(HexText(b)) == NibblesOf(b)
  {
    if b != [] {
      var last := b[|b| - 1];
      var pair := [HexDigitFor(last / 16), HexDigitFor(last % 16)];
      HexTextNibbles(b[..|b| - 1]);
      HexNibblesAppend(HexText(b[..|b| - 1]), pair);
      assert pair[..1] == [pair[0]] && [pair[0]][..0] == [];
      assert HexNibbles([pair[0]]) == [last / 16];
      assert HexNibbles(pair) == HexNibbles(pair[..1]) + [last % 16];
    }
  }

  /** Packing the nibbles of bytes gives the bytes. */
  lemma {:induction false} PackNibblesOf(b: seq<byte>)
    ensures PackNibbles(NibblesOf(b)) == b
  {
    if b != [] {
      var last := b[|b| - 1];
      PackNibblesOf(b[..|b| - 1]);
      PackNibblesAppend(NibblesOf(b[..|b| - 1]), last / 16, last % 16);
      assert b == b[..|b| - 1] + [last];
    }
  }

  /** The hexadecimal text of bytes decodes back to those bytes. */
  lemma HexTextRoundTrip(b: seq<byte>)
    ensures HexBytes(HexText(b)) == b
  {
    HexTextNibbles(b);
    PackNibblesOf(b);
  }

  // ---------------------------------------------------------------------
  // Literal strings.

  predicate IsOctalDigit(c: byte) { 0x30 <= c <= 0x37 }

  /** The byte a backslash followed by `c` stands for, other than an octal digit; 0 when unknown. */
  function EscapedByte(c: byte): byte
  {
    if c == 0x6E then 0x0A        // \n
    else if c == 0x72 then 0x0D   // \r
    else if c == 0x74 then 0x09   // \t
    else if c == 0x62 then 0x08   // \b
    else if c == 0x66 then 0x0C   // \f
    else if c == Backslash || c == LeftParenthesis || c == RightParenthesis then c
    else 0
  }

  /** One more octal digit: the value shifted by three bits and the digit added, kept to eight bits. */
  function OctalStep(b: byte, digit: byte): byte
    requires IsOctalDigit(digit)
  {
    (b * 8 + (digit - 0x30)) % 256
  }

  /**
   * The escape starting at `t[k]`, just after a backslash: the byte it
   * stands for and where the string goes on. Up to three octal digits
   * make one byte, keeping its low eight bits.
   */
  function Escape(t: Token, k: nat): (e: (byte, nat))
    requires k < |t|
    ensures k < e.1 <= |t|
  {
    if !IsOctalDigit(t[k]) then (EscapedByte(t[k]), k + 1)
    else if !(k + 1 < |t| && IsOctalDigit(t[k + 1])) then (t[k] - 0x30, k + 1)
    else if !(k + 2 < |t| && IsOctalDigit(t[k + 2])) then (OctalStep(t[k] - 0x30, t[k + 1]), k + 2)
    else (OctalStep(OctalStep(t[k] - 0x30, t[k + 1]), t[k + 2]), k + 3)
  }

  /** The decoded bytes of `t` from position `i` to the closing parenthesis. */
  function LiteralFrom(t: Token, i: nat): seq<byte>
    requires 1 <= i <= |t|
    decreases |t| - i
  {
    if i >= |t| - 1 then []
    else if t[i] == Backslash then
      var e := Escape(t, i + 1);
      [e.0] + LiteralFrom(t, e.1)
    else [t[i]] + LiteralFrom(t, i + 1)
  }

  /** A literal string's bytes; None when the token does not end with `)`. */
  function LiteralBytes(t: Token): Option<seq<byte>>
  {
    if t[|t| - 1] != RightParenthesis then None else Some(LiteralFrom(t, 1))
  }

  /** `ParseLiteralString`, one character or escape per round. */
  method ParseLiteralString(t: Token) returns (r: Option<seq<byte>>)
    ensures r == LiteralBytes(t)
  {
    if t[|t| - 1] != RightParenthesis {
      return None;
    }
    var out: seq<byte> := [];
    var i := 1;
    while i < |t| - 1
      invariant 1 <= i <= |t|
      invariant out + LiteralFrom(t, i) == LiteralFrom(t, 1)
      decreases |t| - i
    {
      var b, next := ReadCharacter(t, i);
      assert out + LiteralFrom(t, i) == (out + [b]) + LiteralFrom(t, next);
      out, i := out + [b], next;
    }
    assert out + [] == out;
    return Some(out);
  }

  /** One round of `ParseLiteralString`: a plain byte or an escape, and the position after it. */
  method ReadCharacter(t: Token, i: nat) returns (b: byte, next: nat)
    requires 1 <= i < |t| - 1
    ensures i < next <= |t| && LiteralFrom(t, i) == [b] + LiteralFrom(t, next)
  {
    if t[i] == Backslash {
      b, next := ReadEscape(t, i + 1);
    } else {
      b, next := t[i], i + 1;
    }
  }

  /** The escape after the backslash at `k - 1`: its byte, and the position after it. */
  method ReadEscape(t: Token, k: nat) returns (b: byte, next: nat)
    requires k < |t|
    ensures (b, next) == Escape(t, k)
  {
    var i := k;
    if IsOctalDigit(t[i]) {
      b := t[i] - 0x30;
      if i + 1 < |t| && IsOctalDigit(t[i + 1]) {
        i := i + 1;
        b := OctalStep(b, t[i]);
        if i + 1 < |t| && IsOctalDigit(t[i + 1]) {
          i := i + 1;
          b := OctalStep(b, t[i]);
        }
      }
    } else {
      b := EscapedByte(t[i]);
    }
    next := i + 1;
  }

  /** Whether a byte needs a backslash in a literal string written by EscapeLiteral. */
  predicate NeedsEscape(b: byte) { b == Backslash || b == LeftParenthesis || b == RightParenthesis }

  /** Literal-string content for `b`: backslashes before `\`, `(` and `)`. */
  function EscapeLiteral(b: seq<byte>): (r: seq<byte>)
  {
    if b == [] then []
    else (if NeedsEscape(b[0]) then [Backslash, b[0]] else [b[0]]) + EscapeLiteral(b[1..])
  }

  /** Decoding a string written with EscapeLiteral's escapes gives its bytes back. */
  lemma {:induction false} EscapeLiteralFrom(b: seq<byte>, t: Token, i: nat)
    requires 1 <= i && i + |EscapeLiteral(b)| + 1 == |t|
    requires t[i..|t| - 1] == EscapeLiteral(b)
    ensures LiteralFrom(t, i) == b
    decreases |b|
  {
    if b != [] {
      var rest := EscapeLiteral(b[1..]);
      var e := t[i..|t| - 1];
      if NeedsEscape(b[0]) {
        assert e == [Backslash, b[0]] + rest;
        assert t[i] == e[0] == Backslash && t[i + 1] == e[1] == b[0];
        assert !IsOctalDigit(b[0]) && EscapedByte(b[0]) == b[0];
        assert Escape(t, i + 1) == (b[0], i + 2);
        assert t[i + 2..|t| - 1] == e[2..] == rest;
        EscapeLiteralFrom(b[1..], t, i + 2);
      } else {
        assert e == [b[0]] + rest;
        assert t[i] == e[0] == b[0];
        assert t[i + 1..|t| - 1] == e[1..] == rest;
        EscapeLiteralFrom(b[1..], t, i + 1);
      }
    }
  }

  /** `(`, the escaped bytes, `)` parses back to the bytes. */
  lemma EscapeLiteralRoundTrip(b: seq<byte>)
    ensures var t := [LeftParenthesis] + EscapeLiteral(b) + [RightParenthesis];
      |t| > 0 && LiteralBytes(t) == Some(b)
  {
    var t: Token := [LeftParenthesis] + EscapeLiteral(b) + [RightParenthesis];
    assert t[1..|t| - 1] == EscapeLiteral(b);
    EscapeLiteralFrom(b, t, 1);
  }

  // ---------------------------------------------------------------------
  // Names.

  /**
   * The decoded bytes of a name token from position `i`: `#` and two
   * hexadecimal digits stand for one byte; a `#` without two digits after
   * it makes the name invalid.
   */
  function NameFrom(t: Token, i: nat): Option<seq<byte>>
    requires 1 <= i <= |t|
    decreases |t| - i
  {
    if i == |t| then Some([])
    else if t[i] != Sharp then
      var rest := NameFrom(t, i + 1);
      if rest.None? then None else Some([t[i]] + rest.value)
    else if i + 1 == |t| || HexValue(t[i + 1]).None? then None
    else if i + 2 == |t| || HexValue(t[i + 2]).None? then None
    else
      var rest := NameFrom(t, i + 3);
      if rest.None? then None else Some([HexValue(t[i + 1]).value * 16 + HexValue(t[i + 2]).value] + rest.value)
  }

  /** `prefix` put before the bytes of an optional result. */
  function Prefixed(prefix: seq<byte>, o: Option<seq<byte>>): Option<seq<byte>>
  {
    if o.None? then None else Some(prefix + o.value)
  }

  /** `ParseName`: the bytes after the slash, None for a broken `#` escape. */
  method ParseName(t: Token) returns (r: Option<seq<byte>>)
    ensures r == NameFrom(t, 1)
  {
    var out: seq<byte> := [];
    var i := 1;
    assert NameFrom(t, 1).Some? ==> [] + NameFrom(t, 1).value == NameFrom(t, 1).value;
    assert Prefixed(out, NameFrom(t, i)) == NameFrom(t, 1);
    while i < |t|
      invariant 1 <= i <= |t|
      invariant Prefixed(out, NameFrom(t, i)) == NameFrom(t, 1)
      decreases |t| - i
    {
      ghost var i0 := i;
      var b: byte;
      if t[i] == Sharp {
        i := i + 1;
        if i == |t| {
          return None;
        }
        var high := HexValue(t[i]);
        if high.None? {
          return None;
        }
        i := i + 1;
        if i == |t| {
          return None;
        }
        var low := HexValue(t[i]);
        if low.None? {
          return None;
        }
        b := high.value * 16 + low.value;
      } else {
        b := t[i];
      }
      i := i + 1;
      assert NameFrom(t, i0) == Prefixed([b], NameFrom(t, i));
      assert NameFrom(t, i).Some? ==> out + ([b] + NameFrom(t, i).value) == (out + [b]) + NameFrom(t, i).value;
      out := out + [b];
    }
    assert out + [] == out;
    return Some(out);
  }

  /** Bytes written as they are in a name: the regular characters of section 7.3.5 of ISO 32000-1, except `#`. */
  predicate PlainNameByte(b: byte)
  {
    0x21 <= b <= 0x7E && b != Sharp && b !in {0x28, 0x29, 0x3C, 0x3E, 0x5B, 0x5D, 0x7B, 0x7D, 0x2F, 0x25}
  }

  /** Name text for `b`: plain bytes as they are, every other byte as `#` and two digits. */
  function EscapeName(b: seq<byte>): seq<byte>
  {
    if b == [] then []
    else
      var first := if PlainNameByte(b[0]) then [b[0]] else [Sharp, HexDigitFor(b[0] / 16), HexDigitFor(b[0] % 16)];
      first + EscapeName(b[1..])
  }

  lemma {:induction false} EscapeNameFrom(b: seq<byte>, t: Token, i: nat)
    requires 1 <= i && i + |EscapeName(b)| == |t| && t[i..] == EscapeName(b)
    ensures NameFrom(t, i) == Some(b)
    decreases |b|
  {
    if b != [] {
      var e := EscapeName(b);
      if PlainNameByte(b[0]) {
        assert t[i] == b[0] && t[i] != Sharp;
        assert t[i + 1..] == e[1..];
        EscapeNameFrom(b[1..], t, i + 1);
        assert b == [b[0]] + b[1..];
      } else {
        assert t[i] == Sharp && t[i + 1] == HexDigitFor(b[0] / 16) && t[i + 2] == HexDigitFor(b[0] % 16);
        assert HexValue(t[i + 1]).value * 16 + HexValue(t[i + 2]).value == b[0];
        assert i + 2 < |t| && t[i + 3..] == e[3..];
        EscapeNameFrom(b[1..], t, i + 3);
        assert b == [b[0]] + b[1..];
      }
    }
  }

  /** A slash and the escaped bytes parse back to the bytes. */
  lemma EscapeNameRoundTrip(b: seq<byte>)
    ensures var t := [Slash] + EscapeName(b);
      |t| > 0 && NameFrom(t, 1) == Some(b)
  {
    var t: Token := [Slash] + EscapeName(b);
    assert t[1..] == EscapeName(b);
    EscapeNameFrom(b, t, 1);
  }
}
