/**
 * `PDFObjectParser`: recursive descent over the tokenizer's tokens, with a
 * queue of tokens the parser has put back. The tokenizer itself is not
 * part of this model: it is the sequence of tokens it will deliver, each
 * with the stream position that the parser would record after reading it.
 */
module PdfParser {
  import opened Common
  import opened PdfObjects
  import opened PdfLexical

  /**
   * A token from the tokenizer, and the read position right after it as
   * the parser computes it (the position of the underlying stream less
   * what the tokenizer has read ahead).
   */
  datatype Lexeme = Lexeme(text: Token, end: int)

  /** The parser's input: the put-back queue, the tokenizer's tokens still to come, and the position. */
  datatype Cursor = Cursor(pending: seq<Token>, input: seq<Lexeme>, position: int)

  function Measure(c: Cursor): nat { |c.pending| + |c.input| }

  /** The tokenizer's next token that is not a comment. */
  function SkipComments(c: Cursor): (r: (Option<Token>, Cursor))
    requires c.pending == []
    ensures r.1.pending == [] && Measure(r.1) <= Measure(c)
    ensures r.0.None? ==> r.1.input == []
    ensures r.0.Some? ==> !IsComment(r.0.value) && Measure(r.1) < Measure(c)
    decreases |c.input|
  {
    if c.input == [] then (None, c)
    else
      var next := Cursor([], c.input[1..], c.input[0].end);
      if IsComment(c.input[0].text) then SkipComments(next) else (Some(c.input[0].text), next)
  }

  /** `GetNextToken`: the put-back queue first, then the tokenizer, never a comment from it. */
  function NextToken(c: Cursor): (r: (Option<Token>, Cursor))
    ensures Measure(r.1) <= Measure(c)
    ensures r.0.Some? ==> Measure(r.1) < Measure(c)
    ensures c.pending != [] ==> r == (Some(c.pending[0]), c.(pending := c.pending[1..]))
    ensures r.0.None? ==> Measure(r.1) == 0
  {
    if c.pending != [] then (Some(c.pending[0]), c.(pending := c.pending[1..]))
    else SkipComments(c)
  }

  /** `SaveTokenToBuffer`: to the back of the queue. */
  function Saved(c: Cursor, t: Token): (r: Cursor)
    ensures Measure(r) == Measure(c) + 1
  {
    c.(pending := c.pending + [t])
  }

  /** `ReturnTokenToBuffer`: to the front of the queue. */
  function Returned(c: Cursor, t: Token): (r: Cursor)
    ensures Measure(r) == Measure(c) + 1
  {
    c.(pending := [t] + c.pending)
  }

  /** `ParseNumber`'s integer branch and its real branch, left as text. */
  function NumberObject(t: Token): PdfObject
    requires IsNumber(t)
  {
    if Dot in t then Real(t) else Integer(IntegerValue(t))
  }

  function LiteralStringObject(t: Token): Option<PdfObject>
  {
    var b := LiteralBytes(t);
    if b.None? then None else Some(LiteralString(b.value))
  }

  /** `ParseHexadecimalString`: None without the closing `>`. */
  function HexStringObject(t: Token): Option<PdfObject>
    requires IsHexadecimalString(t)
  {
    if t[|t| - 1] != RightAngle then None else Some(HexString(HexBytes(t[1..|t| - 1])))
  }

  function NameObject(t: Token): Option<PdfObject>
  {
    var n := NameFrom(t, 1);
    if n.None? then None else Some(Name(n.value))
  }

  /** `ParseNewObject`: the next object, None when there is no token or the object is malformed. */
  function ParseObject(c: Cursor): (r: (Option<PdfObject>, Cursor))
    ensures Measure(r.1) <= Measure(c) && (Measure(c) > 0 ==> Measure(r.1) < Measure(c))
    decreases Measure(c), 0
  {
    var n := NextToken(c);
    if n.0.None? then (None, n.1) else ParseToken(n.0.value, n.1)
  }

  /** What the object starting with token `t` is, the rest of the input being `c`. */
  function ParseToken(t: Token, c: Cursor): (r: (Option<PdfObject>, Cursor))
    ensures Measure(r.1) <= Measure(c)
    decreases Measure(c), 3
  {
    if IsBoolean(t) then (Some(Boolean(t == TrueKeyword)), c)
    else if IsLiteralString(t) then (LiteralStringObject(t), c)
    else if IsHexadecimalString(t) then (HexStringObject(t), c)
    else if IsNull(t) then (Some(Null), c)
    else if IsName(t) then (NameObject(t), c)
    else if IsNumber(t) then
      if IsIntegerToken(t) && IntegerValue(t) > 0 then ReferenceTail(IntegerValue(t), c)
      else (Some(NumberObject(t)), c)
    else if IsArray(t) then ParseArrayItems(c, [])
    else if IsDictionary(t) then DictionaryOrStream(c)
    else (Some(Symbol(t)), c)
  }

  /**
   * After a positive integer `n`: `n G R` with G a non-negative integer is
   * a reference. Otherwise the tokens looked at are put back, except a
   * second token that the input ends after.
   */
  function ReferenceTail(n: int, c: Cursor): (r: (Option<PdfObject>, Cursor))
    ensures Measure(r.1) <= Measure(c)
  {
    var a := NextToken(c);
    if a.0.None? then (Some(Integer(n)), a.1)
    else
      var version := a.0.value;
      if !IsIntegerToken(version) || IntegerValue(version) < 0 then (Some(Integer(n)), Saved(a.1, version))
      else
        var b := NextToken(a.1);
        if b.0.None? then (Some(Integer(n)), b.1)
        else if b.0.value != ReferenceKeyword then (Some(Integer(n)), Saved(Saved(b.1, version), b.0.value))
        else (Some(IndirectReference(n, IntegerValue(version))), b.1)
  }

  /** `ParseArray`'s loop, `items` parsed so far: objects up to `]`. */
  function ParseArrayItems(c: Cursor, items: seq<PdfObject>): (r: (Option<PdfObject>, Cursor))
    ensures Measure(r.1) <= Measure(c)
    ensures r.0.Some? ==> r.0.value.Array?
    decreases Measure(c), 1
  {
    var n := NextToken(c);
    if n.0.None? then (None, n.1)
    else if n.0.value == ArrayEnd then (Some(Array(items)), n.1)
    else
      var o := ParseObject(Returned(n.1, n.0.value));
      if o.0.None? then (None, NextToken(o.1).1)
      else ParseArrayItems(o.1, items + [o.0.value])
  }

  /** `Insert` guarded by `Exists`: the first value for a key stays. */
  function WithEntry(entries: map<seq<byte>, PdfObject>, key: seq<byte>, value: PdfObject): map<seq<byte>, PdfObject>
  {
    if key in entries then entries else entries[key := value]
  }

  /**
   * `ParseDictionary`'s loop, `entries` collected so far: key and value
   * pairs up to `>>`. A key that is not a name fails the dictionary.
   */
  function ParseDictEntries(c: Cursor, entries: map<seq<byte>, PdfObject>): (r: (Option<map<seq<byte>, PdfObject>>, Cursor))
    ensures Measure(r.1) <= Measure(c)
    decreases Measure(c), 1
  {
    var n := NextToken(c);
    if n.0.None? then (None, n.1)
    else if n.0.value == DictionaryEnd then (Some(entries), n.1)
    else
      var key := ParseObject(Returned(n.1, n.0.value));
      if key.0.None? then (None, key.1)
      else
        var value := ParseObject(key.1);
        if value.0.None? || !key.0.value.Name? then (None, value.1)
        else ParseDictEntries(value.1, WithEntry(entries, key.0.value.name, value.0.value))
  }

  /** A dictionary, and a stream when the `stream` keyword follows it. */
  function DictionaryOrStream(c: Cursor): (r: (Option<PdfObject>, Cursor))
    ensures Measure(r.1) <= Measure(c)
    decreases Measure(c), 2
  {
    var d := ParseDictEntries(c, map[]);
    if d.0.None? then (None, d.1)
    else
      var n := NextToken(d.1);
      if n.0.None? then (Some(Dictionary(d.0.value)), n.1)
      else if n.0.value == StreamKeyword then (Some(StreamInput(d.0.value, n.1.position)), n.1)
      else (Some(Dictionary(d.0.value)), Saved(n.1, n.0.value))
  }

  // ---------------------------------------------------------------------
  // Properties of the parser.

  /** An integer token is none of the kinds tested before numbers. */
  lemma IntegerTokenKind(t: Token)
    requires IsIntegerToken(t)
    ensures !IsBoolean(t) && !IsLiteralString(t) && !IsHexadecimalString(t) && !IsNull(t) && !IsName(t)
    ensures !IsComment(t) && t != ReferenceKeyword && t != ArrayEnd && t != DictionaryEnd
  {
  }

  /** `N G R` from the tokenizer, N positive and G non-negative, is a reference. */
  lemma ReferenceParses(objectId: Token, version: Token, e1: int, e2: int, e3: int, rest: seq<Lexeme>, position: int)
    requires IsIntegerToken(objectId) && IntegerValue(objectId) > 0
    requires IsIntegerToken(version) && IntegerValue(version) >= 0
    ensures ParseObject(Cursor([], [Lexeme(objectId, e1), Lexeme(version, e2), Lexeme(ReferenceKeyword, e3)] + rest, position))
      == (Some(IndirectReference(IntegerValue(objectId), IntegerValue(version))), Cursor([], rest, e3))
  {
    IntegerTokenKind(objectId);
    IntegerTokenKind(version);
    var input := [Lexeme(objectId, e1), Lexeme(version, e2), Lexeme(ReferenceKeyword, e3)] + rest;
    assert input[1..][1..][1..] == rest;
  }

  /** A second token that is no non-negative integer is put back, and the number stands alone. */
  lemma ReferenceBacktracksOnVersion(objectId: Token, second: Token, e1: int, e2: int, rest: seq<Lexeme>, position: int)
    requires IsIntegerToken(objectId) && IntegerValue(objectId) > 0
    requires !IsComment(second) && !(IsIntegerToken(second) && IntegerValue(second) >= 0)
    ensures ParseObject(Cursor([], [Lexeme(objectId, e1), Lexeme(second, e2)] + rest, position))
      == (Some(Integer(IntegerValue(objectId))), Cursor([second], rest, e2))
  {
    IntegerTokenKind(objectId);
    var input := [Lexeme(objectId, e1), Lexeme(second, e2)] + rest;
    assert input[1..][1..] == rest;
    var c1 := Cursor([], input[1..], e1);
    assert NextToken(Cursor([], input, position)) == (Some(objectId), c1);
    assert NextToken(c1) == (Some(second), Cursor([], rest, e2));
    assert ParseToken(objectId, c1) == ReferenceTail(IntegerValue(objectId), c1);
    assert ReferenceTail(IntegerValue(objectId), c1) == (Some(Integer(IntegerValue(objectId))), Saved(Cursor([], rest, e2), second));
    assert [] + [second] == [second];
  }

  /** A third token other than `R` is put back after the second, in their order. */
  lemma ReferenceBacktracksOnKeyword(objectId: Token, version: Token, third: Token, e1: int, e2: int, e3: int,
                                     rest: seq<Lexeme>, position: int)
    requires IsIntegerToken(objectId) && IntegerValue(objectId) > 0
    requires IsIntegerToken(version) && IntegerValue(version) >= 0
    requires !IsComment(third) && third != ReferenceKeyword
    ensures ParseObject(Cursor([], [Lexeme(objectId, e1), Lexeme(version, e2), Lexeme(third, e3)] + rest, position))
      == (Some(Integer(IntegerValue(objectId))), Cursor([version, third], rest, e3))
  {
    IntegerTokenKind(objectId);
    IntegerTokenKind(version);
    var input := [Lexeme(objectId, e1), Lexeme(version, e2), Lexeme(third, e3)] + rest;
    assert input[1..][1..][1..] == rest;
    var c1 := Cursor([], input[1..], e1);
    var c2 := Cursor([], input[1..][1..], e2);
    assert NextToken(Cursor([], input, position)) == (Some(objectId), c1);
    assert NextToken(c1) == (Some(version), c2);
    assert NextToken(c2) == (Some(third), Cursor([], rest, e3));
    assert ParseToken(objectId, c1) == ReferenceTail(IntegerValue(objectId), c1);
    var c3 := Cursor([], rest, e3);
    assert ReferenceTail(IntegerValue(objectId), c1) == (Some(Integer(IntegerValue(objectId))), Saved(Saved(c3, version), third));
    assert [] + [version] + [third] == [version, third];
  }

  /** When the input ends right after the second token, that token is lost. */
  lemma ReferenceCutShort(objectId: Token, version: Token, e1: int, e2: int, position: int)
    requires IsIntegerToken(objectId) && IntegerValue(objectId) > 0
    requires IsIntegerToken(version) && IntegerValue(version) >= 0
    ensures ParseObject(Cursor([], [Lexeme(objectId, e1), Lexeme(version, e2)], position))
      == (Some(Integer(IntegerValue(objectId))), Cursor([], [], e2))
  {
    IntegerTokenKind(objectId);
    IntegerTokenKind(version);
  }

  /** Entries collected before stay, with their values, in the dictionary that comes out. */
  lemma {:induction false} DictionaryKeepsFirst(c: Cursor, entries: map<seq<byte>, PdfObject>)
    ensures var r := ParseDictEntries(c, entries);
      r.0.Some? ==> forall k :: k in entries ==> k in r.0.value && r.0.value[k] == entries[k]
    decreases Measure(c)
  {
    var n := NextToken(c);
    if n.0.Some? && n.0.value != DictionaryEnd {
      var key := ParseObject(Returned(n.1, n.0.value));
      if key.0.Some? {
        var value := ParseObject(key.1);
        if value.0.Some? && key.0.value.Name? {
          DictionaryKeepsFirst(value.1, WithEntry(entries, key.0.value.name, value.0.value));
        }
      }
    }
  }

  /** The items parsed before stay, in order, at the front of the array that comes out. */
  lemma {:induction false} ArrayKeepsOrder(c: Cursor, items: seq<PdfObject>)
    ensures var r := ParseArrayItems(c, items);
      r.0.Some? ==> |items| <= |r.0.value.items| && r.0.value.items[..|items|] == items
    decreases Measure(c)
  {
    var n := NextToken(c);
    if n.0.Some? && n.0.value != ArrayEnd {
      var o := ParseObject(Returned(n.1, n.0.value));
      if o.0.Some? {
        ArrayKeepsOrder(o.1, items + [o.0.value]);
        var r := ParseArrayItems(o.1, items + [o.0.value]);
        if r.0.Some? {
          assert r.0.value.items[..|items|] == r.0.value.items[..|items| + 1][..|items|];
        }
      }
    }
  }

  /** `<< >> stream` is a stream whose data starts at the position after the keyword. */
  lemma EmptyDictionaryStream(e1: int, e2: int, e3: int, rest: seq<Lexeme>, position: int)
    ensures ParseObject(Cursor([], [Lexeme(DictionaryStart, e1), Lexeme(DictionaryEnd, e2), Lexeme(StreamKeyword, e3)] + rest, position))
      == (Some(StreamInput(map[], e3)), Cursor([], rest, e3))
  {
    var input := [Lexeme(DictionaryStart, e1), Lexeme(DictionaryEnd, e2), Lexeme(StreamKeyword, e3)] + rest;
    assert input[1..][1..][1..] == rest;
    var c1 := Cursor([], input[1..], e1);
    var c2 := Cursor([], input[1..][1..], e2);
    var n0, n1, n2 := NextToken(Cursor([], input, position)), NextToken(c1), NextToken(c2);
    assert n0.0.Some? && n0.0.value == DictionaryStart && n0.1 == c1;
    assert n1.0.Some? && n1.0.value == DictionaryEnd && n1.1 == c2;
    assert ParseDictEntries(c1, map[]) == (Some(map[]), c2);
    assert n2.0.Some? && n2.0.value == StreamKeyword && n2.1 == Cursor([], rest, e3);
    assert ParseToken(DictionaryStart, c1) == DictionaryOrStream(c1);
  }

  // ---------------------------------------------------------------------
  // The parser object.

  class PDFObjectParser {
    /** `mTokenBuffer`: tokens put back, served before the tokenizer's. */
    var tokenBuffer: seq<Token>
    /** The tokens the tokenizer has still to deliver. */
    var tokenizer: seq<Lexeme>
    /** The read position after the tokenizer's last token, less its read-ahead. */
    var position: int

    function State(): Cursor
      reads this
    {
      Cursor(tokenBuffer, tokenizer, position)
    }

    /** A parser reading the given tokens from a stream at `start`, with nothing put back. */
    constructor (tokens: seq<Lexeme>, start: int)
      ensures State() == Cursor([], tokens, start)
    {
      tokenBuffer, tokenizer, position := [], tokens, start;
    }

    /** `SetReadStream` and `ResetReadState`: a new token source, the queue emptied. */
    method SetReadStream(tokens: seq<Lexeme>, start: int)
      modifies this
      ensures State() == Cursor([], tokens, start)
    {
      tokenBuffer, tokenizer, position := [], tokens, start;
    }

    method SaveTokenToBuffer(t: Token)
      modifies this
      ensures State() == Saved(old(State()), t)
    {
      tokenBuffer := tokenBuffer + [t];
    }

    method ReturnTokenToBuffer(t: Token)
      modifies this
      ensures State() == Returned(old(State()), t)
    {
      tokenBuffer := [t] + tokenBuffer;
    }

    method GetNextToken() returns (ok: bool, t: Token)
      modifies this
      ensures (if ok then Some(t) else None, State()) == NextToken(old(State()))
    {
      if tokenBuffer != [] {
        t := tokenBuffer[0];
        tokenBuffer := tokenBuffer[1..];
        return true, t;
      }
      t := [0];
      while tokenizer != []
        invariant tokenBuffer == [] && SkipComments(old(State())) == SkipComments(State())
        decreases |tokenizer|
      {
        var next := tokenizer[0];
        tokenizer, position := tokenizer[1..], next.end;
        if !IsComment(next.text) {
          return true, next.text;
        }
      }
      return false, t;
    }

    method ParseNewObject() returns (r: Option<PdfObject>)
      modifies this
      ensures (r, State()) == ParseObject(old(State()))
      decreases Measure(State()), 0
    {
      var ok, t := GetNextToken();
      if !ok {
        return None;
      }
      r := ParseTokenObject(t);
    }

    /** The branches of `ParseNewObject` on its first token. */
    method ParseTokenObject(t: Token) returns (r: Option<PdfObject>)
      modifies this
      ensures (r, State()) == ParseToken(t, old(State()))
      decreases Measure(State()), 3
    {
      if IsBoolean(t) {
        r := Some(Boolean(t == TrueKeyword));
      } else if IsLiteralString(t) {
        var b := ParseLiteralString(t);
        r := if b.None? then None else Some(LiteralString(b.value));
      } else if IsHexadecimalString(t) {
        if t[|t| - 1] != RightAngle {
          r := None;
        } else {
          var b := DecodeHexString(t[1..|t| - 1]);
          r := Some(HexString(b));
        }
      } else if IsNull(t) {
        r := Some(Null);
      } else if IsName(t) {
        var b := ParseName(t);
        r := if b.None? then None else Some(Name(b.value));
      } else if IsNumber(t) {
        if IsIntegerToken(t) && IntegerValue(t) > 0 {
          r := ParseReferenceTail(IntegerValue(t));
        } else {
          r := Some(NumberObject(t));
        }
      } else if IsArray(t) {
        r := ParseArray();
      } else if IsDictionary(t) {
        r := ParseDictionaryOrStream();
      } else {
        r := Some(Symbol(t));
      }
    }

    /** The look-ahead after a positive integer, as `ParseNewObject` does it. */
    method ParseReferenceTail(n: int) returns (r: Option<PdfObject>)
      modifies this
      ensures (r, State()) == ReferenceTail(n, old(State()))
    {
      var ok, version := GetNextToken();
      if !ok {
        return Some(Integer(n));
      }
      if !IsNumber(version) || Dot in version || IntegerValue(version) < 0 {
        SaveTokenToBuffer(version);
        return Some(Integer(n));
      }
      var ok2, keyword := GetNextToken();
      if !ok2 {
        return Some(Integer(n));
      }
      if keyword != ReferenceKeyword {
        SaveTokenToBuffer(version);
        SaveTokenToBuffer(keyword);
        return Some(Integer(n));
      }
      return Some(IndirectReference(n, IntegerValue(version)));
    }

    method ParseArray() returns (r: Option<PdfObject>)
      modifies this
      ensures (r, State()) == ParseArrayItems(old(State()), [])
      decreases Measure(State()), 1
    {
      var items: seq<PdfObject> := [];
      while true
        invariant ParseArrayItems(old(State()), []) == ParseArrayItems(State(), items)
        decreases Measure(State())
      {
        var ok, t := GetNextToken();
        if !ok {
          return None;
        }
        if t == ArrayEnd {
          return Some(Array(items));
        }
        ReturnTokenToBuffer(t);
        var o := ParseNewObject();
        if o.None? {
          // the loop's condition reads one more token before it sees the failure
          var _, _ := GetNextToken();
          return None;
        }
        items := items + [o.value];
      }
    }

    /** `ParseDictionary`, then the look-ahead for `stream` that `ParseNewObject` does after it. */
    method ParseDictionaryOrStream() returns (r: Option<PdfObject>)
      modifies this
      ensures (r, State()) == DictionaryOrStream(old(State()))
      decreases Measure(State()), 2
    {
      var d := ParseDictionary();
      if d.None? {
        return None;
      }
      var ok, t := GetNextToken();
      if !ok {
        return Some(Dictionary(d.value));
      }
      if t == StreamKeyword {
        return Some(StreamInput(d.value, position));
      }
      SaveTokenToBuffer(t);
      return Some(Dictionary(d.value));
    }

    method ParseDictionary() returns (r: Option<map<seq<byte>, PdfObject>>)
      modifies this
      ensures (r, State()) == ParseDictEntries(old(State()), map[])
      decreases Measure(State()), 1
    {
      var dictionary := new PDFDictionary();
      while true
        invariant ParseDictEntries(old(State()), map[]) == ParseDictEntries(State(), dictionary.values)
        decreases Measure(State())
      {
        var ok, t := GetNextToken();
        if !ok {
          return None;
        }
        if t == DictionaryEnd {
          return Some(dictionary.values);
        }
        ReturnTokenToBuffer(t);
        var key := ParseNewObject();
        if key.None? {
          return None;
        }
        var value := ParseNewObject();
        if value.None? || !key.value.Name? {
          return None;
        }
        if !dictionary.Exists(key.value.name) {
          dictionary.Insert(key.value.name, value.value);
        }
      }
    }
  }
}
