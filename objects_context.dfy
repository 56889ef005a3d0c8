/**
 * The objects context: the writer that numbers indirect objects through the
 * registry, keeps the stack of open dictionaries, starts and ends streams and
 * emits the cross-reference section. The output stream is the sequence
 * `out`; the current write position is its length.
 */
module ObjectsContextModel {
  import opened Common
  import opened Registry
  import opened XrefFormat
  import opened XrefSections

  // Token formats of the primitive writer and of dictionary contexts, whose
  // bodies are not part of this model (see README).

  const SpaceSeparator: seq<byte> := [32]
  const EndLineSeparator: seq<byte> := [10]

  /** An integer token followed by its separator. */
  function IntegerToken(v: int, separator: seq<byte>): seq<byte>
  {
    (if v < 0 then [45] + Decimal(-v) else Decimal(v)) + separator
  }

  /** A keyword on a line of its own. */
  function KeywordLine(k: string): seq<byte> { Ascii(k) + EndLineSeparator }

  /** A dictionary key: `/Key` and a space. */
  function KeyToken(k: string): seq<byte> { [47] + Ascii(k) + SpaceSeparator }

  /** A name value in a dictionary: `/Name` and the end of the line. */
  function NameValue(n: string): seq<byte> { [47] + Ascii(n) + EndLineSeparator }

  /** A reference value in a dictionary: `id 0 R` and the end of the line. */
  function ReferenceValue(id: nat): seq<byte>
  {
    IntegerToken(id, SpaceSeparator) + IntegerToken(0, SpaceSeparator) + [82] + EndLineSeparator
  }

  const DictionaryStartBytes: seq<byte> := [60, 60] + EndLineSeparator
  const DictionaryEndBytes: seq<byte> := [62, 62] + EndLineSeparator
  const ArrayStartBytes: seq<byte> := [91]
  const ArrayEndBytes: seq<byte> := [93, 32]

  /** The line that opens an indirect object: `id 0 obj`. */
  function ObjectHeader(id: nat): seq<byte>
  {
    IntegerToken(id, SpaceSeparator) + IntegerToken(0, SpaceSeparator) + KeywordLine("obj")
  }

  /** The `/Index` array entries of an xref stream: `first count ` per subsection. */
  function IndexPairs(rs: seq<Subsection>): seq<byte>
  {
    if rs == [] then []
    else
      IndexPairs(rs[..|rs| - 1])
      + IntegerToken(rs[|rs| - 1].first, SpaceSeparator) + IntegerToken(rs[|rs| - 1].count, SpaceSeparator)
  }

  /** Whether ending dictionary `d` succeeds on `stack`: it must be the innermost open one. */
  predicate Closes(stack: seq<nat>, d: nat) { stack != [] && stack[|stack| - 1] == d }

  /** The stack after an attempt to end dictionary `d`. */
  function AfterEnd(stack: seq<nat>, d: nat): seq<nat>
  {
    if Closes(stack, d) then stack[..|stack| - 1] else stack
  }

  /** The dictionary bytes a stream starts with: a new dictionary if none was given, and the filter. */
  function StreamOpening(newDictionary: bool, compress: bool): seq<byte>
  {
    (if newDictionary then DictionaryStartBytes else [])
      + (if compress then KeyToken("Filter") + NameValue("FlateDecode") else [])
  }

  /** The output after a stream's opening, piece by piece as it is written. */
  lemma StreamOpeningParts(p: seq<byte>, newDictionary: bool, compress: bool)
    ensures var q := if newDictionary then p + DictionaryStartBytes else p;
      (if compress then q + KeyToken("Filter") + NameValue("FlateDecode") else q) == p + StreamOpening(newDictionary, compress)
  {
  }

  /** The end of a stream whose length is written directly into its dictionary. */
  function DirectStreamEnd(content: seq<byte>, closes: bool): seq<byte>
  {
    KeyToken("Length") + IntegerToken(|content|, EndLineSeparator) + (if closes then DictionaryEndBytes else [])
      + KeywordLine("stream") + content + EndLineSeparator + KeywordLine("endstream") + KeywordLine("endobj")
  }

  /** The end of a stream whose length goes to a separate object. */
  function IndirectStreamEnd(content: seq<byte>): seq<byte>
  {
    content + EndLineSeparator + KeywordLine("endstream") + KeywordLine("endobj")
  }

  /** The output after the direct-extent end of a stream, piece by piece as it is written. */
  lemma DirectStreamEndParts(p: seq<byte>, content: seq<byte>, closes: bool)
    ensures p + KeyToken("Length") + IntegerToken(|content|, EndLineSeparator) + (if closes then DictionaryEndBytes else [])
      + KeywordLine("stream") + content + EndLineSeparator + KeywordLine("endstream") + KeywordLine("endobj")
      == p + DirectStreamEnd(content, closes)
  {
    PrefixThenParts(p, KeyToken("Length"), IntegerToken(|content|, EndLineSeparator), if closes then DictionaryEndBytes else [],
      KeywordLine("stream"), content, EndLineSeparator, KeywordLine("endstream"), KeywordLine("endobj"));
  }

  /** The output after the end of a stream with a separate length object, piece by piece. */
  lemma IndirectStreamEndParts(p: seq<byte>, content: seq<byte>)
    ensures p + content + EndLineSeparator + KeywordLine("endstream") + KeywordLine("endobj")
      == p + IndirectStreamEnd(content)
  {
  }

  /** The object holding a stream's length. */
  function ExtentObject(id: nat, length: nat): seq<byte>
  {
    ObjectHeader(id) + IntegerToken(length, EndLineSeparator) + KeywordLine("endobj")
  }

  /** The registry after `MarkObjectAsWritten(id, position)`, whether it succeeds or not. */
  function MarkedWritten(es: seq<ObjectWriteInformation>, id: nat, position: int): seq<ObjectWriteInformation>
  {
    if id < |es| && !es[id].written && position <= MaxXrefPosition
    then es[id := es[id].(dirty := true, position := position, written := true)]
    else es
  }

  /** Calls made on the encryption helper, in order. */
  datatype EncryptionEvent = ObjectStart(id: nat, generation: nat) | ObjectEnd | Pause | Release

  /**
   * A stream being written. `extentObjectID` is the object that will hold
   * `/Length`, or 0 when the length is written directly into the still-open
   * `dictionary`.
   */
  datatype PDFStream = PDFStream(compressed: bool, extentObjectID: nat, dictionary: nat)

  class ObjectsContext {
    var out: seq<byte>
    const registry: IndirectObjectsReferenceRegistry
    /** Handles of the open dictionaries, innermost last. */
    var dictionaryStack: seq<nat>
    var nextDictionaryHandle: nat
    var compressStreams: bool
    /** Whether an encryption helper is set, and whether it is encrypting. */
    var hasEncryptionHelper: bool
    var encrypting: bool
    var encryptionEvents: seq<EncryptionEvent>

    ghost predicate Valid()
      reads this`dictionaryStack, this`nextDictionaryHandle
    {
      forall j :: 0 <= j < |dictionaryStack| ==> dictionaryStack[j] < nextDictionaryHandle
    }

    constructor ()
      ensures Valid() && fresh(registry)
      ensures out == [] && registry.entries == [InitialFreeObject]
      ensures dictionaryStack == [] && compressStreams
      ensures !hasEncryptionHelper && !encrypting && encryptionEvents == []
    {
      out := [];
      registry := new IndirectObjectsReferenceRegistry();
      dictionaryStack := [];
      nextDictionaryHandle := 0;
      compressStreams := true;
      hasEncryptionHelper := false;
      encrypting := false;
      encryptionEvents := [];
    }

    function GetCurrentPosition(): (p: nat)
      reads this
      ensures p == |out|
    {
      |out|
    }

    /** Opens a dictionary: a new handle is pushed on the stack. */
    method StartDictionary() returns (d: nat)
      requires Valid()
      modifies this
      ensures Valid()
      ensures d == old(nextDictionaryHandle) && d !in old(dictionaryStack)
      ensures nextDictionaryHandle == old(nextDictionaryHandle) + 1
      ensures dictionaryStack == old(dictionaryStack) + [d]
      ensures out == old(out) + DictionaryStartBytes
      ensures compressStreams == old(compressStreams) && encryptionEvents == old(encryptionEvents)
      ensures hasEncryptionHelper == old(hasEncryptionHelper) && encrypting == old(encrypting)
    {
      d := nextDictionaryHandle;
      nextDictionaryHandle := nextDictionaryHandle + 1;
      dictionaryStack := dictionaryStack + [d];
      out := out + DictionaryStartBytes;
    }

    /**
     * Closes dictionary `d`. It succeeds only when `d` is the innermost open
     * dictionary; a nesting violation or an empty stack fails and leaves the
     * stack and the output unchanged.
     */
    method EndDictionary(d: nat) returns (s: Status)
      requires Valid()
      modifies this
      ensures Valid() && nextDictionaryHandle == old(nextDictionaryHandle)
      ensures s == Success <==> Closes(old(dictionaryStack), d)
      ensures dictionaryStack == AfterEnd(old(dictionaryStack), d)
      ensures out == old(out) + (if s == Success then DictionaryEndBytes else [])
      ensures compressStreams == old(compressStreams) && encryptionEvents == old(encryptionEvents)
      ensures hasEncryptionHelper == old(hasEncryptionHelper) && encrypting == old(encrypting)
    {
      if dictionaryStack != [] {
        if dictionaryStack[|dictionaryStack| - 1] == d {
          out := out + DictionaryEndBytes;
          dictionaryStack := dictionaryStack[..|dictionaryStack| - 1];
          return Success;
        }
        return Failure;
      }
      return Failure;
    }

    /**
     * Allocates a new object, records it as written at the current position
     * and writes its `id 0 obj` line.
     */
    method StartNewIndirectObject() returns (id: nat)
      requires Valid()
      modifies this, registry
      ensures Valid() && dictionaryStack == old(dictionaryStack) && nextDictionaryHandle == old(nextDictionaryHandle)
      ensures id == |old(registry.entries)|
      ensures old(|out|) <= MaxXrefPosition ==>
        registry.entries == old(registry.entries) + [NewUsedObject.(written := true, position := old(|out|))]
      ensures old(|out|) > MaxXrefPosition ==> registry.entries == old(registry.entries) + [NewUsedObject]
      ensures out == old(out) + ObjectHeader(id)
      ensures encryptionEvents == old(encryptionEvents) + (if encrypting then [ObjectStart(id, 0)] else [])
      ensures compressStreams == old(compressStreams)
      ensures hasEncryptionHelper == old(hasEncryptionHelper) && encrypting == old(encrypting)
    {
      id := registry.AllocateNewObjectID();
      var _ := registry.MarkObjectAsWritten(id, GetCurrentPosition());
      out := out + ObjectHeader(id);
      if encrypting {
        encryptionEvents := encryptionEvents + [ObjectStart(id, 0)];
      }
    }

    /** Starts an object whose ID was allocated earlier (the ID-taking overload). */
    method StartNewIndirectObjectWithID(id: nat) returns (marked: Status)
      requires Valid()
      modifies this, registry
      ensures Valid() && dictionaryStack == old(dictionaryStack) && nextDictionaryHandle == old(nextDictionaryHandle)
      ensures marked == Success <==>
        id < |old(registry.entries)| && !old(registry.entries)[id].written && old(|out|) <= MaxXrefPosition
      ensures registry.entries == MarkedWritten(old(registry.entries), id, old(|out|))
      ensures out == old(out) + ObjectHeader(id)
      ensures encryptionEvents == old(encryptionEvents) + (if encrypting then [ObjectStart(id, 0)] else [])
      ensures compressStreams == old(compressStreams)
      ensures hasEncryptionHelper == old(hasEncryptionHelper) && encrypting == old(encrypting)
    {
      marked := registry.MarkObjectAsWritten(id, GetCurrentPosition());
      out := out + ObjectHeader(id);
      if encrypting {
        encryptionEvents := encryptionEvents + [ObjectStart(id, 0)];
      }
    }

    /** Starts a new version of an existing object of a modified file. */
    method StartModifiedIndirectObject(id: nat) returns (marked: Status)
      requires Valid()
      modifies this, registry
      ensures Valid() && dictionaryStack == old(dictionaryStack) && nextDictionaryHandle == old(nextDictionaryHandle)
      ensures marked == Success <==> id < |old(registry.entries)| && old(|out|) <= MaxXrefPosition
      ensures marked == Success ==>
        registry.entries == old(registry.entries)[id := old(registry.entries)[id].(dirty := true, position := old(|out|), refType := Used)]
      ensures marked == Failure ==> registry.entries == old(registry.entries)
      ensures out == old(out) + ObjectHeader(id)
      ensures encryptionEvents == old(encryptionEvents) + (if encrypting then [ObjectStart(id, 0)] else [])
      ensures compressStreams == old(compressStreams)
      ensures hasEncryptionHelper == old(hasEncryptionHelper) && encrypting == old(encrypting)
    {
      marked := registry.MarkObjectAsUpdated(id, GetCurrentPosition());
      out := out + ObjectHeader(id);
      if encrypting {
        encryptionEvents := encryptionEvents + [ObjectStart(id, 0)];
      }
    }

    method EndIndirectObject()
      modifies this
      ensures out == old(out) + KeywordLine("endobj")
      ensures encryptionEvents == old(encryptionEvents) + (if encrypting then [ObjectEnd] else [])
      ensures dictionaryStack == old(dictionaryStack) && nextDictionaryHandle == old(nextDictionaryHandle)
      ensures compressStreams == old(compressStreams)
      ensures hasEncryptionHelper == old(hasEncryptionHelper) && encrypting == old(encrypting)
    {
      out := out + KeywordLine("endobj");
      if encrypting {
        encryptionEvents := encryptionEvents + [ObjectEnd];
      }
    }

    /**
     * Writes a stream's dictionary header. Without `forceDirectExtent` the
     * length goes to a newly allocated object referenced from `/Length`, the
     * dictionary is closed and `stream` written; otherwise the dictionary
     * stays open until `EndPDFStream` writes the length directly.
     */
    method StartPDFStream(streamDictionary: Option<nat>, forceDirectExtent: bool) returns (stream: PDFStream)
      requires Valid()
      modifies this, registry
      ensures Valid() && nextDictionaryHandle >= old(nextDictionaryHandle)
      ensures stream.compressed == compressStreams
      ensures stream.dictionary == if streamDictionary.Some? then streamDictionary.value else old(nextDictionaryHandle)
      ensures forceDirectExtent ==>
        && stream.extentObjectID == 0
        && registry.entries == old(registry.entries)
        && out == old(out) + StreamOpening(streamDictionary.None?, compressStreams)
        && dictionaryStack == old(dictionaryStack) + (if streamDictionary.None? then [stream.dictionary] else [])
      ensures !forceDirectExtent ==> (
        var openStack := old(dictionaryStack) + (if streamDictionary.None? then [stream.dictionary] else []);
        stream.extentObjectID == |old(registry.entries)|
        && registry.entries == old(registry.entries) + [NewUsedObject]
        && dictionaryStack == AfterEnd(openStack, stream.dictionary)
        && out == old(out) + StreamOpening(streamDictionary.None?, compressStreams) + KeyToken("Length")
             + ReferenceValue(stream.extentObjectID) + (if Closes(openStack, stream.dictionary) then DictionaryEndBytes else [])
             + KeywordLine("stream"))
      ensures encryptionEvents == old(encryptionEvents) + (if hasEncryptionHelper then [Pause] else [])
      ensures compressStreams == old(compressStreams)
      ensures hasEncryptionHelper == old(hasEncryptionHelper) && encrypting == old(encrypting)
    {
      ghost var out0 := out;
      var d: nat;
      if streamDictionary.None? {
        d := StartDictionary();
      } else {
        d := streamDictionary.value;
      }
      if compressStreams {
        out := out + KeyToken("Filter") + NameValue("FlateDecode");
      }
      StreamOpeningParts(out0, streamDictionary.None?, compressStreams);
      if !forceDirectExtent {
        var lengthObjectID := WriteLengthReference(d);
        stream := PDFStream(compressStreams, lengthObjectID, d);
      } else {
        stream := PDFStream(compressStreams, 0, d);
      }
      if hasEncryptionHelper {
        encryptionEvents := encryptionEvents + [Pause];
      }
    }

    /**
     * `/Length` as a reference to a newly allocated object, the end of
     * dictionary `d` and the `stream` keyword.
     */
    method WriteLengthReference(d: nat) returns (lengthObjectID: nat)
      requires Valid()
      modifies this, registry
      ensures Valid() && nextDictionaryHandle == old(nextDictionaryHandle)
      ensures lengthObjectID == |old(registry.entries)|
      ensures registry.entries == old(registry.entries) + [NewUsedObject]
      ensures dictionaryStack == AfterEnd(old(dictionaryStack), d)
      ensures out == old(out) + KeyToken("Length") + ReferenceValue(lengthObjectID)
        + (if Closes(old(dictionaryStack), d) then DictionaryEndBytes else []) + KeywordLine("stream")
      ensures encryptionEvents == old(encryptionEvents) && compressStreams == old(compressStreams)
      ensures hasEncryptionHelper == old(hasEncryptionHelper) && encrypting == old(encrypting)
    {
      out := out + KeyToken("Length");
      lengthObjectID := registry.AllocateNewObjectID();
      out := out + ReferenceValue(lengthObjectID);
      var _ := EndDictionary(d);
      out := out + KeywordLine("stream");
    }

    /**
     * Finishes a stream whose (already filtered) bytes are `content`. With a
     * direct extent, `/Length` is written into the open dictionary before
     * `stream`; otherwise the length object allocated by `StartPDFStream` is
     * written after `endobj`.
     */
    method EndPDFStream(stream: PDFStream, content: seq<byte>)
      requires Valid()
      modifies this, registry
      ensures Valid() && nextDictionaryHandle == old(nextDictionaryHandle)
      ensures stream.extentObjectID == 0 ==>
        && registry.entries == old(registry.entries)
        && dictionaryStack == AfterEnd(old(dictionaryStack), stream.dictionary)
        && out == old(out) + DirectStreamEnd(content, Closes(old(dictionaryStack), stream.dictionary))
        && encryptionEvents == old(encryptionEvents) + (if hasEncryptionHelper then [Release] else [])
             + (if encrypting then [ObjectEnd] else [])
      ensures stream.extentObjectID != 0 ==>
        && dictionaryStack == old(dictionaryStack)
        && out == old(out) + IndirectStreamEnd(content) + ExtentObject(stream.extentObjectID, |content|)
        && registry.entries ==
             MarkedWritten(old(registry.entries), stream.extentObjectID, |old(out)| + |IndirectStreamEnd(content)|)
        && encryptionEvents == old(encryptionEvents) + (if hasEncryptionHelper then [Release] else [])
             + (if encrypting then [ObjectEnd, ObjectStart(stream.extentObjectID, 0), ObjectEnd] else [])
      ensures compressStreams == old(compressStreams)
      ensures hasEncryptionHelper == old(hasEncryptionHelper) && encrypting == old(encrypting)
    {
      if hasEncryptionHelper {
        encryptionEvents := encryptionEvents + [Release];
      }
      if stream.extentObjectID == 0 {
        WriteDirectExtentStreamEnd(stream.dictionary, content);
      } else {
        WriteIndirectExtentStreamEnd(stream.extentObjectID, content);
      }
    }

    /**
     * The end of a stream whose length goes to object `extentObjectID`: the
     * content, `endstream`, `endobj`, and then the length object.
     */
    method WriteIndirectExtentStreamEnd(extentObjectID: nat, content: seq<byte>)
      requires Valid()
      modifies this, registry
      ensures Valid() && dictionaryStack == old(dictionaryStack) && nextDictionaryHandle == old(nextDictionaryHandle)
      ensures out == old(out) + IndirectStreamEnd(content) + ExtentObject(extentObjectID, |content|)
      ensures registry.entries == MarkedWritten(old(registry.entries), extentObjectID, |old(out)| + |IndirectStreamEnd(content)|)
      ensures encryptionEvents == old(encryptionEvents)
        + (if encrypting then [ObjectEnd, ObjectStart(extentObjectID, 0), ObjectEnd] else [])
      ensures compressStreams == old(compressStreams)
      ensures hasEncryptionHelper == old(hasEncryptionHelper) && encrypting == old(encrypting)
    {
      out := out + content;
      WritePDFStreamEndWithoutExtent();
      EndIndirectObject();
      IndirectStreamEndParts(old(out), content);
      WritePDFStreamExtent(extentObjectID, |content|);
      if encrypting {
        AppendAssoc(old(encryptionEvents), [ObjectEnd], [ObjectStart(extentObjectID, 0), ObjectEnd]);
      }
    }

    /**
     * The direct-extent end of a stream: `/Length` and the length into the
     * still-open dictionary `d`, which is then ended, and the content between
     * `stream` and `endstream`.
     */
    method WriteDirectExtentStreamEnd(d: nat, content: seq<byte>)
      requires Valid()
      modifies this
      ensures Valid() && nextDictionaryHandle == old(nextDictionaryHandle)
      ensures dictionaryStack == AfterEnd(old(dictionaryStack), d)
      ensures out == old(out) + DirectStreamEnd(content, Closes(old(dictionaryStack), d))
      ensures encryptionEvents == old(encryptionEvents) + (if encrypting then [ObjectEnd] else [])
      ensures compressStreams == old(compressStreams)
      ensures hasEncryptionHelper == old(hasEncryptionHelper) && encrypting == old(encrypting)
    {
      out := out + KeyToken("Length") + IntegerToken(|content|, EndLineSeparator);
      var _ := EndDictionary(d);
      out := out + KeywordLine("stream") + content + EndLineSeparator + KeywordLine("endstream");
      EndIndirectObject();
      DirectStreamEndParts(old(out), content, Closes(old(dictionaryStack), d));
    }

    /** The line end and `endstream` after a stream's content. */
    method WritePDFStreamEndWithoutExtent()
      modifies this`out
      ensures out == old(out) + EndLineSeparator + KeywordLine("endstream")
    {
      out := out + EndLineSeparator + KeywordLine("endstream");
    }

    /** Writes the object that holds a stream's length. */
    method WritePDFStreamExtent(extentObjectID: nat, length: nat)
      requires Valid()
      modifies this, registry
      ensures Valid() && dictionaryStack == old(dictionaryStack) && nextDictionaryHandle == old(nextDictionaryHandle)
      ensures out == old(out) + ExtentObject(extentObjectID, length)
      ensures registry.entries == MarkedWritten(old(registry.entries), extentObjectID, |old(out)|)
      ensures encryptionEvents == old(encryptionEvents)
        + (if encrypting then [ObjectStart(extentObjectID, 0), ObjectEnd] else [])
      ensures compressStreams == old(compressStreams)
      ensures hasEncryptionHelper == old(hasEncryptionHelper) && encrypting == old(encrypting)
    {
      var _ := StartNewIndirectObjectWithID(extentObjectID);
      out := out + IntegerToken(length, EndLineSeparator);
      EndIndirectObject();
    }

    /**
     * Writes the classical cross-reference table: the `xref` line, then for
     * each subsection its header and its 20-byte entries. Returns the
     * position of the `xref` keyword; fails, after writing what came before,
     * at a dirty used object that was never written.
     */
    method WriteXrefTable() returns (writePosition: nat, status: Status)
      modifies this
      ensures writePosition == |old(out)|
      ensures out == old(out) + XrefLine + TableBody(registry.entries).bytes
      ensures status == Success <==> TableBody(registry.entries).ok
      ensures dictionaryStack == old(dictionaryStack) && nextDictionaryHandle == old(nextDictionaryHandle)
      ensures encryptionEvents == old(encryptionEvents) && compressStreams == old(compressStreams)
      ensures hasEncryptionHelper == old(hasEncryptionHelper) && encrypting == old(encrypting)
    {
      writePosition := |out|;
      out := out + XrefLine;
      var body;
      body, status := XrefTableBody(registry.entries);
      out := out + body;
    }

    /**
     * Writes an xref stream into the open dictionary `streamDictionary`:
     * `/Index` with the subsections, `/W [1 8 8]`, then one record per
     * dirty object in a stream whose length is written directly.
     * Fails, leaving the stream unfinished, at a dirty used object that was
     * never written.
     */
    method WriteXrefStream(streamDictionary: nat) returns (status: Status)
      requires Valid()
      modifies this, registry
      ensures Valid()
      ensures status == Success <==> StreamRecords(old(registry.entries), |old(registry.entries)|).ok
      ensures registry.entries == old(registry.entries)
      ensures var es := old(registry.entries);
        var header := old(out) + XrefStreamKeys(IndexPairs(TableRuns(es))) + StreamOpening(false, old(compressStreams));
        if status == Failure then out == header && dictionaryStack == old(dictionaryStack)
        else
          dictionaryStack == AfterEnd(old(dictionaryStack), streamDictionary)
          && out == header + DirectStreamEnd(StreamRecords(es, |es|).bytes, Closes(old(dictionaryStack), streamDictionary))
      ensures status == Failure ==>
        encryptionEvents == old(encryptionEvents) + (if hasEncryptionHelper then [Pause] else [])
      ensures status == Success ==>
        encryptionEvents == old(encryptionEvents) + (if hasEncryptionHelper then [Pause] else [])
          + (if hasEncryptionHelper then [Release] else []) + (if encrypting then [ObjectEnd] else [])
      ensures compressStreams == old(compressStreams)
      ensures hasEncryptionHelper == old(hasEncryptionHelper) && encrypting == old(encrypting)
    {
      var es := registry.entries;
      var pairs := XrefStreamIndex(es);
      out := out + XrefStreamKeys(pairs);
      var stream := StartPDFStream(Some(streamDictionary), true);
      var records;
      records, status := XrefStreamRecords(es);
      if status == Failure {
        return;
      }
      EndPDFStream(stream, records);
    }
  }

  /**
   * The `/Index` and `/W` entries of an xref stream's dictionary, given the
   * formatted `first count` pairs of the subsections.
   */
  function XrefStreamKeys(pairs: seq<byte>): seq<byte>
  {
    KeyToken("Index") + ArrayStartBytes + pairs + ArrayEndBytes + EndLineSeparator
      + KeyToken("W") + ArrayStartBytes + IntegerToken(TypeSize, SpaceSeparator)
      + IntegerToken(LocationSize, SpaceSeparator) + IntegerToken(GenerationSize, SpaceSeparator)
      + ArrayEndBytes + EndLineSeparator
  }

  lemma RunEndIs(es: Entries, s: nat, e: nat)
    requires s <= e <= |es|
    requires forall k :: s <= k < e ==> es[k].dirty
    requires e == |es| || !es[e].dirty
    ensures e == RunEnd(es, s)
    decreases e - s
  {
    if s < e {
      RunEndIs(es, s + 1, e);
    }
  }

  /** The scan that looks for the end of the run of dirty records starting at `s`. */
  method FindRunEnd(es: Entries, s: nat) returns (e: nat)
    requires s <= |es|
    ensures e == RunEnd(es, s)
  {
    e := s;
    while e < |es| && es[e].dirty
      invariant s <= e <= |es|
      invariant forall k :: s <= k < e ==> es[k].dirty
    {
      e := e + 1;
    }
    RunEndIs(es, s, e);
  }

  /**
   * The scan that promotes the start past clean records after the run that
   * started at `s` and ended at `e`: the result is where the next run starts.
   */
  method SkipCleanRecords(es: Entries, s: nat, e: nat) returns (next: nat)
    requires s < |es| && e == RunEnd(es, s)
    ensures next == NextDirty(es, if e == s then s + 1 else e)
    ensures Cursor(es, next) == Cursor(es, e)
  {
    next := e;
    while next < |es| && !es[next].dirty
      invariant e <= next <= |es|
      invariant NextDirty(es, next) == NextDirty(es, e)
      invariant Cursor(es, next) == Cursor(es, e)
    {
      next := next + 1;
    }
  }

  /**
   * Moves the free-list cursor to the next dirty free record after it, or
   * back to 0 when there is none.
   */
  method AdvanceFreeCursor(es: Entries, c: nat) returns (next: nat)
    requires c == 0 || c < |es|
    requires |es| >= 1
    ensures next == NextFreeFrom(es, c + 1)
    ensures next == 0 || (c < next < |es| && DirtyFree(es[next]))
  {
    next := c + 1;
    while next < |es| && !(es[next].dirty && es[next].refType == Free)
      invariant c + 1 <= next <= |es|
      invariant NextFreeFrom(es, next) == NextFreeFrom(es, c + 1)
    {
      next := next + 1;
    }
    if next == |es| {
      next := 0;
    }
  }

  /** The items of a run followed by more runs. */
  lemma ItemsOfConsRun(cur: Subsection, rest: seq<Subsection>)
    ensures ItemsOf([cur] + rest)
      == ([Header(cur.first, cur.count)] + EntryItems(cur.first, cur.first + cur.count)) + ItemsOf(rest)
  {
    ItemsOfAppend([cur], rest);
    assert [cur][..0] == [];
  }

  /** The items of the runs from `s` on: the first run's header and entries, then the rest. */
  lemma ItemsOfRunsUnfold(es: Entries, s: nat, e: nat)
    requires s < |es| && e == RunEnd(es, s)
    ensures ItemsOf(Runs(es, s))
        == ([Header(s, e - s)] + EntryItems(s, e)) + ItemsOf(Runs(es, NextDirty(es, if e == s then s + 1 else e)))
  {
    var cur, rest := Subsection(s, e - s), Runs(es, NextDirty(es, if e == s then s + 1 else e));
    RunsUnfold(es, s, e);
    assert Runs(es, s) == [cur] + rest;
    ItemsOfConsRun(cur, rest);
    assert cur.first + cur.count == e;
  }

  /** Rendering one more item after a successful prefix appends its bytes, or fails. */
  lemma RenderStep(es: Entries, prefix: seq<Item>, item: Item)
    requires Render(es, prefix).ok
    ensures RenderItem(es, item).None? ==> Render(es, prefix + [item]) == Emitted(Render(es, prefix).bytes, false)
    ensures RenderItem(es, item).Some? ==>
      Render(es, prefix + [item]) == Emitted(Render(es, prefix).bytes + RenderItem(es, item).value, true)
  {
    var items := prefix + [item];
    assert items[..|items| - 1] == prefix;
  }

  /**
   * The bytes of the table after its `xref` line, written subsection by
   * subsection as `WriteXrefTable` does; the status tells whether every
   * dirty used object had been written.
   */
  method XrefTableBody(es: Entries) returns (body: seq<byte>, status: Status)
    ensures body == TableBody(es).bytes
    ensures status == Success <==> TableBody(es).ok
  {
    body := [];
    var startID := 0;
    var nextFreeObject := 0;
    ghost var written: seq<Item> := [];
    ghost var all := TableItems(es);
    while startID < |es|
      invariant startID <= |es|
      invariant all == written + ItemsOf(Runs(es, startID))
      invariant Render(es, written) == Emitted(body, true)
      invariant nextFreeObject == Cursor(es, startID)
      decreases |es| - startID
    {
      var firstIDNotInRange, ok;
      firstIDNotInRange, body, nextFreeObject, ok := XrefSubsection(es, written, startID, body, nextFreeObject);
      ghost var items := [Header(startID, firstIDNotInRange - startID)] + EntryItems(startID, firstIDNotInRange);
      ghost var rest := ItemsOf(Runs(es, NextDirty(es, if firstIDNotInRange == startID then startID + 1 else firstIDNotInRange)));
      ItemsOfRunsUnfold(es, startID, firstIDNotInRange);
      Regroup(written, items, rest, all);
      written := written + items;
      if !ok {
        RenderAfterFailure(es, written, rest);
        status := Failure;
        return;
      }
      startID := SkipCleanRecords(es, startID, firstIDNotInRange);
    }
    assert Runs(es, startID) == [];
    assert all == written;
    status := Success;
  }

  /**
   * One subsection of the table: the run of dirty records from `s`, its
   * header line and then its entry lines.
   */
  method XrefSubsection(es: Entries, ghost written: seq<Item>, s: nat, body0: seq<byte>, cursor0: nat)
    returns (e: nat, body: seq<byte>, cursor: nat, ok: bool)
    requires s < |es| && Render(es, written) == Emitted(body0, true) && cursor0 == Cursor(es, s)
    ensures e == RunEnd(es, s)
    ensures Render(es, written + ([Header(s, e - s)] + EntryItems(s, e))) == Emitted(body, ok)
    ensures ok ==> cursor == Cursor(es, e)
  {
    e := FindRunEnd(es, s);
    RenderStep(es, written, Header(s, e - s));
    AppendAssoc(written, [Header(s, e - s)], EntryItems(s, e));
    var lines;
    lines, cursor, ok := XrefRunEntries(es, s, e, cursor0);
    RenderAppend(es, written + [Header(s, e - s)], EntryItems(s, e));
    AppendAssoc(body0, HeaderBytes(s, e - s), lines);
    body := body0 + HeaderBytes(s, e - s) + lines;
  }

  /**
   * The entry lines of one subsection, objects `s` to `e - 1`; `cursor0` is
   * the last free object listed before it. Fails at the first used object
   * that has not been written.
   */
  method XrefRunEntries(es: Entries, s: nat, e: nat, cursor0: nat) returns (lines: seq<byte>, cursor: nat, ok: bool)
    requires s < |es| && e == RunEnd(es, s) && cursor0 == Cursor(es, s)
    ensures Render(es, EntryItems(s, e)) == Emitted(lines, ok)
    ensures ok ==> cursor == Cursor(es, e)
  {
    lines, cursor := [], cursor0;
    var i := s;
    while i < e
      invariant s <= i <= e && RunRendered(es, s, i, lines, cursor)
    {
      lines, cursor, ok, i := XrefRunEntry(es, s, i, e, lines, cursor);
      if !ok {
        return;
      }
    }
    assert i == e;
    ok := true;
  }

  /** The entry lines of objects `s` to `i - 1` render as `lines`, leaving the cursor at `cursor`. */
  predicate RunRendered(es: Entries, s: nat, i: nat, lines: seq<byte>, cursor: nat)
  {
    s <= i <= |es| && Render(es, EntryItems(s, i)) == Emitted(lines, true) && cursor == Cursor(es, i)
  }

  /** The entry line of object `i` of the run from `s` to `e`, added to the lines before it. */
  method XrefRunEntry(es: Entries, s: nat, i: nat, e: nat, lines0: seq<byte>, cursor0: nat)
    returns (lines: seq<byte>, cursor: nat, ok: bool, next: nat)
    requires s < |es| && e == RunEnd(es, s) && s <= i < e && RunRendered(es, s, i, lines0, cursor0)
    ensures next == i + 1
    ensures ok ==> RunRendered(es, s, next, lines, cursor)
    ensures !ok ==> Render(es, EntryItems(s, e)) == Emitted(lines, false)
  {
    RunEndDirty(es, s, i);
    var line;
    line, cursor, ok := XrefEntryLine(es, i, cursor0);
    next := i + 1;
    if ok {
      lines := lines0 + line;
    } else {
      lines := lines0;
    }
    RunEntryStep(es, s, i, e, lines0, line, ok, cursor, next, lines);
  }

  /**
   * The entry line of object `i` extends the rendering of the run before it;
   * when it fails, the whole run renders as what came before, failed.
   */
  lemma RunEntryStep(es: Entries, s: nat, i: nat, e: nat, lines0: seq<byte>, line: seq<byte>, ok: bool, cursor: nat,
                      next: nat, lines: seq<byte>)
    requires s <= i < e <= |es| && Render(es, EntryItems(s, i)) == Emitted(lines0, true)
    requires ok <==> RenderItem(es, Entry(i)).Some?
    requires ok ==> line == RenderItem(es, Entry(i)).value && cursor == Cursor(es, i + 1)
    requires next == i + 1 && lines == (if ok then lines0 + line else lines0)
    ensures ok ==> RunRendered(es, s, next, lines, cursor)
    ensures !ok ==> Render(es, EntryItems(s, e)) == Emitted(lines, false)
  {
    RenderStep(es, EntryItems(s, i), Entry(i));
    assert EntryItems(s, i + 1) == EntryItems(s, i) + [Entry(i)];
    if !ok {
      RunFailure(es, s, i, e);
    }
  }

  /** Once the entry of object `i` fails, the rest of the run adds nothing. */
  lemma RunFailure(es: Entries, s: nat, i: nat, e: nat)
    requires s <= i < e && !Render(es, EntryItems(s, i + 1)).ok
    ensures Render(es, EntryItems(s, e)) == Render(es, EntryItems(s, i + 1))
  {
    EntryItemsSplit(s, i + 1, e);
    RenderAfterFailure(es, EntryItems(s, i + 1), EntryItems(i + 1, e));
  }

  /**
   * The line of one dirty record after a successful `prefix`: an in-use line
   * for a written used object, a free line pointing at the next free object
   * for a free one, and a failure (no line) for a used object never written.
   */
  method XrefEntryLine(es: Entries, i: nat, cursor0: nat) returns (line: seq<byte>, cursor: nat, ok: bool)
    requires i < |es| && es[i].dirty && cursor0 == Cursor(es, i)
    ensures ok <==> RenderItem(es, Entry(i)).Some?
    ensures ok ==> line == RenderItem(es, Entry(i)).value && cursor == Cursor(es, i + 1)
  {
    CursorStep(es, i);
    var entry := es[i];
    if entry.refType == Used {
      if entry.written {
        return XrefEntry(entry.position, entry.generation, InUseMark), cursor0, true;
      } else {
        return [], cursor0, false;
      }
    } else {
      assert DirtyFree(entry);
      cursor := AdvanceFreeCursor(es, cursor0);
      assert cursor == FreePointer(es, i);
      line := XrefEntry(cursor, entry.generation, FreeMark);
      ok := true;
    }
  }

  /** The entries of `s` to `e` are those of `s` to `m` and then those of `m` to `e`. */
  lemma {:induction false} EntryItemsSplit(s: nat, m: nat, e: nat)
    requires s <= m <= e
    ensures EntryItems(s, m) + EntryItems(m, e) == EntryItems(s, e)
    decreases e - m
  {
    if m < e {
      EntryItemsSplit(s, m, e - 1);
      AppendAssoc(EntryItems(s, m), EntryItems(m, e - 1), [Entry(e - 1)]);
    }
  }

  /** One more pair of `/Index` entries. */
  lemma IndexPairsSnoc(rs: seq<Subsection>, r: Subsection)
    ensures IndexPairs(rs + [r])
      == IndexPairs(rs) + IntegerToken(r.first, SpaceSeparator) + IntegerToken(r.count, SpaceSeparator)
  {
    assert (rs + [r])[..|rs|] == rs;
  }

  /** One run of `XrefStreamIndex`' scan: it moves from the pending runs to the done ones and adds its pair. */
  lemma IndexRunStep(es: Entries, done: seq<Subsection>, all: seq<Subsection>, s: nat, e: nat)
    requires s < |es| && e == RunEnd(es, s) && all == done + Runs(es, s)
    ensures var cur := Subsection(s, e - s);
      && all == (done + [cur]) + Runs(es, NextDirty(es, if e == s then s + 1 else e))
      && IndexPairs(done + [cur]) == IndexPairs(done) + IntegerToken(s, SpaceSeparator) + IntegerToken(e - s, SpaceSeparator)
  {
    var cur := Subsection(s, e - s);
    RunsUnfold(es, s, e);
    Regroup(done, [cur], Runs(es, NextDirty(es, if e == s then s + 1 else e)), all);
    IndexPairsSnoc(done, cur);
  }

  /** The `/Index` pairs of an xref stream, computed with the same run scan as the table. */
  method XrefStreamIndex(es: Entries) returns (pairs: seq<byte>)
    ensures pairs == IndexPairs(TableRuns(es))
  {
    pairs := [];
    var startID := 0;
    ghost var done: seq<Subsection> := [];
    ghost var all := TableRuns(es);
    while startID < |es|
      invariant startID <= |es|
      invariant all == done + Runs(es, startID)
      invariant pairs == IndexPairs(done)
      decreases |es| - startID
    {
      var firstIDNotInRange := FindRunEnd(es, startID);
      IndexRunStep(es, done, all, startID, firstIDNotInRange);
      pairs := pairs + IntegerToken(startID, SpaceSeparator) + IntegerToken(firstIDNotInRange - startID, SpaceSeparator);
      done := done + [Subsection(startID, firstIDNotInRange - startID)];
      startID := SkipCleanRecords(es, startID, firstIDNotInRange);
    }
    assert Runs(es, startID) == [];
    assert all == done;
  }

  /** One xref-stream record, written field by field. */
  method WriteXrefRecord(kind: int, field: int, generation: int) returns (r: seq<byte>)
    ensures r == RecordBytes(kind, field, generation)
  {
    var t := WriteXrefNumber(kind, TypeSize);
    var p := WriteXrefNumber(field, LocationSize);
    var g := WriteXrefNumber(generation, GenerationSize);
    r := t + p + g;
  }

  /** The records of an xref stream, one per dirty object in increasing order. */
  method XrefStreamRecords(es: Entries) returns (records: seq<byte>, status: Status)
    ensures status == Success <==> StreamRecords(es, |es|).ok
    ensures status == Success ==> records == StreamRecords(es, |es|).bytes
  {
    records := [];
    var nextFreeObject := 0;
    var i := 0;
    while i < |es|
      invariant i <= |es|
      invariant StreamRecords(es, i).ok && records == StreamRecords(es, i).bytes
      invariant nextFreeObject == Cursor(es, i)
    {
      CursorStep(es, i);
      if es[i].dirty {
        var record;
        record, nextFreeObject := XrefStreamEntry(es, i, nextFreeObject);
        if record.None? {
          StreamFailurePersists(es, i + 1, |es|);
          return records, Failure;
        }
        records := records + record.value;
      }
      i := i + 1;
    }
    status := Success;
  }

  /**
   * The record of dirty object `i`: type 1 with its position for a written
   * used object, type 0 with the next free object for a free one, and none
   * for a used object that was never written.
   */
  method XrefStreamEntry(es: Entries, i: nat, cursor0: nat) returns (record: Option<seq<byte>>, cursor: nat)
    requires i < |es| && es[i].dirty && cursor0 == Cursor(es, i)
    ensures record == StreamRecord(es, i)
    ensures record.Some? ==> cursor == Cursor(es, i + 1)
  {
    CursorStep(es, i);
    var e := es[i];
    cursor := cursor0;
    if e.refType == Used {
      if e.written {
        var r := WriteXrefRecord(1, e.position, e.generation);
        record := Some(r);
      } else {
        record := None;
      }
    } else {
      cursor := AdvanceFreeCursor(es, cursor0);
      var r := WriteXrefRecord(0, cursor, e.generation);
      record := Some(r);
    }
  }

  lemma {:induction false} StreamFailurePersists(es: Entries, i: nat, j: nat)
    requires i <= j <= |es| && !StreamRecords(es, i).ok
    ensures !StreamRecords(es, j).ok
    decreases j - i
  {
    if i < j {
      StreamFailurePersists(es, i, j - 1);
    }
  }
}
