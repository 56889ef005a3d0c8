/**
 * The CFF writer of the embedded-font path: `CFFEmbeddedFontWriter`, which
 * writes a subset of a CFF font program table by table into its stream and
 * then patches the offsets into the top DICT.
 */
module CFFWriter {
  import opened Common
  import opened CFF
  import opened CFFTables
  import opened CFFGlyphs
  import opened CFFSubset

  // ----- the writer -----

  class CFFEmbeddedFontWriter {
    /** `mOpenTypeInput`: the parsed source font. */
    const input: CFFInput
    /** The font program being written (`mFontFileStream`'s buffer) and its position. */
    var font: seq<byte>
    var position: nat
    var isCID: bool
    var optionalEmbeddedPostscript: seq<byte>
    /** The m...PlaceHolderPosition fields. */
    var placeholders: Placeholders
    /** The m...Position fields and `mPrivateSize`. */
    var positions: Positions

    constructor (input: CFFInput)
      requires input.WellFormed()
      ensures this.input == input && font == [] && position == 0 && positions == Positions(0, 0, 0, 0, 0, 0, 0)
    {
      this.input := input;
      font := [];
      position := 0;
      isCID := false;
      optionalEmbeddedPostscript := [];
      placeholders := Placeholders(0, 0, 0, 0, 0, 0);
      positions := Positions(0, 0, 0, 0, 0, 0, 0);
    }

    /** The bookkeeping fields are as they were. */
    twostate predicate Unmoved()
      reads this
    {
      && isCID == old(isCID) && optionalEmbeddedPostscript == old(optionalEmbeddedPostscript)
      && placeholders == old(placeholders) && positions == old(positions)
    }

    /** The fields fixed once the top DICT is written are as they were. */
    twostate predicate LayoutKept()
      reads this
    {
      isCID == old(isCID) && optionalEmbeddedPostscript == old(optionalEmbeddedPostscript) && placeholders == old(placeholders)
    }

    // ----- stream primitives -----

    /** A write at the end of the stream. */
    method Write(b: seq<byte>)
      requires position == |font|
      modifies this
      ensures font == old(font) + b && position == |font| && Unmoved()
    {
      font := font + b;
      position := |font|;
    }

    /** A write over bytes already in the stream, after a `SetPosition` back. */
    method Overwrite(b: seq<byte>)
      requires position + |b| <= |font|
      modifies this
      ensures font == Patch(old(font), old(position), b) && position == old(position) + |b| && Unmoved()
    {
      font := Patch(font, position, b);
      position := position + |b|;
    }

    method SetPosition(p: nat)
      requires p <= |font|
      modifies this
      ensures position == p && font == old(font) && Unmoved()
    {
      position := p;
    }

    // ----- the tables, in the order `CreateCFFSubset` writes them -----

    /** `WriteCFFHeader`: the source font's header, copied. */
    method WriteCFFHeader()
      requires position == |font|
      modifies this
      ensures font == old(font) + input.header && position == |font| && Unmoved()
    {
      Write(input.header);
    }

    /** `WriteName`: a Name INDEX holding the one font name. */
    method WriteName(subsetFontName: seq<byte>)
      requires position == |font| && input.WellFormed()
      modifies this
      ensures font == old(font) + IndexBytes([FontName(input, subsetFontName)]) && position == |font| && Unmoved()
    {
      var fontName := if subsetFontName == [] then input.names[0] else subsetFontName;
      var _ := WriteOneItemIndex(fontName);
    }

    /**
     * `WriteTopDictSegment`: the new top DICT, with the placeholder
     * positions recorded relative to the segment's start.
     */
    method WriteTopDictSegment() returns (segment: seq<byte>)
      requires isCID == IsCID(input)
      modifies this
      ensures segment == TopDictSegment(input, isCID)
      ensures placeholders == TopDictPlaceholders(input, isCID, |TopDictHead(input, isCID)|)
      ensures optionalEmbeddedPostscript == FSTypeText(input)
      ensures font == old(font) && position == old(position) && isCID == old(isCID) && positions == old(positions)
    {
      var cid := isCID;
      var ros := Find(input.topDict, ROS);
      var rosBytes := if cid then ItemBytes(ros.value) else [];
      var copied := CopyTopDictItems();
      var fsTypeBytes := [];
      var ps := [];
      if Find(input.topDict, PostScriptKey).None? && input.HasOs2() {
        ps := FSTypePostScript(input.fsType.value);
        fsTypeBytes := IntegerOperand(|input.strings| + StandardStrings) + DictOperator(PostScriptKey);
      }
      var headBytes := rosBytes + copied + fsTypeBytes;
      assert headBytes == TopDictHead(input, cid);
      var head := |headBytes|;
      segment := headBytes + FixedSlots();
      var privateDict := 0;
      if input.privateDict.start != 0 {
        privateDict := |segment|;
        segment := segment + (Pad5 + Pad5 + DictOperator(PrivateKey));
      }
      assert segment == headBytes + FixedSlots() + PrivateSlot(input);
      assert |segment| == head + 12 + (if HasPrivate(input) then 11 else 0);
      var ph;
      if cid {
        var fdArray := |segment|;
        segment := segment + (Pad5 + DictOperator(FDArrayKey));
        ph := Placeholders(head, 0, head + 6, privateDict, fdArray, |segment|);
        segment := segment + (Pad5 + DictOperator(FDSelectKey));
      } else {
        ph := Placeholders(head, |segment|, head + 6, privateDict, 0, 0);
        segment := segment + (Pad5 + DictOperator(EncodingKey));
      }
      TailAssembly(headBytes, input, cid, segment);
      assert ph == TopDictPlaceholders(input, cid, head);
      optionalEmbeddedPostscript := ps;
      placeholders := ph;
    }

    /** `WriteTopDictSegment`'s loop over the source's top DICT, skipping the entries it writes itself. */
    method CopyTopDictItems() returns (copied: seq<byte>)
      ensures copied == DictBytes(KeptTopItems(input.topDict))
    {
      copied := [];
      var items := input.topDict;
      var k := 0;
      while k < |items|
        invariant k <= |items|
        invariant copied == DictBytes(KeptTopItems(items[..k]))
      {
        assert items[..k + 1][..k] == items[..k];
        if !IsOffsetKey(items[k].op) {
          DictBytesSnoc(KeptTopItems(items[..k]), items[k]);
          copied := copied + ItemBytes(items[k]);
        }
        k := k + 1;
      }
      assert items[..k] == items;
    }

    /**
     * `WriteTopIndex`: a one-item INDEX holding the new top DICT; the
     * placeholder positions become positions in the font.
     */
    method WriteTopIndex()
      requires position == |font| && isCID == IsCID(input)
      modifies this
      ensures font == old(font) + IndexBytes([TopDictSegment(input, isCID)])
      ensures placeholders == TopIndexPlaceholders(input, isCID, |old(font)|)
      ensures optionalEmbeddedPostscript == FSTypeText(input)
      ensures position == |font| && isCID == old(isCID) && positions == old(positions)
    {
      ghost var at := |font|;
      var segment := WriteTopDictSegment();
      var topDictDataOffset := WriteOneItemIndex(segment);
      TopIndexShift(input, isCID, at, segment, placeholders, topDictDataOffset);
      placeholders := placeholders.Shift(topDictDataOffset);
    }

    /** The fields of a one-item INDEX, as `WriteName` and `WriteTopIndex` write them; returns where the item starts. */
    method WriteOneItemIndex(item: seq<byte>) returns (dataOffset: nat)
      requires position == |font|
      modifies this
      ensures font == old(font) + IndexBytes([item]) && position == |font| && Unmoved()
      ensures dataOffset == |old(font)| + 3 + 2 * OffsetSize(|item| + 1)
    {
      var size := OffsetSize(|item| + 1);
      ghost var before := font;
      var header := Card16(1) + [size] + Offset(1, size) + Offset(|item| + 1, size);
      Write(header);
      dataOffset := position;
      Write(item);
      SingleItemIndex(item);
      AppendAssoc(before, header, item);
    }

    /** `WriteStringIndex`: the source's String INDEX, or, when the fsType PostScript was added, that INDEX with the PostScript as its last string. */
    method WriteStringIndex()
      requires position == |font| && input.WellFormed()
      modifies this
      ensures optionalEmbeddedPostscript == [] ==> font == old(font) + input.stringIndex
      ensures optionalEmbeddedPostscript != [] ==>
        font == old(font) + IndexBytes(input.strings + [optionalEmbeddedPostscript])
      ensures position == |font| && Unmoved()
    {
      var ps := optionalEmbeddedPostscript;
      if ps == [] {
        Write(input.stringIndex);
        return;
      }
      var strings := input.strings;
      ghost var before := font;
      Write(Card16(|strings| + 1));
      var totalSize := DataLength(strings);
      totalSize := totalSize + |ps|;
      var size := OffsetSize(totalSize + 1);
      Write([size]);
      var currentOffset := WriteStarts(strings, size);
      Write(Offset(currentOffset, size));
      currentOffset := currentOffset + |ps|;
      Write(Offset(currentOffset, size));
      WriteData(strings);
      Write(ps);
      StringIndexWritten(font, before, strings, ps, size);
    }

    /** The offsets of the items of an INDEX but the end offset; returns that end offset. */
    method WriteStarts(items: seq<seq<byte>>, size: nat) returns (next: nat)
      requires position == |font|
      modifies this
      ensures font == old(font) + OffsetArray(Starts(items), size) && next == |Concat(items)| + 1
      ensures position == |font| && Unmoved()
    {
      ghost var before := font;
      next := 1;
      var i := 0;
      while i < |items|
        invariant i <= |items| && next == |Concat(items[..i])| + 1
        invariant font == before + OffsetArray(Starts(items[..i]), size)
        invariant position == |font| && Unmoved()
      {
        StringsStep(items, i);
        OffsetArraySnoc(Starts(items[..i]), size, next);
        Write(Offset(next, size));
        next := next + |items[i]|;
        i := i + 1;
      }
      assert items[..i] == items;
    }

    /** The data of the items of an INDEX, one after the other. */
    method WriteData(items: seq<seq<byte>>)
      requires position == |font|
      modifies this
      ensures font == old(font) + Concat(items) && position == |font| && Unmoved()
    {
      ghost var before := font;
      var i := 0;
      while i < |items|
        invariant i <= |items| && font == before + Concat(items[..i])
        invariant position == |font| && Unmoved()
      {
        StringsStep(items, i);
        AppendAssoc(before, Concat(items[..i]), items[i]);
        Write(items[i]);
        i := i + 1;
      }
      assert items[..i] == items;
    }

    /** `WriteGlobalSubrsIndex`: an empty INDEX, since every charstring is flattened. */
    method WriteGlobalSubrsIndex()
      requires position == |font|
      modifies this
      ensures font == old(font) + IndexBytes([]) && position == |font| && Unmoved()
    {
      Write(Card16(0));
    }
 
    // ----- the glyph closure -----

    /**
     * `AddComponentGlyphs`: the glyphs glyph `id` depends on, followed
     * through nested dependencies, added to `components`; whether it has
     * any. The walk stops at the first glyph whose dependencies cannot be
     * computed.
     */
    method AddComponentGlyphs(id: nat, components: set<nat>, fuel: nat) returns (status: Status, found: bool, result: set<nat>)
      ensures found <==> fuel > 0 && HasComponents(input, id)
      ensures status == Success <==> Resolves(input, id, fuel)
      ensures status == Success ==> result == components + Reach(input, id, fuel)
      decreases fuel
    {
      result := components;
      found := false;
      status := Success;
      if fuel == 0 {
        return;
      }
      var dependencies := DependenciesOf(input, id);
      if dependencies.None? {
        status := Failure;
        return;
      }
      var cs := dependencies.value;
      if |cs| > 0 {
        var k := 0;
        while k < |cs| && status == Success
          invariant 0 <= k <= |cs|
          invariant status == Success <==> forall j :: 0 <= j < k ==> Resolves(input, cs[j], fuel - 1)
          invariant status == Success ==> result == components + ReachAll(input, cs[..k], fuel - 1)
        {
          result := result + {cs[k]};
          var dummyFound, next;
          status, dummyFound, next := AddComponentGlyphs(cs[k], result, fuel - 1);
          result := next;
          assert cs[..k + 1][..k] == cs[..k];
          k := k + 1;
        }
        if status == Success {
          assert cs[..k] == cs;
        }
        found := true;
      }
    }

    /**
     * `AddDependentGlyphs`: when a glyph of the list depends on others, the
     * list becomes the sorted, duplicate-free union of itself and every
     * glyph reached; otherwise it is left as it is. Fails when the
     * dependencies of a glyph met cannot be computed.
     */
    method AddDependentGlyphs(ids: seq<nat>) returns (status: Status, r: seq<nat>)
      ensures status == Success <==> AllResolve(input, ids, Fuel(input))
      ensures status == Success && (exists i :: 0 <= i < |ids| && HasComponents(input, ids[i])) ==>
        Increasing(r) && forall x :: x in r <==> x in ids || x in Dependents(input, ids, Fuel(input))
      ensures status == Success && (forall i :: 0 <= i < |ids| ==> !HasComponents(input, ids[i])) ==> r == ids
    {
      var glyphsSet: set<nat> := {};
      var hasCompositeGlyphs := false;
      status := Success;
      var k := 0;
      while k < |ids| && status == Success
        invariant 0 <= k <= |ids|
        invariant status == Success <==> AllResolve(input, ids[..k], Fuel(input))
        invariant status == Success ==> glyphsSet == Dependents(input, ids[..k], Fuel(input))
        invariant status == Success ==> (hasCompositeGlyphs <==> exists i :: 0 <= i < k && HasComponents(input, ids[i]))
      {
        var found, next;
        status, found, next := AddComponentGlyphs(ids[k], glyphsSet, Fuel(input));
        hasCompositeGlyphs := hasCompositeGlyphs || found;
        glyphsSet := next;
        assert ids[..k + 1][..k] == ids[..k];
        k := k + 1;
      }
      if status == Success {
        assert ids[..k] == ids;
      } else {
        assert !AllResolve(input, ids, Fuel(input)) by {
          var i :| 0 <= i < |ids[..k]| && !Resolves(input, ids[..k][i], Fuel(input));
          assert ids[i] == ids[..k][i];
        }
      }
      r := ids;
      if hasCompositeGlyphs {
        var deps := glyphsSet;
        k := 0;
        while k < |ids|
          invariant 0 <= k <= |ids|
          invariant forall x :: x in glyphsSet <==> x in deps || x in ids[..k]
        {
          glyphsSet := glyphsSet + {ids[k]};
          assert ids[..k + 1] == ids[..k] + [ids[k]];
          k := k + 1;
        }
        assert ids[..k] == ids;
        r := OrderedElements(glyphsSet);
      }
    }
 
    // ----- the tables after the global subroutines -----

    /**
     * `WriteEncodings`: nothing for a CID font or a predefined encoding,
     * whose number becomes the position; otherwise the subset's encoding
     * in format 0, with the supplements of its glyphs' SIDs.
     */
    method WriteEncodings(ids: seq<nat>)
      requires position == |font| && input.WellFormed() && |ids| > 0 && TailPositive(ids)
      modifies this
      ensures position == |font| && LayoutKept()
      ensures isCID || input.encoding.start <= 1 ==> font == old(font)
      ensures !isCID && input.encoding.start > 1 ==> font == old(font) + EncodingBytes(input, ids)
      ensures positions == old(positions).(encoding := EncodingPosition(input, isCID, |old(font)|))
    {
      if isCID {
        positions := positions.(encoding := 0);
        return;
      }
      var enc := input.encoding;
      if enc.start <= 1 {
        positions := positions.(encoding := enc.start);
        return;
      }
      var supplements := CollectSupplements(ids);
      var at := position;
      ghost var before := font;
      Write([if supplements == [] then 0 else 0x80]);
      var count := Min((|ids| - 1) % 256, enc.count);
      Write([count]);
      WriteCodes(ids, count);
      ghost var codes := Codes(input, ids, count);
      assert |codes| % 256 == count;
      ghost var head := font;
      if supplements != [] {
        Write([|supplements| % 256]);
        WriteSupplements(supplements);
        assert font == head + [|supplements| % 256] + SupplementBytes(supplements);
      }
      EncodingWritten(font, before, codes, supplements);
      positions := positions.(encoding := at);
    }

    /** `WriteEncodings`' codes: for each of the first `count` glyphs after glyph 0, its code in the source encoding, or 0. */
    method WriteCodes(ids: seq<nat>, count: nat)
      requires position == |font| && input.WellFormed() && count < |ids| && TailPositive(ids)
      modifies this
      ensures font == old(font) + Codes(input, ids, count) && position == |font| && Unmoved()
    {
      var enc := input.encoding;
      ghost var head := font;
      var i := 0;
      while i < count
        invariant i <= count && font == head + Codes(input, ids, i)
        invariant position == |font| && Unmoved()
      {
        var code := if ids[i + 1] < enc.count then enc.codes[ids[i + 1] - 1] else 0;
        assert Codes(input, ids, i + 1) == Codes(input, ids, i) + [code];
        Write([code]);
        i := i + 1;
      }
    }

    /** `WriteEncodings`' supplements: each code, then its SID. */
    method WriteSupplements(supplements: seq<Supplement>)
      requires position == |font|
      modifies this
      ensures font == old(font) + SupplementBytes(supplements) && position == |font| && Unmoved()
    {
      ghost var start := font;
      var k := 0;
      while k < |supplements|
        invariant k <= |supplements| && font == start + SupplementBytes(supplements[..k])
        invariant position == |font| && Unmoved()
      {
        SupplementBytesSnoc(supplements[..k], supplements[k]);
        assert supplements[..k + 1] == supplements[..k] + [supplements[k]];
        Write([supplements[k].code]);
        Write(Card16(supplements[k].sid));
        k := k + 1;
      }
      assert supplements[..k] == supplements;
    }

    /** `WriteEncodings`' first loop: the supplements, by SID, of every glyph of the subset. */
    method CollectSupplements(ids: seq<nat>) returns (supplements: seq<Supplement>)
      ensures supplements == Supplements(input, ids)
    {
      supplements := [];
      var k := 0;
      while k < |ids|
        invariant k <= |ids| && supplements == Supplements(input, ids[..k])
      {
        ghost var before := supplements;
        var sid := SIDOf(input, ids[k]);
        if sid in input.encoding.supplements {
          var codes := input.encoding.supplements[sid];
          var j := 0;
          while j < |codes|
            invariant j <= |codes| && supplements == before + GlyphSupplements(input, ids[k])[..j]
          {
            assert GlyphSupplements(input, ids[k])[..j + 1] == GlyphSupplements(input, ids[k])[..j] + [Supplement(codes[j], sid)];
            supplements := supplements + [Supplement(codes[j], sid)];
            j := j + 1;
          }
          assert GlyphSupplements(input, ids[k])[..j] == GlyphSupplements(input, ids[k]);
        }
        assert ids[..k + 1][..k] == ids[..k];
        k := k + 1;
      }
      assert ids[..k] == ids;
    }

    /**
     * `WriteCharsets`: format 0, with the SID of every glyph after glyph
     * 0, or for a CID font given a CID mapping, the mapping's CIDs.
     */
    method WriteCharsets(ids: seq<nat>, mapping: Option<seq<card16>>)
      requires position == |font| && |ids| > 0 && (isCID && mapping.Some? ==> |mapping.value| >= |ids|)
      modifies this
      ensures position == |font| && LayoutKept()
      ensures font == old(font) + CharsetBytes(CharsetSIDs(input, ids, mapping, isCID))
      ensures positions == old(positions).(charset := |old(font)|)
    {
      var at := position;
      ghost var before := font;
      Write([0]);
      if isCID && mapping.Some? {
        WriteSIDs(mapping.value[1..|ids|]);
      } else {
        WriteGlyphSIDs(ids);
      }
      AppendAssoc(before, [0], SIDsBytes(CharsetSIDs(input, ids, mapping, isCID)));
      positions := positions.(charset := at);
    }

    /** The CIDs of the caller's mapping, one Card16 each. */
    method WriteSIDs(sids: seq<card16>)
      requires position == |font|
      modifies this
      ensures font == old(font) + SIDsBytes(sids) && position == |font| && Unmoved()
    {
      ghost var start := font;
      var k := 0;
      while k < |sids|
        invariant k <= |sids| && font == start + SIDsBytes(sids[..k])
        invariant position == |font| && Unmoved()
      {
        SIDsBytesSnoc(sids[..k], sids[k]);
        assert sids[..k + 1] == sids[..k] + [sids[k]];
        Write(Card16(sids[k]));
        k := k + 1;
      }
      assert sids[..k] == sids;
    }

    /** `GetGlyphSID` of every glyph after glyph 0, one Card16 each. */
    method WriteGlyphSIDs(ids: seq<nat>)
      requires position == |font| && |ids| > 0
      modifies this
      ensures font == old(font) + SIDsBytes(CharsetSIDs(input, ids, None, false)) && position == |font| && Unmoved()
    {
      ghost var sids := CharsetSIDs(input, ids, None, false);
      ghost var start := font;
      var k := 1;
      while k < |ids|
        invariant 1 <= k <= |ids| && font == start + SIDsBytes(sids[..k - 1])
        invariant position == |font| && Unmoved()
      {
        var sid := SIDOf(input, ids[k]);
        SIDsBytesSnoc(sids[..k - 1], sid);
        assert sids[..k] == sids[..k - 1] + [sid];
        Write(Card16(sid));
        k := k + 1;
      }
      assert sids[..k - 1] == sids;
    }
 
    // ----- CID fonts: the font DICTs of the subset -----

    /**
     * `DetermineFDArrayIndexes`: the font DICTs the glyphs use, in the
     * order a `std::set` of pointers into the FDArray iterates them (the
     * order of their indices), each ranked by a `uint8_t` counter.
     */
    method DetermineFDArrayIndexes(ids: seq<nat>) returns (order: seq<nat>, ranks: map<nat, byte>)
      ensures ranks.Keys == UsedFDs(input, ids) && Ranked(order, ranks)
    {
      var fontDictInfos: set<nat> := {};
      var k := 0;
      while k < |ids|
        invariant k <= |ids| && fontDictInfos == UsedFDs(input, ids[..k])
      {
        UsedFDsSnoc(input, ids, k);
        var fd := FDOf(input, ids[k]);
        if fd.Some? {
          fontDictInfos := fontDictInfos + {fd.value};
        }
        k := k + 1;
      }
      assert ids[..k] == ids;
      order := OrderedElements(fontDictInfos);
      ranks := map[];
      var i := 0;
      while i < |order|
        invariant i <= |order|
        invariant ranks.Keys == set j | 0 <= j < i :: order[j]
        invariant forall j :: 0 <= j < i ==> ranks[order[j]] == j % 256
      {
        ranks := ranks[order[i] := i % 256];
        i := i + 1;
      }
      assert forall x :: x in fontDictInfos <==> x in ranks by {
        forall x
          ensures x in fontDictInfos <==> x in ranks
        {
          if x in fontDictInfos {
            var j :| 0 <= j < |order| && order[j] == x;
          }
        }
      }
    }
 
    /**
     * `WriteFDSelect`: format 3, with one range from glyph 0 and one
     * wherever the FD index changes; the range count, written as 1 first,
     * is patched once the ranges are known.
     */
    method WriteFDSelect(ids: seq<nat>, ranks: map<nat, byte>)
      requires position == |font| && 0 < |ids| <= 65534
      modifies this
      ensures position == |font| && LayoutKept()
      ensures font == old(font) + FDSelectBytes(GlyphFDs(input, ranks, ids))
      ensures positions == old(positions).(fdSelect := |old(font)|)
    {
      var fds := GlyphFDs(input, ranks, ids);
      var at := position;
      ghost var before := font;
      Write([3]);
      var rangesCountPosition := position;
      Write(Card16(1));
      var rangesCount := WriteRanges(fds);
      Write(Card16(|ids|));
      if rangesCount != 1 {
        var currentPosition := position;
        SetPosition(rangesCountPosition);
        Overwrite(Card16(rangesCount));
        SetPosition(currentPosition);
      }
      FDSelectWritten(font, before, fds);
      positions := positions.(fdSelect := at);
    }

    /** `WriteFDSelect`'s ranges, given each glyph's FD index: the first glyph of each range and its FD index; returns their count. */
    method WriteRanges(fds: seq<byte>) returns (rangesCount: nat)
      requires position == |font| && 0 < |fds| <= 65534
      modifies this
      ensures font == old(font) + RangeBytes(Ranges(fds)) && position == |font| && Unmoved()
      ensures rangesCount == |Ranges(fds)| < 0x1_0000
    {
      ghost var start := font;
      var currentFD := fds[0];
      assert start + RangeBytes([]) == start;
      WriteRange(start, [], 0, currentFD);
      rangesCount := 1;
      var glyphIndex := 1;
      ghost var r := [Range3(0, currentFD)];
      while glyphIndex < |fds|
        invariant 1 <= glyphIndex <= |fds| && r == RangesTo(fds, glyphIndex)
        invariant font == start + RangeBytes(r) && rangesCount == |r| && currentFD == fds[glyphIndex - 1]
        invariant position == |font| && Unmoved()
      {
        currentFD, rangesCount, r := NextGlyphRange(start, fds, glyphIndex, currentFD, rangesCount, r);
        glyphIndex := glyphIndex + 1;
      }
      assert glyphIndex == |fds| && r == Ranges(fds);
    }

    /** One glyph of `WriteRanges`' loop: a new range starts at glyph `g` when its FD index differs from the current one. */
    method NextGlyphRange(ghost start: seq<byte>, fds: seq<byte>, g: nat, currentFD: byte, count: nat, ghost r: seq<Range3>)
      returns (newFD: byte, newCount: nat, ghost next: seq<Range3>)
      requires 1 <= g < |fds| && r == RangesTo(fds, g) && count == |r| && currentFD == fds[g - 1]
      requires position == |font| && font == start + RangeBytes(r)
      modifies this
      ensures next == RangesTo(fds, g + 1) && newCount == |next| && newFD == fds[g]
      ensures font == start + RangeBytes(next) && position == |font| && Unmoved()
    {
      newFD := fds[g];
      newCount := count;
      next := r;
      if newFD != currentFD {
        WriteRange(start, r, g, newFD);
        newCount := count + 1;
        next := r + [Range3(g, newFD)];
      }
    }

    /** One range of format 3: its first glyph and its FD index. */
    method WriteRange(ghost start: seq<byte>, ghost r: seq<Range3>, first: nat, fd: byte)
      requires position == |font| && font == start + RangeBytes(r)
      modifies this
      ensures font == start + RangeBytes(r + [Range3(first, fd)]) && position == |font| && Unmoved()
    {
      RangeBytesSnoc(r, Range3(first, fd));
      AppendAssoc(start, RangeBytes(r), Card16(first) + [fd]);
      Write(Card16(first) + [fd]);
    }
 
    /**
     * `WriteCharStrings`: the flattened programs of the glyphs, as an INDEX;
     * when a glyph does not flatten, nothing is written.
     */
    method WriteCharStrings(ids: seq<nat>) returns (status: Status)
      requires position == |font| && |ids| < 0x1_0000
      modifies this
      ensures position == |font| && LayoutKept()
      ensures status == Success <==> AllFlatten(input, ids)
      ensures status == Success ==> font == old(font) + FullIndex(Programs(input, ids))
      ensures status == Success ==> positions == old(positions).(charStrings := |old(font)|)
      ensures status == Failure ==> font == old(font) && positions == old(positions)
    {
      var offsets := new nat[|ids| + 1];
      var data;
      status, data := FlattenGlyphs(ids, offsets);
      if status == Failure {
        return;
      }
      var at := position;
      WriteIndexSection(offsets, data, Programs(input, ids));
      positions := positions.(charStrings := at);
    }

    /**
     * The INDEX `WriteCharStrings` and `WriteFDArray` write once the data is
     * built: the count, the offset size the end offset needs, each offset
     * the first loop recorded, counted from 1, and the data.
     */
    method WriteIndexSection(offsets: array<nat>, data: seq<byte>, ghost items: seq<seq<byte>>)
      requires position == |font| && offsets.Length == |items| + 1 && data == Concat(items)
      requires forall j :: 0 <= j < offsets.Length ==> offsets[j] + 1 == Offsets(items)[j]
      modifies this
      ensures font == old(font) + FullIndex(items) && position == |font| && Unmoved()
    {
      ghost var before := font;
      var size := OffsetSize(offsets[offsets.Length - 1] + 1);
      OffsetsAt(items, |items|);
      assert items[..|items|] == items;
      Write(Card16(offsets.Length - 1));
      Write([size]);
      WriteOffsets(offsets, size, items);
      Write(data);
      FullIndexWritten(font, before, items, size);
    }

    /**
     * The first loop of `WriteCharStrings`: the programs one after the
     * other, and the offset at which each one starts and the data ends.
     */
    method FlattenGlyphs(ids: seq<nat>, offsets: array<nat>) returns (status: Status, data: seq<byte>)
      requires offsets.Length == |ids| + 1
      modifies offsets
      ensures status == Success <==> AllFlatten(input, ids)
      ensures status == Success ==> data == Concat(Programs(input, ids))
      ensures status == Success ==> forall j :: 0 <= j <= |ids| ==> offsets[j] + 1 == Offsets(Programs(input, ids))[j]
    {
      status := Success;
      data := [];
      var i := 0;
      while i < |ids| && status == Success
        invariant i <= |ids|
        invariant status == Success ==> AllFlatten(input, ids[..i]) && data == Concat(Programs(input, ids[..i]))
        invariant status == Success ==> forall j :: 0 <= j < i ==> offsets[j] + 1 == Starts(Programs(input, ids[..i]))[j]
        invariant status == Failure ==> !AllFlatten(input, ids)
      {
        offsets[i] := |data|;
        var program := CharStringOf(input, ids[i]);
        if program.None? {
          status := Failure;
        } else {
          ProgramsStep(input, ids, i);
          StartsSnoc(Programs(input, ids[..i]), program.value);
          data := data + program.value;
        }
        i := i + 1;
      }
      if status == Success {
        offsets[i] := |data|;
        assert ids[..i] == ids;
      }
    }

    /** The second loop of `WriteCharStrings`: every offset, counted from 1, in `size` bytes. */
    method WriteOffsets(offsets: array<nat>, size: nat, ghost items: seq<seq<byte>>)
      requires position == |font| && offsets.Length == |items| + 1
      requires forall j :: 0 <= j < offsets.Length ==> offsets[j] + 1 == Offsets(items)[j]
      modifies this
      ensures font == old(font) + OffsetArray(Offsets(items), size) && position == |font| && Unmoved()
    {
      ghost var before := font;
      ghost var all := Offsets(items);
      var i := 0;
      while i < offsets.Length
        invariant i <= offsets.Length && font == before + OffsetArray(all[..i], size)
        invariant position == |font| && Unmoved()
      {
        assert all[..i + 1] == all[..i] + [offsets[i] + 1];
        OffsetArraySnoc(all[..i], size, offsets[i] + 1);
        AppendAssoc(before, OffsetArray(all[..i], size), Offset(offsets[i] + 1, size));
        Write(Offset(offsets[i] + 1, size));
        i := i + 1;
      }
      assert all[..i] == all;
    }
 
    /** `WritePrivateDictionary`: the top-level private DICT, its size and position kept for the top DICT. */
    method WritePrivateDictionary()
      requires position == |font|
      modifies this
      ensures position == |font| && LayoutKept()
      ensures font == old(font) + PrivateBody(input.privateDict)
      ensures positions == old(positions).(privateSize := |PrivateBody(input.privateDict)|,
                                           privateDict := PrivatePosition(input.privateDict, |old(font)|))
    {
      var size, at := WritePrivateDictionaryBody(input.privateDict);
      positions := positions.(privateSize := size, privateDict := at);
    }

    /**
     * `WritePrivateDictionaryBody`: a private DICT that the source font has
     * is copied without its Subrs entry, the subroutines being flattened
     * into the charstrings; returns its size and position, both 0 when
     * there is none.
     */
    method WritePrivateDictionaryBody(p: PrivateDict) returns (size: nat, at: nat)
      requires position == |font|
      modifies this
      ensures font == old(font) + PrivateBody(p) && position == |font| && Unmoved()
      ensures size == |PrivateBody(p)| && at == PrivatePosition(p, |old(font)|)
    {
      if p.start == 0 {
        return 0, 0;
      }
      at := position;
      var body := DictItemsWithout(p.items, SubrsKey);
      Write(body);
      size := position - at;
    }

    /** The entries of a DICT but those with key `op`, as the font DICT loop of `WriteFDArray` copies them. */
    method DictItemsWithout(items: seq<DictItem>, op: nat) returns (copied: seq<byte>)
      ensures copied == DictBytes(Without(items, op))
    {
      copied := [];
      var k := 0;
      while k < |items|
        invariant k <= |items| && copied == DictBytes(Without(items[..k], op))
      {
        assert items[..k + 1][..k] == items[..k];
        if items[k].op != op {
          DictBytesSnoc(Without(items[..k], op), items[k]);
          copied := copied + ItemBytes(items[k]);
        }
        k := k + 1;
      }
      assert items[..k] == items;
    }

    /**
     * `WriteFDArray`: the private DICTs of the listed font DICTs, in rank
     * order, then the FDArray INDEX of the font DICTs, each pointing at its
     * private DICT; an empty INDEX when no glyph has a font DICT.
     */
    method WriteFDArray(order: seq<nat>)
      requires position == |font| && FontDictsListed(input, order) && |order| <= 254
      modifies this
      ensures position == |font| && LayoutKept()
      ensures font == old(font) + FDArrayBytes(input, order, |old(font)|)
      ensures positions == old(positions).(fdArray := |old(font)| + |PrivateBodies(input, order)|)
    {
      var base := position;
      if order == [] {
        Write(Card16(0));
        positions := positions.(fdArray := base);
        return;
      }
      var sizes, privatePositions := WritePrivateBodies(order);
      var offsets := new nat[|order| + 1];
      var data := BuildFontDicts(order, base, sizes, privatePositions, offsets);
      var at := position;
      WriteIndexSection(offsets, data, FontDictItems(input, order, base));
      AppendAssoc(old(font), PrivateBodies(input, order), IndexBytes(FontDictItems(input, order, base)));
      positions := positions.(fdArray := at);
    }

    /**
     * The first loop of `WriteFDArray`: the private DICT of each listed font
     * DICT; returns the sizes and positions it keeps for the font DICTs.
     */
    method WritePrivateBodies(order: seq<nat>) returns (sizes: seq<nat>, privatePositions: seq<nat>)
      requires position == |font| && FontDictsListed(input, order)
      modifies this
      ensures font == old(font) + PrivateBodies(input, order) && position == |font| && Unmoved()
      ensures |sizes| == |order| && |privatePositions| == |order|
      ensures forall k :: 0 <= k < |order| ==> PrivateEntryAt(input, order, |old(font)|, k, sizes[k], privatePositions[k])
    {
      ghost var before := font;
      sizes, privatePositions := [], [];
      var k := 0;
      while k < |order|
        invariant k <= |order| && FontDictsListed(input, order[..k]) && font == before + PrivateBodies(input, order[..k])
        invariant |sizes| == k && |privatePositions| == k && position == |font| && Unmoved()
        invariant forall j :: 0 <= j < k ==> PrivateEntryAt(input, order, |before|, j, sizes[j], privatePositions[j])
      {
        PrivateBodiesStep(input, order, k);
        ghost var done := PrivateBodies(input, order[..k]);
        var p := input.fontDicts[order[k]].privateDict;
        AppendAssoc(before, done, PrivateBody(p));
        var size, at := WritePrivateDictionaryBody(p);
        assert PrivateEntryAt(input, order, |before|, k, size, at);
        ghost var oldSizes, oldPositions := sizes, privatePositions;
        sizes, privatePositions := sizes + [size], privatePositions + [at];
        forall j | 0 <= j <= k
          ensures PrivateEntryAt(input, order, |before|, j, sizes[j], privatePositions[j])
        {
          if j < k {
            assert sizes[j] == oldSizes[j] && privatePositions[j] == oldPositions[j];
          }
        }
        k := k + 1;
      }
      assert order[..k] == order;
    }

    /**
     * The second loop of `WriteFDArray`: each font DICT but its Private
     * entry, then the Private entry of a non-empty private DICT, one after
     * the other, and the offset at which each one starts and the data ends.
     */
    method BuildFontDicts(order: seq<nat>, base: nat, sizes: seq<nat>, privatePositions: seq<nat>, offsets: array<nat>)
      returns (data: seq<byte>)
      requires FontDictsListed(input, order) && |sizes| == |order| && |privatePositions| == |order|
      requires offsets.Length == |order| + 1
      requires forall k :: 0 <= k < |order| ==> PrivateEntryAt(input, order, base, k, sizes[k], privatePositions[k])
      modifies offsets
      ensures data == Concat(FontDictItems(input, order, base))
      ensures forall j :: 0 <= j <= |order| ==> offsets[j] + 1 == Offsets(FontDictItems(input, order, base))[j]
    {
      ghost var items := FontDictItems(input, order, base);
      data := [];
      var k := 0;
      while k < |order|
        invariant k <= |order| && data == Concat(items[..k]) && StartsRecorded(offsets[..], items, k)
      {
        ghost var recorded := offsets[..];
        offsets[k] := |data|;
        var dict := WriteFontDict(order, base, k, sizes[k], privatePositions[k]);
        StartsRecordedStep(items, k, recorded, |data|);
        data := data + dict;
        k := k + 1;
      }
      ghost var recorded := offsets[..];
      assert items[..k] == items;
      offsets[k] := |data|;
      OffsetsComplete(items, recorded, |data|);
    }
 
    /** One font DICT of the FDArray: its entries but Private, then the Private entry when its private DICT is not empty. */
    method WriteFontDict(order: seq<nat>, base: nat, k: nat, size: nat, pos: nat) returns (dict: seq<byte>)
      requires FontDictsListed(input, order) && k < |order| && PrivateEntryAt(input, order, base, k, size, pos)
      ensures dict == FontDictItems(input, order, base)[k]
    {
      var fd := input.fontDicts[order[k]];
      dict := DictItemsWithout(fd.items, PrivateKey);
      if size != 0 {
        dict := dict + (IntegerOperand(size) + IntegerOperand(pos) + DictOperator(PrivateKey));
      } else {
        assert dict + [] == dict;
      }
      FontDictItemIs(input, order, base, k, size, pos);
    }
 
    /**
     * `UpdateIndexesAtTopDict`: each placeholder of the top DICT is
     * overwritten with the position, or the size, now known; the seeks and
     * writes are those of `TopDictPatches`, in its order.
     */
    method UpdateIndexesAtTopDict()
      requires SlotsReady(font, placeholders, input, isCID) && Layout(placeholders, input, isCID)
      modifies this
      ensures PatchesFit(old(font), TopDictPatches(placeholders, positions, input, isCID))
      ensures font == ApplyPatches(old(font), TopDictPatches(placeholders, positions, input, isCID)) && Unmoved()
    {
      ghost var ps := TopDictPatches(placeholders, positions, input, isCID);
      TopDictPatchesSeparated(font, placeholders, positions, input, isCID);
      ghost var target := ApplyPatches(font, ps);
      ghost var rest := ps;
      rest := SeekAndWrite(target, rest, placeholders.charset, positions.charset);
      rest := SeekAndWrite(target, rest, placeholders.charStrings, positions.charStrings);
      if input.privateDict.start != 0 {
        rest := SeekAndWrite(target, rest, placeholders.privateDict, positions.privateSize);
        rest := WritePlaceholder(target, rest, positions.privateDict);
      }
      if isCID {
        rest := SeekAndWrite(target, rest, placeholders.fdArray, positions.fdArray);
        rest := SeekAndWrite(target, rest, placeholders.fdSelect, positions.fdSelect);
      } else {
        rest := SeekAndWrite(target, rest, placeholders.encoding, positions.encoding);
      }
    }

    /** `SetPosition` to a placeholder, then `Write5ByteDictInteger` over it. */
    method SeekAndWrite(ghost target: seq<byte>, ghost rest: seq<PlaceholderValue>, at: nat, value: int)
      returns (ghost next: seq<PlaceholderValue>)
      requires rest != [] && rest[0] == PlaceholderValue(at, value)
      requires PatchesFit(font, rest) && ApplyPatches(font, rest) == target
      modifies this
      ensures next == rest[1..] && PatchesFit(font, next) && ApplyPatches(font, next) == target
      ensures position == at + 5 && Unmoved()
    {
      SetPosition(at);
      next := WritePlaceholder(target, rest, value);
    }

    /** `Write5ByteDictInteger` over the next placeholder, at the current position. */
    method WritePlaceholder(ghost target: seq<byte>, ghost rest: seq<PlaceholderValue>, value: int)
      returns (ghost next: seq<PlaceholderValue>)
      requires rest != [] && rest[0] == PlaceholderValue(position, value)
      requires PatchesFit(font, rest) && ApplyPatches(font, rest) == target
      modifies this
      ensures next == rest[1..] && PatchesFit(font, next) && ApplyPatches(font, next) == target
      ensures position == old(position) + 5 && Unmoved()
    {
      Overwrite(DictInteger5(value));
      next := rest[1..];
    }
 

    // ----- the subset, start to finish -----

    /** The header, the Name INDEX and the Top DICT INDEX, written into an empty stream. */
    method WriteFront(subsetFontName: seq<byte>)
      requires font == [] && position == 0 && input.WellFormed()
      modifies this
      ensures font == TopTables(input, subsetFontName) && position == |font|
      ensures isCID == IsCID(input) && placeholders == SubsetPlaceholders(input, subsetFontName)
      ensures optionalEmbeddedPostscript == FSTypeText(input) && positions == old(positions)
    {
      isCID := IsCID(input);
      WriteCFFHeader();
      AppendEmpty(input.header);
      WriteName(subsetFontName);
      WriteTopIndex();
    }

    /**
     * The String and Global Subrs INDEXes, the encoding, the charset and,
     * for a CID font, the FDSelect, as the parts of `t` after its top.
     */
    method WriteDictTables(ids: seq<nat>, mapping: Option<seq<card16>>, ghost t: Tables) returns (order: seq<nat>)
      requires position == |font| == |t.top| && Writable(input, ids, mapping)
      requires isCID == IsCID(input) && optionalEmbeddedPostscript == FSTypeText(input)
      requires t.strings == StringIndexOf(input) && t.globalSubrs == IndexBytes([])
      requires t.encoding == EncodingOf(input, isCID, ids) && t.charset == CharsetBytes(CharsetSIDs(input, ids, mapping, isCID))
      requires t.fdSelect == FDSelectOf(input, isCID, ids)
      modifies this
      ensures position == |font| && LayoutKept()
      ensures font == old(font) + t.strings + t.globalSubrs + t.encoding + t.charset + t.fdSelect
      ensures |font| == CharStringsStart(t)
      ensures positions == old(positions).(charset := CharsetStart(t), encoding := EncodingPosition(input, isCID, EncodingStart(t)),
                                           fdSelect := if isCID then FDSelectStart(t) else old(positions).fdSelect)
      ensures isCID ==> order == FDOrder(input, ids)
    {
      WriteStringIndex();
      WriteGlobalSubrsIndex();
      ghost var beforeEncoding := font;
      assert |beforeEncoding| == EncodingStart(t);
      WriteEncodings(ids);
      if isCID || input.encoding.start <= 1 {
        AppendEmpty(beforeEncoding);
      }
      assert |font| == CharsetStart(t);
      WriteCharsets(ids, mapping);
      order := WriteFDSelectOf(ids, t);
    }

    /** `DetermineFDArrayIndexes` and `WriteFDSelect` for a CID font, as the part of `t` after the charset. */
    method WriteFDSelectOf(ids: seq<nat>, ghost t: Tables) returns (order: seq<nat>)
      requires position == |font| == FDSelectStart(t) && input.WellFormed() && 0 < |ids| <= 65534
      requires isCID == IsCID(input) && t.fdSelect == FDSelectOf(input, isCID, ids)
      modifies this
      ensures position == |font| == CharStringsStart(t) && LayoutKept()
      ensures font == old(font) + t.fdSelect
      ensures positions == old(positions).(fdSelect := if isCID then FDSelectStart(t) else old(positions).fdSelect)
      ensures isCID ==> order == FDOrder(input, ids)
    {
      order := [];
      if isCID {
        var ranks;
        order, ranks := DetermineFDArrayIndexes(ids);
        FDOrderIs(input, ids, order, ranks);
        WriteFDSelect(ids, ranks);
      } else {
        AppendEmpty(font);
      }
    }

    /** The private DICT and, for a CID font, the FDArray with its private bodies, as the last parts of `t`. */
    method WriteDictArrays(ids: seq<nat>, order: seq<nat>, ghost t: Tables)
      requires position == |font| == PrivateBodyStart(t) && input.WellFormed()
      requires isCID == IsCID(input) && (isCID ==> order == FDOrder(input, ids))
      requires t.privateBody == PrivateBody(input.privateDict)
      requires t.privateBodies == (if isCID then PrivateBodies(input, FDOrder(input, ids)) else [])
      requires t.fdIndex == FDIndexOf(input, isCID, FDOrder(input, ids), PrivatesStart(t))
      requires |UsedFDs(input, ids)| <= 254
      modifies this
      ensures position == |font| && LayoutKept()
      ensures font == old(font) + t.privateBody + t.privateBodies + t.fdIndex
      ensures positions == old(positions).(privateSize := |t.privateBody|,
                                           privateDict := PrivatePosition(input.privateDict, PrivateBodyStart(t)),
                                           fdArray := if isCID then FDIndexStart(t) else old(positions).fdArray)
    {
      WritePrivateDictionary();
      ghost var beforeBodies := font;
      if isCID {
        assert |beforeBodies| == PrivatesStart(t);
        assert t.fdIndex == IndexBytes(FontDictItems(input, order, |beforeBodies|));
        WriteFDArray(order);
        assert font == beforeBodies + (t.privateBodies + t.fdIndex);
        AppendAssoc(beforeBodies, t.privateBodies, t.fdIndex);
      } else {
        AppendEmpty(font);
        AppendEmpty(font + []);
      }
    }

    /**
     * The writes of `CreateCFFSubset` once the glyph list is known, from the
     * header to the update of the top DICT: the result is the subset font
     * of that list, unless a glyph's charstring cannot be flattened.
     */
    method WriteSubset(ids: seq<nat>, mapping: Option<seq<card16>>, subsetFontName: seq<byte>) returns (status: Status)
      requires font == [] && position == 0 && positions == Positions(0, 0, 0, 0, 0, 0, 0)
      requires Writable(input, ids, mapping)
      modifies this
      ensures status == Success <==> AllFlatten(input, ids)
      ensures status == Success ==> font == SubsetFont(input, ids, mapping, subsetFontName)
    {
      WriteFront(subsetFontName);
      ghost var front := Tables(
        font, StringIndexOf(input), IndexBytes([]), EncodingOf(input, isCID, ids),
        CharsetBytes(CharsetSIDs(input, ids, mapping, isCID)), FDSelectOf(input, isCID, ids), [], [], [], []);
      var order := WriteDictTables(ids, mapping, front);
      status := WriteCharStrings(ids);
      if status == Success {
        CompletedIsSubset(input, ids, mapping, subsetFontName, front);
        FinishSubset(ids, subsetFontName, order, Completed(input, ids, front));
      }
    }

    /**
     * `CreateCFFSubset` as written: a font whose fsType forbids embedding
     * is reported and nothing is written; otherwise the list with glyph 0
     * in front is closed over its dependencies, and that closure is then
     * dropped: every writer takes the caller's list (`ClosureDiscarded`).
     */
    method CreateCFFSubsetAsWritten(ids: seq<nat>, mapping: Option<seq<card16>>, subsetFontName: seq<byte>,
                                    embeddingAllowed: bool) returns (status: Status, notEmbedded: bool)
      requires font == [] && position == 0 && positions == Positions(0, 0, 0, 0, 0, 0, 0)
      requires Writable(input, ids, mapping)
      modifies this
      ensures notEmbedded <==> input.HasOs2() && !embeddingAllowed
      ensures notEmbedded ==> status == Success && font == []
      ensures !notEmbedded ==>
        (status == Success <==> AllResolve(input, WithGlyphZero(ids), Fuel(input)) && AllFlatten(input, ids))
      ensures !notEmbedded && status == Success ==> font == SubsetFont(input, ids, mapping, subsetFontName)
    {
      if input.HasOs2() && !embeddingAllowed {
        return Success, true;
      }
      notEmbedded := false;
      status := WriteWithClosure(ids, mapping, subsetFontName);
    }

    /** The part of `CreateCFFSubsetAsWritten` after the fsType check: the closure that is dropped, then the writes. */
    method WriteWithClosure(ids: seq<nat>, mapping: Option<seq<card16>>, subsetFontName: seq<byte>) returns (status: Status)
      requires font == [] && position == 0 && positions == Positions(0, 0, 0, 0, 0, 0, 0)
      requires Writable(input, ids, mapping)
      modifies this
      ensures status == Success <==> AllResolve(input, WithGlyphZero(ids), Fuel(input)) && AllFlatten(input, ids)
      ensures status == Success ==> font == SubsetFont(input, ids, mapping, subsetFontName)
    {
      var subsetGlyphIDs := WithGlyphZero(ids);
      // The closed list is computed and not used afterwards.
      var closed;
      status, closed := AddDependentGlyphs(subsetGlyphIDs);
      if status == Failure {
        return;
      }
      status := WriteSubset(ids, mapping, subsetFontName);
    }

    /**
     * `CreateCFFSubset` as intended: the writers take the closed list, so
     * the subset holds glyph 0, every requested glyph and every glyph they
     * reach (`SubsetGlyphsComplete`).
     */
    method CreateCFFSubset(ids: seq<nat>, mapping: Option<seq<card16>>, subsetFontName: seq<byte>,
                           embeddingAllowed: bool) returns (status: Status, notEmbedded: bool)
      requires font == [] && position == 0 && positions == Positions(0, 0, 0, 0, 0, 0, 0)
      requires |ids| > 0 && Writable(input, SubsetGlyphs(input, ids), mapping)
      modifies this
      ensures notEmbedded <==> input.HasOs2() && !embeddingAllowed
      ensures notEmbedded ==> status == Success && font == []
      ensures !notEmbedded ==>
        (status == Success <==>
           AllResolve(input, WithGlyphZero(ids), Fuel(input)) && AllFlatten(input, SubsetGlyphs(input, ids)))
      ensures !notEmbedded && status == Success ==>
        font == SubsetFont(input, SubsetGlyphs(input, ids), mapping, subsetFontName)
    {
      if input.HasOs2() && !embeddingAllowed {
        return Success, true;
      }
      notEmbedded := false;
      var subsetGlyphIDs := WithGlyphZero(ids);
      status, subsetGlyphIDs := AddDependentGlyphs(subsetGlyphIDs);
      if status == Failure {
        return;
      }
      ClosureIsSubsetGlyphs(input, ids, subsetGlyphIDs);
      status := WriteSubset(subsetGlyphIDs, mapping, subsetFontName);
    }

    /** The writes after CharStrings, and the update of the top DICT once every position is known. */
    method FinishSubset(ids: seq<nat>, subsetFontName: seq<byte>, order: seq<nat>, ghost t: Tables)
      requires input.WellFormed() && |UsedFDs(input, ids)| <= 254
      requires isCID == IsCID(input) && (isCID ==> order == FDOrder(input, ids))
      requires t.top == TopTables(input, subsetFontName) && placeholders == SubsetPlaceholders(input, subsetFontName)
      requires font == t.top + t.strings + t.globalSubrs + t.encoding + t.charset + t.fdSelect + t.charStrings
      requires position == |font|
      requires positions == Positions(CharsetStart(t), EncodingPosition(input, isCID, EncodingStart(t)),
                                      CharStringsStart(t), 0, 0, 0, if isCID then FDSelectStart(t) else 0)
      requires t.privateBody == PrivateBody(input.privateDict)
      requires t.privateBodies == (if isCID then PrivateBodies(input, FDOrder(input, ids)) else [])
      requires t.fdIndex == FDIndexOf(input, isCID, FDOrder(input, ids), PrivatesStart(t))
      modifies this
      ensures font == Patched(input, t, subsetFontName)
    {
      WriteDictArrays(ids, order, t);
      SubsetSlots(input, t, subsetFontName);
      UpdateIndexesAtTopDict();
    }
  }
}
