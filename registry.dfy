/**
 * The indirect-object registry: one record per object ID, telling the
 * cross-reference writers whether the object is in use, whether it was
 * written, whether it must appear in the next xref section, where it was
 * written and its generation number.
 */
module Registry {
  import opened Common

  datatype ReferenceType = Used | Free

  datatype ObjectWriteInformation = ObjectWriteInformation(
    refType: ReferenceType,
    written: bool,
    dirty: bool,
    position: int,
    generation: nat)

  /** Largest offset an xref table entry can carry (ten decimal digits). */
  const MaxXrefPosition: int := 9999999999
  /** The generation number that can no longer be increased. */
  const MaxGeneration: nat := 65535

  /** Record of object 0, the head of the free list. */
  const InitialFreeObject := ObjectWriteInformation(Free, false, true, 0, MaxGeneration)

  /** Record of a freshly allocated object (its position is not yet known). */
  const NewUsedObject := ObjectWriteInformation(Used, false, true, 0, 0)

  /** Kind of an entry read from the xref of a file that is being modified. */
  datatype XrefEntryType = XrefEntryExisting | XrefEntryDelete | XrefEntryStreamObject

  datatype XrefEntryInput = XrefEntryInput(entryType: XrefEntryType, objectPosition: int, revision: nat)

  /** The record `AppendExistingItem` builds for an object of the modified file. */
  function ExistingItem(t: ReferenceType, generation: nat, position: int): (e: ObjectWriteInformation)
    ensures e.refType == t && e.generation == generation && !e.dirty
    ensures e.written <==> t == Used
    ensures e.position == (if t == Used then position else 0)
  {
    ObjectWriteInformation(t, t == Used, false, if t == Used then position else 0, generation)
  }

  /** The record `SetupXrefFromModifiedFile` appends for one input xref entry. */
  function ImportedItem(x: XrefEntryInput): ObjectWriteInformation
  {
    ExistingItem(if x.entryType != XrefEntryDelete then Used else Free,
                 if x.entryType != XrefEntryStreamObject then x.revision else 0,
                 x.objectPosition)
  }

  /** The records appended for a modified file's xref, whose entry 0 is skipped. */
  function ImportedItems(xref: seq<XrefEntryInput>): (r: seq<ObjectWriteInformation>)
    requires |xref| >= 1
    ensures |r| == |xref| - 1
    ensures forall i :: 0 <= i < |r| ==>
      && !r[i].dirty
      && (r[i].written <==> r[i].refType == Used)
      && (r[i].refType == Free <==> xref[i + 1].entryType == XrefEntryDelete)
      && r[i].position == (if r[i].refType == Free then 0 else xref[i + 1].objectPosition)
      && r[i].generation == (if xref[i + 1].entryType == XrefEntryStreamObject then 0 else xref[i + 1].revision)
  {
    seq(|xref| - 1, i requires 0 <= i < |xref| - 1 => ImportedItem(xref[i + 1]))
  }

  class IndirectObjectsReferenceRegistry {
    var entries: seq<ObjectWriteInformation>

    /** A fresh registry holds the single free head object. */
    constructor ()
      ensures entries == [InitialFreeObject]
    {
      entries := [InitialFreeObject];
    }

    /** Empties the registry and sets up the free head object again. */
    method Reset()
      modifies this
      ensures entries == [InitialFreeObject]
    {
      entries := [];
      entries := entries + [InitialFreeObject];
    }

    function GetObjectsCount(): (n: nat)
      reads this
      ensures n == |entries|
    {
      |entries|
    }

    /** Reports whether the ID is registered and, if so, its record. */
    function GetObjectWriteInformation(id: nat): (r: Option<ObjectWriteInformation>)
      reads this
      ensures r.Some? <==> id < |entries|
      ensures r.Some? ==> r.value == entries[id]
    {
      if |entries| <= id then None else Some(entries[id])
    }

    /** Appends a used, unwritten, dirty record of generation 0; returns its ID. */
    method AllocateNewObjectID() returns (id: nat)
      modifies this
      ensures id == |old(entries)|
      ensures entries == old(entries) + [NewUsedObject]
    {
      id := GetObjectsCount();
      entries := entries + [NewUsedObject];
    }

    /**
     * Records that an object was written at `position`. Only the dirty flag,
     * the position and the written flag change; a failure changes nothing.
     */
    method MarkObjectAsWritten(id: nat, position: int) returns (s: Status)
      modifies this
      ensures s == Success <==>
        id < |old(entries)| && !old(entries)[id].written && position <= MaxXrefPosition
      ensures s == Failure ==> entries == old(entries)
      ensures s == Success ==>
        entries == old(entries)[id := old(entries)[id].(dirty := true, position := position, written := true)]
    {
      if |entries| <= id {
        return Failure;
      }
      if entries[id].written {
        return Failure;
      }
      if position > MaxXrefPosition {
        return Failure;
      }
      entries := entries[id := entries[id].(dirty := true, position := position, written := true)];
      return Success;
    }

    /**
     * Marks an object that is rewritten in an incremental update: it becomes a
     * dirty used object at the new position; the written flag is untouched.
     */
    method MarkObjectAsUpdated(id: nat, position: int) returns (s: Status)
      modifies this
      ensures s == Success <==> id < |old(entries)| && position <= MaxXrefPosition
      ensures s == Failure ==> entries == old(entries)
      ensures s == Success ==>
        entries == old(entries)[id := old(entries)[id].(dirty := true, position := position, refType := Used)]
    {
      if |entries| <= id {
        return Failure;
      }
      if position > MaxXrefPosition {
        return Failure;
      }
      entries := entries[id := entries[id].(dirty := true, position := position, refType := Used)];
      return Success;
    }

    /**
     * Frees an object: its generation grows by one, its position becomes 0.
     * An object whose generation is already 65535 cannot be deleted.
     */
    method DeleteObject(id: nat) returns (s: Status)
      modifies this
      ensures s == Success <==> id < |old(entries)| && old(entries)[id].generation != MaxGeneration
      ensures s == Failure ==> entries == old(entries)
      ensures s == Success ==>
        entries == old(entries)[id := old(entries)[id].(dirty := true,
          generation := old(entries)[id].generation + 1, position := 0, refType := Free)]
    {
      if |entries| <= id {
        return Failure;
      }
      if entries[id].generation == MaxGeneration {
        return Failure;
      }
      var e := entries[id];
      entries := entries[id := e.(dirty := true, generation := e.generation + 1, position := 0, refType := Free)];
      return Success;
    }

    /** Appends a clean record for an object that already exists in the modified file. */
    method AppendExistingItem(t: ReferenceType, generation: nat, position: int)
      modifies this
      ensures entries == old(entries) + [ExistingItem(t, generation, position)]
    {
      var item := ObjectWriteInformation(t, t == Used, false, if t == Used then position else 0, generation);
      entries := entries + [item];
    }

    /** Appends one clean record per xref entry of the modified file, skipping entry 0. */
    method SetupXrefFromModifiedFile(xref: seq<XrefEntryInput>)
      modifies this
      ensures |xref| <= 1 ==> entries == old(entries)
      ensures |xref| >= 1 ==> entries == old(entries) + ImportedItems(xref)
    {
      var i := 1;
      while i < |xref|
        invariant 1 <= i <= if |xref| == 0 then 1 else |xref|
        invariant |xref| >= 1 ==> entries == old(entries) + ImportedItems(xref[..i])
        invariant |xref| == 0 ==> entries == old(entries)
      {
        var x := xref[i];
        AppendExistingItem(if x.entryType != XrefEntryDelete then Used else Free,
                           if x.entryType != XrefEntryStreamObject then x.revision else 0,
                           x.objectPosition);
        assert ImportedItems(xref[..i + 1]) == ImportedItems(xref[..i]) + [ImportedItem(x)];
        i := i + 1;
      }
      assert |xref| >= 1 ==> xref[..i] == xref;
    }
  }
}
