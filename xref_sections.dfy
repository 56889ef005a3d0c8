/**
 * What the cross-reference writers emit for a registry: the subsections
 * (maximal runs of dirty records), the free-list pointer of every dirty
 * free record, and the resulting xref table and xref-stream records.
 */
module XrefSections {
  import opened Common
  import opened Registry
  import opened XrefFormat

  type Entries = seq<ObjectWriteInformation>

  /** End of the run of dirty records that starts at `s`. */
  function RunEnd(es: Entries, s: nat): (e: nat)
    requires s <= |es|
    ensures s <= e <= |es|
    ensures e < |es| ==> !es[e].dirty
    decreases |es| - s
  {
    if s < |es| && es[s].dirty then RunEnd(es, s + 1) else s
  }

  /** Every record from `s` up to the end of its run is dirty. */
  lemma {:induction false} RunEndDirty(es: Entries, s: nat, k: nat)
    requires s <= |es| && s <= k < RunEnd(es, s)
    ensures es[k].dirty
    decreases |es| - s
  {
    if s < k {
      RunEndDirty(es, s + 1, k);
    }
  }

  /** First dirty record at or after `s`, or the count of records. */
  function NextDirty(es: Entries, s: nat): (e: nat)
    requires s <= |es|
    ensures s <= e <= |es|
    ensures e < |es| ==> es[e].dirty
    decreases |es| - s
  {
    if s < |es| && !es[s].dirty then NextDirty(es, s + 1) else s
  }

  /** Every record from `s` up to the next dirty one is clean. */
  lemma {:induction false} NextDirtyClean(es: Entries, s: nat, k: nat)
    requires s <= |es| && s <= k < NextDirty(es, s)
    ensures !es[k].dirty
    decreases |es| - s
  {
    if s < k {
      NextDirtyClean(es, s + 1, k);
    }
  }

  datatype Subsection = Subsection(first: nat, count: nat)

  /**
   * The subsections written from `s` on: a run starting at `s` (empty when
   * record `s` is clean), then the runs starting at each later dirty record
   * that follows a clean one.
   */
  function Runs(es: Entries, s: nat): seq<Subsection>
    requires s <= |es|
    decreases |es| - s
  {
    if s == |es| then []
    else
      var e := RunEnd(es, s);
      [Subsection(s, e - s)] + Runs(es, NextDirty(es, if e == s then s + 1 else e))
  }

  /** The first step of `Runs`, as a lemma callers use instead of unfolding it. */
  lemma RunsUnfold(es: Entries, s: nat, e: nat)
    requires s < |es| && e == RunEnd(es, s)
    ensures Runs(es, s) == [Subsection(s, e - s)] + Runs(es, NextDirty(es, if e == s then s + 1 else e))
  {
  }

  predicate InRun(r: Subsection, k: nat) { r.first <= k < r.first + r.count }

  /** Runs lie within the records, start at or after `s`, and come in increasing order. */
  ghost predicate RunsOrdered(es: Entries, s: nat, rs: seq<Subsection>)
  {
    && (forall j :: 0 <= j < |rs| ==> s <= rs[j].first && rs[j].first + rs[j].count <= |es|)
    && (forall i, j :: 0 <= i < j < |rs| ==> rs[i].first + rs[i].count < rs[j].first)
  }

  /** Every record of a run is dirty and each run ends at the end or at a clean record. */
  ghost predicate RunsDirty(es: Entries, rs: seq<Subsection>)
  {
    && (forall j :: 0 <= j < |rs| ==> rs[j].first + rs[j].count <= |es| && AllDirty(es, rs[j]))
    && (forall j :: 0 <= j < |rs| && rs[j].first + rs[j].count < |es| ==> !es[rs[j].first + rs[j].count].dirty)
  }

  ghost predicate AllDirty(es: Entries, r: Subsection)
  {
    forall k :: r.first <= k < r.first + r.count && k < |es| ==> es[k].dirty
  }

  /** Each run but the first is not empty and starts right after a clean record. */
  ghost predicate RunsStartAfterCleanRecord(es: Entries, rs: seq<Subsection>)
  {
    forall j :: 0 < j < |rs| ==> 1 <= rs[j].first <= |es| && rs[j].count >= 1 && !es[rs[j].first - 1].dirty
  }

  /** Every dirty record at or after `s` lies in some run. */
  ghost predicate RunsCover(es: Entries, s: nat, rs: seq<Subsection>)
  {
    forall k :: s <= k < |es| && es[k].dirty ==> exists j :: 0 <= j < |rs| && InRun(rs[j], k)
  }

  /** A run placed before ordered runs that start after it keeps them ordered. */
  lemma OrderedCons(es: Entries, s: nat, n: nat, head: Subsection, tail: seq<Subsection>)
    requires RunsOrdered(es, n, tail) && s <= head.first && head.first + head.count <= |es|
    requires tail != [] ==> head.first + head.count < n
    ensures RunsOrdered(es, s, [head] + tail)
  {
    var rs := [head] + tail;
    forall i, j | 0 <= i < j < |rs| ensures rs[i].first + rs[i].count < rs[j].first {
      assert rs[j] == tail[j - 1];
      if i > 0 {
        assert rs[i] == tail[i - 1];
      }
    }
  }

  lemma {:induction false} RunsBounds(es: Entries, s: nat)
    requires s <= |es|
    ensures s < |es| ==> |Runs(es, s)| >= 1 && Runs(es, s)[0].first == s
    ensures RunsOrdered(es, s, Runs(es, s))
    decreases |es| - s
  {
    if s < |es| {
      var e := RunEnd(es, s);
      var n := NextDirty(es, if e == s then s + 1 else e);
      RunsBounds(es, n);
      RunsUnfold(es, s, e);
      OrderedCons(es, s, n, Subsection(s, e - s), Runs(es, n));
    }
  }

  /** A dirty run ending at a clean record, placed before dirty runs, keeps them dirty. */
  lemma DirtyCons(es: Entries, head: Subsection, tail: seq<Subsection>)
    requires RunsDirty(es, tail) && head.first + head.count <= |es| && AllDirty(es, head)
    requires head.first + head.count < |es| ==> !es[head.first + head.count].dirty
    ensures RunsDirty(es, [head] + tail)
  {
    var rs := [head] + tail;
    forall j | 0 < j < |rs| ensures rs[j] == tail[j - 1] {
    }
  }

  lemma {:induction false} RunsAreDirty(es: Entries, s: nat)
    requires s <= |es|
    ensures RunsDirty(es, Runs(es, s))
    decreases |es| - s
  {
    if s < |es| {
      var e := RunEnd(es, s);
      var n := NextDirty(es, if e == s then s + 1 else e);
      RunsAreDirty(es, n);
      forall k | s <= k < e ensures es[k].dirty {
        RunEndDirty(es, s, k);
      }
      RunsUnfold(es, s, e);
      DirtyCons(es, Subsection(s, e - s), Runs(es, n));
    }
  }

  /** A run placed before runs that start after clean records, the next one at `n`. */
  lemma StartAfterCleanCons(es: Entries, n: nat, head: Subsection, tail: seq<Subsection>)
    requires RunsStartAfterCleanRecord(es, tail)
    requires tail != [] ==> tail[0].first == n && 1 <= n <= |es| && tail[0].count >= 1 && !es[n - 1].dirty
    ensures RunsStartAfterCleanRecord(es, [head] + tail)
  {
    var rs := [head] + tail;
    forall j | 0 < j < |rs| ensures rs[j] == tail[j - 1] {
    }
  }

  /** The run after the one at `s` follows a clean record. */
  lemma NextRunAfterClean(es: Entries, s: nat, e: nat, n: nat)
    requires s < |es| && e == RunEnd(es, s) && n == NextDirty(es, if e == s then s + 1 else e) && n < |es|
    ensures 1 <= n && !es[n - 1].dirty
  {
    var start := if e == s then s + 1 else e;
    if start < n {
      NextDirtyClean(es, start, n - 1);
    } else if e == s {
      assert !es[s].dirty;
    }
  }

  /** The runs from a dirty record start with a non-empty run there. */
  lemma RunsFromDirty(es: Entries, n: nat)
    requires n < |es| && es[n].dirty
    ensures Runs(es, n) != [] && Runs(es, n)[0].first == n && Runs(es, n)[0].count >= 1
  {
    var m := RunEnd(es, n);
    assert m == RunEnd(es, n + 1);
    RunsUnfold(es, n, m);
  }

  lemma {:induction false} RunsStartAfterClean(es: Entries, s: nat)
    requires s <= |es|
    ensures RunsStartAfterCleanRecord(es, Runs(es, s))
    decreases |es| - s
  {
    if s < |es| {
      var e := RunEnd(es, s);
      var n := NextDirty(es, if e == s then s + 1 else e);
      RunsStartAfterClean(es, n);
      if n < |es| {
        NextRunAfterClean(es, s, e, n);
        RunsFromDirty(es, n);
      }
      RunsUnfold(es, s, e);
      StartAfterCleanCons(es, n, Subsection(s, e - s), Runs(es, n));
    }
  }

  lemma {:induction false} RunsCoverDirtyAt(es: Entries, s: nat, k: nat)
    requires s <= k < |es| && es[k].dirty
    ensures exists j :: 0 <= j < |Runs(es, s)| && InRun(Runs(es, s)[j], k)
    decreases |es| - s
  {
    var e := RunEnd(es, s);
    var n := NextDirty(es, if e == s then s + 1 else e);
    var rs := Runs(es, s);
    var tail := Runs(es, n);
    assert rs == [Subsection(s, e - s)] + tail;
    if k < e {
      assert InRun(rs[0], k);
    } else {
      if k < n {
        NextDirtyClean(es, if e == s then s + 1 else e, k);
      }
      RunsCoverDirtyAt(es, n, k);
      var j :| 0 <= j < |tail| && InRun(tail[j], k);
      assert rs[j + 1] == tail[j];
    }
  }

  lemma RunsCoverDirty(es: Entries, s: nat)
    requires s <= |es|
    ensures RunsCover(es, s, Runs(es, s))
  {
    forall k | s <= k < |es| && es[k].dirty
      ensures exists j :: 0 <= j < |Runs(es, s)| && InRun(Runs(es, s)[j], k)
    {
      RunsCoverDirtyAt(es, s, k);
    }
  }

  /**
   * The subsections are the maximal runs of dirty records, in increasing
   * order: the first starts at 0 (and is empty when record 0 is clean),
   * every record in a run is dirty, each run ends at the end or at a clean
   * record, each later run is not empty and starts right after a clean
   * record, and every dirty record lies in some run.
   */
  lemma RunsAreMaximalDirtyRuns(es: Entries)
    ensures |es| > 0 ==> |Runs(es, 0)| >= 1 && Runs(es, 0)[0].first == 0
    ensures RunsOrdered(es, 0, Runs(es, 0))
    ensures RunsDirty(es, Runs(es, 0))
    ensures RunsStartAfterCleanRecord(es, Runs(es, 0))
    ensures RunsCover(es, 0, Runs(es, 0))
  {
    RunsBounds(es, 0);
    RunsAreDirty(es, 0);
    RunsStartAfterClean(es, 0);
    RunsCoverDirty(es, 0);
  }

  /** The subsections of the whole table. */
  function TableRuns(es: Entries): seq<Subsection>
  {
    Runs(es, 0)
  }

  predicate DirtyFree(e: ObjectWriteInformation) { e.dirty && e.refType == Free }

  /** First dirty free record at or after `x`; 0 (the list head) when there is none. */
  function NextFreeFrom(es: Entries, x: nat): (r: nat)
    requires 1 <= x <= |es|
    ensures r == 0 || (x <= r < |es| && DirtyFree(es[r]))
    decreases |es| - x
  {
    if x == |es| then 0 else if DirtyFree(es[x]) then x else NextFreeFrom(es, x + 1)
  }

  /** No dirty free record lies between `x` and the one found (or the end). */
  lemma {:induction false} NextFreeFromSkips(es: Entries, x: nat, j: nat)
    requires 1 <= x <= |es| && x <= j < (if NextFreeFrom(es, x) == 0 then |es| else NextFreeFrom(es, x))
    ensures !DirtyFree(es[j])
    decreases |es| - x
  {
    if x < j {
      NextFreeFromSkips(es, x + 1, j);
    }
  }

  /**
   * The writers' `nextFreeObject` cursor after the dirty records below `i`
   * were visited: it starts at 0 and, at each dirty free record, moves to
   * the first dirty free record after it (or back to 0).
   */
  function Cursor(es: Entries, i: nat): (c: nat)
    requires i <= |es|
    ensures c == 0 || c < |es|
  {
    if i == 0 then 0
    else
      var c := Cursor(es, i - 1);
      if DirtyFree(es[i - 1]) then NextFreeFrom(es, c + 1) else c
  }

  /** The cursor moves past record `i` only when that record is a dirty free one. */
  lemma CursorStep(es: Entries, i: nat)
    requires i < |es|
    ensures DirtyFree(es[i]) ==> Cursor(es, i + 1) == NextFreeFrom(es, Cursor(es, i) + 1)
    ensures !DirtyFree(es[i]) ==> Cursor(es, i + 1) == Cursor(es, i)
  {
  }

  /** The free-list pointer written for record `i`. */
  function FreePointer(es: Entries, i: nat): nat
    requires i < |es|
  {
    Cursor(es, i + 1)
  }

  /**
   * When record 0 is a dirty free record (as it is from construction), the
   * cursor before record i >= 1 is the first dirty free record at or after i.
   */
  lemma {:induction false} CursorWithFreeHead(es: Entries, i: nat)
    requires 1 <= i <= |es| && DirtyFree(es[0])
    ensures Cursor(es, i) == NextFreeFrom(es, i)
  {
    if i > 1 {
      CursorWithFreeHead(es, i - 1);
    }
  }

  /**
   * The rebuilt free list: with a dirty free record 0, each dirty free
   * record points to the next higher-numbered dirty free record, and the
   * last one points back to 0.
   */
  lemma FreeListLinks(es: Entries, i: nat)
    requires i < |es| && DirtyFree(es[0]) && DirtyFree(es[i])
    ensures var p := FreePointer(es, i);
      && (p == 0 || (i < p < |es| && DirtyFree(es[p])))
      && (forall j :: i < j < (if p == 0 then |es| else p) ==> !DirtyFree(es[j]))
  {
    if i == 0 {
      assert Cursor(es, 1) == NextFreeFrom(es, 1);
    } else {
      CursorWithFreeHead(es, i);
      assert Cursor(es, i) == i;
    }
    var p := NextFreeFrom(es, i + 1);
    forall j | i < j < (if p == 0 then |es| else p) ensures !DirtyFree(es[j]) {
      NextFreeFromSkips(es, i + 1, j);
    }
  }

  /**
   * When record 0 is not a dirty free record, the first dirty free record
   * is linked to itself.
   */
  lemma FirstFreeSelfLinkedWithoutFreeHead(es: Entries, i: nat)
    requires i < |es| && DirtyFree(es[i]) && !DirtyFree(es[0])
    requires forall j :: 0 <= j < i ==> !DirtyFree(es[j])
    ensures FreePointer(es, i) == i
  {
    CursorBeforeFirstFree(es, i);
    var r := NextFreeFrom(es, 1);
    assert Cursor(es, i + 1) == r;
    if r == 0 || r > i {
      NextFreeFromSkips(es, 1, i);
    }
  }

  lemma {:induction false} CursorBeforeFirstFree(es: Entries, i: nat)
    requires i <= |es|
    requires forall j :: 0 <= j < i ==> !DirtyFree(es[j])
    ensures Cursor(es, i) == 0
  {
    if i > 0 {
      CursorBeforeFirstFree(es, i - 1);
    }
  }

  // ---------------------------------------------------------------------
  // The classical table
  // ---------------------------------------------------------------------

  /** What the table writer emits, in order: subsection headers and entries. */
  datatype Item = Header(first: nat, count: nat) | Entry(id: nat)

  function EntryItems(s: nat, e: nat): (r: seq<Item>)
    requires s <= e
    ensures |r| == e - s
    decreases e - s
  {
    if s == e then [] else EntryItems(s, e - 1) + [Entry(e - 1)]
  }

  /** The entries of a subsection name its records in order. */
  lemma {:induction false} EntryItemsElements(s: nat, e: nat)
    requires s <= e
    ensures forall j :: 0 <= j < e - s ==> EntryItems(s, e)[j] == Entry(s + j)
    decreases e - s
  {
    if s < e {
      EntryItemsElements(s, e - 1);
    }
  }

  function SubsectionItems(r: Subsection): seq<Item>
  {
    [Header(r.first, r.count)] + EntryItems(r.first, r.first + r.count)
  }

  function ItemsOf(rs: seq<Subsection>): seq<Item>
  {
    if rs == [] then [] else ItemsOf(rs[..|rs| - 1]) + SubsectionItems(rs[|rs| - 1])
  }

  lemma {:induction false} ItemsOfAppend(a: seq<Subsection>, b: seq<Subsection>)
    ensures ItemsOf(a + b) == ItemsOf(a) + ItemsOf(b)
    decreases |b|
  {
    if b != [] {
      assert (a + b)[..|a + b| - 1] == a + b[..|b| - 1];
      ItemsOfAppend(a, b[..|b| - 1]);
    } else {
      assert a + b == a;
    }
  }

  function TableItems(es: Entries): seq<Item>
  {
    ItemsOf(TableRuns(es))
  }

  predicate ItemsInRange(es: Entries, items: seq<Item>)
  {
    forall j :: 0 <= j < |items| && items[j].Entry? ==> items[j].id < |es|
  }

  /** The subsection header: `first count` and the end of the line. */
  function HeaderBytes(first: nat, count: nat): seq<byte>
  {
    Decimal(first) + [32] + Decimal(count) + [10]
  }

  /**
   * The bytes of one item; `None` for a used record that was never written
   * (and for a record that does not exist, which the table never names).
   */
  function RenderItem(es: Entries, item: Item): Option<seq<byte>>
  {
    match item
    case Header(f, c) => Some(HeaderBytes(f, c))
    case Entry(i) =>
      if i >= |es| then None
      else
      var e := es[i];
      if e.refType == Used then
        if e.written then Some(XrefEntry(e.position, e.generation, InUseMark)) else None
      else Some(XrefEntry(FreePointer(es, i), e.generation, FreeMark))
  }

  datatype Emitted = Emitted(bytes: seq<byte>, ok: bool)

  /** The bytes of a list of items, stopping at the first one that fails. */
  function Render(es: Entries, items: seq<Item>): Emitted
  {
    if items == [] then Emitted([], true)
    else
      var prev := Render(es, items[..|items| - 1]);
      if !prev.ok then prev
      else match RenderItem(es, items[|items| - 1])
        case None => Emitted(prev.bytes, false)
        case Some(b) => Emitted(prev.bytes + b, true)
  }

  /** No item of the list fails to render. */
  predicate ItemsRender(es: Entries, items: seq<Item>)
  {
    forall j :: 0 <= j < |items| ==> RenderItem(es, items[j]).Some?
  }

  /** Rendering succeeds exactly when no item fails. */
  lemma {:induction false} RenderOk(es: Entries, items: seq<Item>)
    ensures Render(es, items).ok <==> ItemsRender(es, items)
  {
    if items != [] {
      var init := items[..|items| - 1];
      RenderOk(es, init);
      RenderOkStep(es, items);
      ItemsOkSnoc(es, items);
    }
  }

  /** The last item decides whether a successful rendering stays successful. */
  lemma RenderOkStep(es: Entries, items: seq<Item>)
    requires items != []
    ensures Render(es, items).ok <==> Render(es, items[..|items| - 1]).ok && RenderItem(es, items[|items| - 1]).Some?
  {
  }

  /** No item of a list fails exactly when none of its first part fails and its last does not. */
  lemma ItemsOkSnoc(es: Entries, items: seq<Item>)
    requires items != []
    ensures ItemsRender(es, items)
        <==> ItemsRender(es, items[..|items| - 1]) && RenderItem(es, items[|items| - 1]).Some?
  {
    var init := items[..|items| - 1];
    assert forall j :: 0 <= j < |init| ==> init[j] == items[j];
  }

  /** Rendering a concatenation after a successful first part appends the second part's rendering. */
  lemma {:induction false} RenderAppend(es: Entries, a: seq<Item>, b: seq<Item>)
    requires Render(es, a).ok
    ensures Render(es, a + b) == Emitted(Render(es, a).bytes + Render(es, b).bytes, Render(es, b).ok)
    decreases |b|
  {
    if b == [] {
      assert a + b == a;
      assert Render(es, a).bytes + [] == Render(es, a).bytes;
    } else {
      var b0 := b[..|b| - 1];
      assert (a + b)[..|a + b| - 1] == a + b0;
      assert (a + b)[|a + b| - 1] == b[|b| - 1];
      RenderAppend(es, a, b0);
      var x := RenderItem(es, b[|b| - 1]);
      if Render(es, b0).ok && x.Some? {
        AppendAssoc(Render(es, a).bytes, Render(es, b0).bytes, x.value);
      }
    }
  }

  /** Once rendering has failed, later items add nothing. */
  lemma {:induction false} RenderAfterFailure(es: Entries, a: seq<Item>, b: seq<Item>)
    requires !Render(es, a).ok
    ensures Render(es, a + b) == Render(es, a)
    decreases |b|
  {
    if b != [] {
      assert (a + b)[..|a + b| - 1] == a + b[..|b| - 1];
      RenderAfterFailure(es, a, b[..|b| - 1]);
    } else {
      assert a + b == a;
    }
  }

  /** The items of the table name exactly the dirty records, each once, in increasing order. */
  lemma TableEntriesAreDirtyRecords(es: Entries)
    ensures ItemsInRange(es, TableItems(es))
    ensures forall k :: 0 <= k < |es| ==> (es[k].dirty <==> Entry(k) in TableItems(es))
  {
    var rs := TableRuns(es);
    RunsAreMaximalDirtyRuns(es);
    ItemsOfFacts(es, rs);
  }

  /** The items of one subsection name exactly the records of its run. */
  lemma SubsectionEntries(r: Subsection)
    ensures forall j :: 0 <= j < |SubsectionItems(r)| && SubsectionItems(r)[j].Entry? ==>
      InRun(r, SubsectionItems(r)[j].id)
    ensures forall k: nat :: Entry(k) in SubsectionItems(r) <==> InRun(r, k)
  {
    var items := SubsectionItems(r);
    EntryItemsElements(r.first, r.first + r.count);
    assert forall j :: 1 <= j < |items| ==> items[j] == Entry(r.first + j - 1);
    forall k: nat | InRun(r, k) ensures Entry(k) in items {
      assert items[k - r.first + 1] == Entry(k);
    }
  }

  lemma {:induction false} ItemsOfFacts(es: Entries, rs: seq<Subsection>)
    requires forall j :: 0 <= j < |rs| ==> rs[j].first + rs[j].count <= |es|
    ensures ItemsInRange(es, ItemsOf(rs))
    ensures forall k: nat :: Entry(k) in ItemsOf(rs) <==> exists j :: 0 <= j < |rs| && InRun(rs[j], k)
  {
    if rs != [] {
      var init := rs[..|rs| - 1];
      var last := rs[|rs| - 1];
      ItemsOfFacts(es, init);
      SubsectionEntries(last);
      var items := ItemsOf(rs);
      var a, b := ItemsOf(init), SubsectionItems(last);
      assert items == a + b;
      forall j | 0 <= j < |items| && items[j].Entry? ensures items[j].id < |es| {
        if j >= |a| {
          assert items[j] == b[j - |a|];
        }
      }
      forall k: nat ensures Entry(k) in items <==> exists j :: 0 <= j < |rs| && InRun(rs[j], k) {
        if exists j :: 0 <= j < |init| && InRun(init[j], k) {
          var j :| 0 <= j < |init| && InRun(init[j], k);
          assert rs[j] == init[j];
        }
        if exists j :: 0 <= j < |rs| && InRun(rs[j], k) {
          var j :| 0 <= j < |rs| && InRun(rs[j], k);
          if j < |init| { assert init[j] == rs[j]; }
        }
      }
    }
  }

  /** The bytes of the table after the `xref` line, and whether it succeeded. */
  function TableBody(es: Entries): Emitted
  {
    Render(es, TableItems(es))
  }

  /** The keyword line that opens the table. */
  const XrefLine: seq<byte> := [120, 114, 101, 102, 10]

  /** The table fails exactly when some dirty used record was never marked written. */
  lemma TableFailsIffUnwrittenUsed(es: Entries)
    ensures !TableBody(es).ok <==>
      exists k :: 0 <= k < |es| && es[k].dirty && es[k].refType == Used && !es[k].written
  {
    var items := TableItems(es);
    TableEntriesAreDirtyRecords(es);
    RenderOk(es, items);
    if exists k :: 0 <= k < |es| && es[k].dirty && es[k].refType == Used && !es[k].written {
      var k :| 0 <= k < |es| && es[k].dirty && es[k].refType == Used && !es[k].written;
      var j :| 0 <= j < |items| && items[j] == Entry(k);
      assert RenderItem(es, items[j]).None?;
    } else {
      forall j | 0 <= j < |items| ensures RenderItem(es, items[j]).Some? {
        if items[j].Entry? {
          assert Entry(items[j].id) in items;
        }
      }
    }
  }

  // ---------------------------------------------------------------------
  // The xref stream
  // ---------------------------------------------------------------------

  /** Field widths of the stream records: 1, sizeof(long long), sizeof(unsigned long) on LP64. */
  const TypeSize: nat := 1
  const LocationSize: nat := 8
  const GenerationSize: nat := 8

  /** One stream record: the type, then the offset or free pointer, then the generation, each big-endian. */
  function RecordBytes(kind: int, field: int, generation: int): seq<byte>
  {
    BigEndian(kind, TypeSize) + BigEndian(field, LocationSize) + BigEndian(generation, GenerationSize)
  }

  /** The record of one dirty record; `None` for a used record never written. */
  function StreamRecord(es: Entries, i: nat): Option<seq<byte>>
    requires i < |es|
  {
    var e := es[i];
    if e.refType == Used then
      if e.written then Some(RecordBytes(1, e.position, e.generation)) else None
    else Some(RecordBytes(0, FreePointer(es, i), e.generation))
  }

  /** The records of the dirty records below `i`, in order, stopping at the first failure. */
  function StreamRecords(es: Entries, i: nat): Emitted
    requires i <= |es|
  {
    if i == 0 then Emitted([], true)
    else
      var prev := StreamRecords(es, i - 1);
      if !prev.ok || !es[i - 1].dirty then prev
      else match StreamRecord(es, i - 1)
        case None => Emitted(prev.bytes, false)
        case Some(b) => Emitted(prev.bytes + b, true)
  }

  /** Every record is 17 bytes, so on success the stream holds 17 bytes per dirty record. */
  lemma {:induction false} StreamRecordsLength(es: Entries, i: nat)
    requires i <= |es|
    requires StreamRecords(es, i).ok
    ensures |StreamRecords(es, i).bytes| == 17 * |set k | 0 <= k < i && es[k].dirty|
  {
    if i > 0 {
      var prev := StreamRecords(es, i - 1);
      assert prev.ok;
      StreamRecordsLength(es, i - 1);
      var before := set k | 0 <= k < i - 1 && es[k].dirty;
      var now := set k | 0 <= k < i && es[k].dirty;
      if es[i - 1].dirty {
        assert now == before + {i - 1};
        assert |now| == |before| + 1;
      } else {
        assert now == before;
      }
    }
  }

  /** The stream fails exactly when some dirty used record was never marked written. */
  lemma {:induction false} StreamFailsIffUnwrittenUsed(es: Entries, i: nat)
    requires i <= |es|
    ensures !StreamRecords(es, i).ok <==>
      exists k :: 0 <= k < i && es[k].dirty && es[k].refType == Used && !es[k].written
  {
    if i > 0 {
      StreamFailsIffUnwrittenUsed(es, i - 1);
      var prev := StreamRecords(es, i - 1);
      var e := es[i - 1];
      if prev.ok && e.dirty {
        if e.refType == Used && !e.written {
          assert StreamRecord(es, i - 1).None?;
          assert !StreamRecords(es, i).ok;
        } else {
          assert StreamRecord(es, i - 1).Some?;
          assert StreamRecords(es, i).ok;
        }
      }
    }
  }
}
