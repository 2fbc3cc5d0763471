/**
  Interrupting a merge and running it again, through every gate the second run meets.
*/
module MergeRetry {
  import opened Common
  import opened Changesets
  import opened MergePlan
  import opened MergeProperties
  import opened ChangeRequests

  /** The graph after the first k items of an admitted merge. */
  function GraphAfter(g: Graph, items: seq<ChangeItem>, k: nat): Graph
    requires ValidChangeset(items) && k <= |items|
  {
    WriteAllSucceeds(g, items, k);
    WriteAll(g, items[..k]).value
  }

  /** One guarded write of an entity that did not move since it was read. */
  lemma ContentAfterOne(start: Graph, now: Graph, item: ChangeItem)
    requires ValidItem(item) && Lookup(now, item.orbId) == Lookup(start, item.orbId)
    ensures WriteItem(now, item, TargetOf(start, item.orbId)).Some?
    ensures Content(WriteItem(now, item, TargetOf(start, item.orbId)).value) == SimulateItem(Content(now), item)
  {
    var after := WriteItem(now, item, TargetOf(start, item.orbId)).value;
    assert FieldsOf(Content(now), item.orbId) == if item.orbId in now then now[item.orbId].fields else map[];
    if !item.op.Delete? && item.orbId !in now {
      assert map[] + item.sets == Write(map[], item);
    }
    assert Content(after) == SimulateItem(Content(now), item);
  }

  /**
    The write-time guard, whoever wrote since the targets were read: a write is refused
    exactly when its target was there and is not there any more, or has another version. What
    was not there is written over, and its deletion is done already.
  */
  lemma GuardRefusesIff(read: Graph, now: Graph, item: ChangeItem)
    ensures WriteItem(now, item, TargetOf(read, item.orbId)).None?
       <==> item.orbId in read && VersionIn(now, item.orbId) != VersionIn(read, item.orbId)
    ensures item.op.Delete? && item.orbId !in read ==> WriteItem(now, item, TargetOf(read, item.orbId)) == Some(now)
    ensures forall id | WriteItem(now, item, TargetOf(read, item.orbId)).Some? && id != item.orbId ::
      Lookup(WriteItem(now, item, TargetOf(read, item.orbId)).value, id) == Lookup(now, id)
  {
  }

  /**
    What a write that is not refused leaves of its entity, whoever wrote in between: an entity
    that was read gets its sets and loses its clears, one version up; one that was not there
    at the read gets its sets over whatever is there now, at version 1.
  */
  lemma WhatAWriteLeaves(read: Graph, now: Graph, item: ChangeItem, p: Pred)
    requires !item.op.Delete? && item.clears !! item.sets.Keys
    requires WriteItem(now, item, TargetOf(read, item.orbId)).Some?
    ensures var id := item.orbId;
            var after := WriteItem(now, item, TargetOf(read, id)).value;
            && id in after
            && after[id].version == (if id in read then read[id].version + 1 else 1)
            && Lookup(after[id].fields, p)
               == if p in item.sets then Some(item.sets[p])
                  else if p in item.clears && id in read then None
                  else if id in now then Lookup(now[id].fields, p)
                  else None
  {
  }

  /** Writing items is, on content, what the preview simulates for them. */
  lemma {:induction false} ContentAfter(g: Graph, items: seq<ChangeItem>, k: nat)
    requires ValidChangeset(items) && k <= |items|
    ensures Content(GraphAfter(g, items, k)) == Simulate(Content(g), items[..k])
  {
    if k > 0 {
      ContentAfter(g, items, k - 1);
      WriteAllSucceeds(g, items, k - 1);
      assert items[..k][..k - 1] == items[..k - 1];
      assert items[..k][k - 1] == items[k - 1];
      var item, now := items[k - 1], GraphAfter(g, items, k - 1);
      assert Lookup(now, item.orbId) == Lookup(g, item.orbId) by {
        assert !Mentions(items[..k - 1], item.orbId);
      }
      ContentAfterOne(g, now, item);
      assert GraphAfter(g, items, k) == WriteItem(now, item, TargetOf(g, item.orbId)).value;
    }
  }

  /** The version an applied item leaves behind; every update moves it, a create starts at 1. */
  function VersionAfter(g: Graph, item: ChangeItem): Option<nat> {
    if item.op.Delete? then None
    else Some(if item.orbId in g then g[item.orbId].version + 1 else 1)
  }

  function VersionIn(g: Graph, id: OrbId): Option<nat> {
    if id in g then Some(g[id].version) else None
  }

  /** An applied entity moved as its item says; an entity not applied did not move. */
  lemma {:induction false} VersionsAfter(g: Graph, items: seq<ChangeItem>, k: nat)
    requires ValidChangeset(items) && k <= |items|
    ensures forall j | 0 <= j < k :: VersionIn(GraphAfter(g, items, k), items[j].orbId) == VersionAfter(g, items[j])
    ensures forall id | id !in IdsOf(items[..k]) :: VersionIn(GraphAfter(g, items, k), id) == VersionIn(g, id)
  {
    WriteAllSucceeds(g, items, k);
    forall id | id !in IdsOf(items[..k])
      ensures Lookup(GraphAfter(g, items, k), id) == Lookup(g, id)
    {
      assert !Mentions(items[..k], id);
    }
    if k > 0 {
      VersionsAfter(g, items, k - 1);
      WriteAllSucceeds(g, items, k - 1);
      assert items[..k][..k - 1] == items[..k - 1];
      assert !Mentions(items[..k - 1], items[k - 1].orbId);
    }
  }

  /**
    An admitted merge that no write fails ends, on the graph itself, in the merged content;
    every applied version moved.
  */
  lemma AdmittedMergeReachesMergedContent(row: Row, g: Graph, required: nat)
    requires ValidRow(row) && Gate(row, g, required, true).Done?
    ensures var items := MergeItems(Content(g), row.baseValues, row.changes);
            && ValidChangeset(items)
            && Content(GraphAfter(g, items, |items|)) == MergeProperties.Merged(Content(g), row.baseValues, row.changes)
            && forall j | 0 <= j < |items| ::
              VersionIn(GraphAfter(g, items, |items|), items[j].orbId) == VersionAfter(g, items[j])
  {
    var items := MergeItems(Content(g), row.baseValues, row.changes);
    MergeItemsValid(Content(g), row.baseValues, row.changes);
    ContentAfter(g, items, |items|);
    VersionsAfter(g, items, |items|);
    assert items[..|items|] == items;
  }

  // ---- The retry's gates ----

  /** The row and graph a merge leaves when it stops before its end. */
  function Interrupted(row: Row, g: Graph, stop: Stop): (Row, Graph)
    requires ValidRow(row)
    requires stop.count <= |MergeItems(Content(g), row.baseValues, row.changes)|
  {
    var items := MergeItems(Content(g), row.baseValues, row.changes);
    MergeItemsValid(Content(g), row.baseValues, row.changes);
    var g' := GraphAfter(g, items, stop.Landed(items));
    (LeftRow(row, g, g', items, stop), g')
  }

  /** Applying it removes an entity the base was captured with. */
  predicate RemovesBaseEntity(row: Row, item: ChangeItem) {
    item.op.Delete? && item.orbId in row.basePresent
  }

  /** Applying it moves an entity past the version its author gave. */
  predicate OutdatesItself(item: ChangeItem) {
    item.version.Some? && !item.op.Delete?
  }

  /** Applying it leaves the graph as it is. */
  predicate Inert(g: Graph, item: ChangeItem) {
    item.op.Delete? && item.orbId !in g
  }

  /** None of the items that landed moved anything. */
  predicate NothingMoved(row: Row, g: Graph, stop: Stop) {
    var items := MergeItems(Content(g), row.baseValues, row.changes);
    forall j | 0 <= j < stop.Landed(items) :: Inert(g, items[j])
  }

  /**
    The base follows what was applied: an item failed, it did not land after all, and the
    scope was read again and the base updated.
  */
  predicate BaseFollows(row: Row, g: Graph, stop: Stop) {
    var items := MergeItems(Content(g), row.baseValues, row.changes);
    && stop.count < |items| && (stop.landed ==> Inert(g, items[stop.count]))
    && !stop.carry.Nothing?
  }

  /** A write moves the versions of a scope that holds its entity unless it is inert. */
  lemma MovedIff(row: Row, g: Graph, n: nat)
    requires ValidRow(row) && n <= |MergeItems(Content(g), row.baseValues, row.changes)|
    ensures var items := MergeItems(Content(g), row.baseValues, row.changes);
            && ValidChangeset(items)
            && forall id :: id in MovedIds(VersionsOf(g, row.scope), VersionsOf(GraphAfter(g, items, n), row.scope))
                 <==> exists j :: 0 <= j < n && items[j].orbId == id && !Inert(g, items[j])
  {
    var items := MergeItems(Content(g), row.baseValues, row.changes);
    MergeItemsValid(Content(g), row.baseValues, row.changes);
    VersionsAfter(g, items, n);
    var g' := GraphAfter(g, items, n);
    var before, after := VersionsOf(g, row.scope), VersionsOf(g', row.scope);
    forall id | id in MovedIds(before, after)
      ensures exists j :: 0 <= j < n && items[j].orbId == id && !Inert(g, items[j])
    {
      assert VersionIn(g', id) != VersionIn(g, id);
      assert id in IdsOf(items[..n]);
      var j :| 0 <= j < n && items[..n][j].orbId == id;
      assert VersionIn(g', items[j].orbId) == VersionAfter(g, items[j]);
    }
    forall j | 0 <= j < n && !Inert(g, items[j])
      ensures items[j].orbId in MovedIds(before, after)
    {
      var i := PlannedFrom(Content(g), row.baseValues, row.changes, j);
      assert items[j].orbId in row.scope;
      assert VersionIn(g', items[j].orbId) == VersionAfter(g, items[j]);
      assert Lookup(before, items[j].orbId) != Lookup(after, items[j].orbId);
    }
  }

  /** Vectors without a moved entity are the same. */
  lemma SameVersions(before: Versions, after: Versions)
    ensures before == after <==> MovedIds(before, after) == {}
  {
    if MovedIds(before, after) == {} {
      forall id
        ensures id in before <==> id in after
        ensures id in before ==> before[id] == after[id]
      {
        assert Lookup(before, id) == Lookup(after, id) by {
          assert id !in MovedIds(before, after);
        }
      }
    }
  }

  /** Whether the reviewed scope moved, and whether all that moved was applied, item by item. */
  lemma WhatMoved(row: Row, g: Graph, stop: Stop)
    requires ValidRow(row) && stop.count <= |MergeItems(Content(g), row.baseValues, row.changes)|
    ensures var items := MergeItems(Content(g), row.baseValues, row.changes);
            var before := VersionsOf(g, row.scope);
            var after := VersionsOf(Interrupted(row, g, stop).1, row.scope);
            && (before == after <==> NothingMoved(row, g, stop))
            && (stop.count < |items| ==>
                  (MovedIds(before, after) <= IdsOf(items[..stop.count])
                   <==> (stop.landed ==> Inert(g, items[stop.count]))))
  {
    var items := MergeItems(Content(g), row.baseValues, row.changes);
    var n, k := stop.Landed(items), stop.count;
    MovedIff(row, g, n);
    var before, after := VersionsOf(g, row.scope), VersionsOf(GraphAfter(g, items, n), row.scope);
    SameVersions(before, after);
    if j :| 0 <= j < n && !Inert(g, items[j]) {
      assert items[j].orbId in MovedIds(before, after);
    }
    if k < |items| {
      if stop.landed && !Inert(g, items[k]) {
        assert items[k].orbId in MovedIds(before, after);
        assert items[k].orbId !in IdsOf(items[..k]);
      } else {
        forall id | id in MovedIds(before, after)
          ensures id in IdsOf(items[..k])
        {
          var j :| 0 <= j < n && items[j].orbId == id && !Inert(g, items[j]);
          assert items[..k][j].orbId == id;
        }
      }
    }
  }

  /** After an interrupted merge the scope reads as unchanged exactly when nothing moved or the base follows. */
  lemma InterruptedScopeMovedIff(row: Row, g: Graph, stop: Stop)
    requires ValidRow(row) && stop.count <= |MergeItems(Content(g), row.baseValues, row.changes)|
    requires !SubtreeChanged(row, g)
    ensures var (row', g') := Interrupted(row, g, stop);
            !SubtreeChanged(row', g') <==> NothingMoved(row, g, stop) || BaseFollows(row, g, stop)
  {
    WhatMoved(row, g, stop);
    var items := MergeItems(Content(g), row.baseValues, row.changes);
    var after := VersionsOf(Interrupted(row, g, stop).1, row.scope);
    if stop.count < |items| {
      RebasedIff(row, row.baseVersions, after, IdsOf(items[..stop.count]), stop.carry);
    }
  }

  lemma RebasedIff(row: Row, before: Versions, after: Versions, applied: set<OrbId>, carry: Carry)
    requires row.baseVersions == before
    ensures Rebase(row, before, after, applied, carry).scope == row.scope
    ensures Rebase(row, before, after, applied, carry).baseVersions == after
       <==> before == after || (MovedIds(before, after) <= applied && !carry.Nothing?)
  {
  }

  /**
    An approval that counted before an interrupted merge still does exactly when nothing
    moved, or the base follows and the approvals were updated too.
  */
  lemma InterruptedApprovalSurvivesIff(row: Row, g: Graph, stop: Stop, a: Actor)
    requires ValidRow(row) && stop.count <= |MergeItems(Content(g), row.baseValues, row.changes)|
    requires row.status.Open? && !SubtreeChanged(row, g) && a in CurrentApprovers(row, g)
    ensures var (row', g') := Interrupted(row, g, stop);
            a in CurrentApprovers(row', g')
            <==> NothingMoved(row, g, stop) || (BaseFollows(row, g, stop) && stop.carry.BaseAndApprovals?)
  {
    WhatMoved(row, g, stop);
  }

  /**
    Only the base and the approvals' hashes can differ afterwards, so what was missing or
    stale is read off the graph.
  */
  lemma LeftRowKeeps(row: Row, g: Graph, stop: Stop)
    requires ValidRow(row) && stop.count <= |MergeItems(Content(g), row.baseValues, row.changes)|
    ensures var (row', g') := Interrupted(row, g, stop);
            && row' == row.(baseVersions := row'.baseVersions, approvals := row'.approvals)
            && Missing(row', g') == Missing(row, g')
            && (Stale(row', g') <==> Stale(row, g'))
  {
  }

  /** Enough people count for the second run. */
  lemma ApprovedOnRetry(row: Row, g: Graph, required: nat, stop: Stop)
    requires ValidRow(row) && stop.count <= |MergeItems(Content(g), row.baseValues, row.changes)|
    requires row.status.Open? && !SubtreeChanged(row, g) && required <= |CurrentApprovers(row, g)|
    ensures var (row', g') := Interrupted(row, g, stop);
            && (NothingMoved(row, g, stop) ==> required <= |CurrentApprovers(row', g')|)
            && (BaseFollows(row, g, stop) && stop.carry.BaseAndApprovals? ==> required <= |CurrentApprovers(row', g')|)
            && (stop.carry.BaseOnly? ==> CurrentApprovers(row', g') == CurrentApprovers(row, g'))
  {
    var (row', g') := Interrupted(row, g, stop);
    if NothingMoved(row, g, stop) || (BaseFollows(row, g, stop) && stop.carry.BaseAndApprovals?) {
      forall a | a in CurrentApprovers(row, g)
        ensures a in CurrentApprovers(row', g')
      {
        InterruptedApprovalSurvivesIff(row, g, stop, a);
      }
      SubsetSize(CurrentApprovers(row, g), CurrentApprovers(row', g'));
    }
    if stop.carry.BaseOnly? {
      assert row'.approvals == row.approvals && row'.revision == row.revision && row'.status == row.status;
      assert forall a | a in row.approvals ::
        Counts(row', VersionsOf(g', row.scope), a) <==> Counts(row, VersionsOf(g', row.scope), a);
    }
  }

  lemma {:induction false} SubsetSize<T>(a: set<T>, b: set<T>)
    requires a <= b
    ensures |a| <= |b|
  {
    assert b == a + (b - a);
    assert |a + (b - a)| == |a| + |b - a|;
  }

  /**
    The exact answer the second run gets. It is refused for good when a landed delete removed
    a base entity; refused until somebody approves again when the graph moved and the base
    did not follow; refused until the author rebases when a landed item carried a version;
    short of approvals when the base moved without them; and admitted otherwise.
  */
  lemma RetryGate(row: Row, g: Graph, required: nat, stop: Stop)
    requires ValidRow(row) && Gate(row, g, required, true).Done?
    requires stop.count <= |MergeItems(Content(g), row.baseValues, row.changes)|
    ensures var items := MergeItems(Content(g), row.baseValues, row.changes);
            var n := stop.Landed(items);
            var (row', g') := Interrupted(row, g, stop);
            Gate(row', g', required, true)
            == if exists j :: 0 <= j < n && RemovesBaseEntity(row, items[j]) then TargetMissing
               else if !NothingMoved(row, g, stop) && !BaseFollows(row, g, stop) then MvccConflict
               else if exists j :: 0 <= j < n && OutdatesItself(items[j]) then MvccConflict
               else if stop.carry.BaseOnly? && |CurrentApprovers(row, g')| < required then NotApproved
               else Done
  {
    var items := MergeItems(Content(g), row.baseValues, row.changes);
    var (row', g') := Interrupted(row, g, stop);
    MergeItemsValid(Content(g), row.baseValues, row.changes);
    LeftRowKeeps(row, g, stop);
    InterruptedScopeMovedIff(row, g, stop);
    ApprovedOnRetry(row, g, required, stop);
    MissingOnRetry(row, g, stop.Landed(items));
    StaleOnRetry(row, g, stop.Landed(items));
    InterruptionKeepsTheEnd(row, g, stop);
  }

  lemma MissingOnRetry(row: Row, g: Graph, n: nat)
    requires ValidRow(row) && Missing(row, g) == {}
    requires n <= |MergeItems(Content(g), row.baseValues, row.changes)|
    ensures var items := MergeItems(Content(g), row.baseValues, row.changes);
            && ValidChangeset(items)
            && (Missing(row, GraphAfter(g, items, n)) != {}
                <==> exists j :: 0 <= j < n && RemovesBaseEntity(row, items[j]))
  {
    var items := MergeItems(Content(g), row.baseValues, row.changes);
    MergeItemsValid(Content(g), row.baseValues, row.changes);
    var g' := GraphAfter(g, items, n);
    VersionsAfter(g, items, n);
    if id :| id in Missing(row, g') {
      assert id !in Missing(row, g);
      assert VersionIn(g, id).Some? && VersionIn(g', id).None?;
      assert id in IdsOf(items[..n]);
      var j :| 0 <= j < n && items[..n][j].orbId == id;
      assert VersionIn(g', id) == VersionAfter(g, items[j]);
      assert RemovesBaseEntity(row, items[j]);
    }
    if j :| 0 <= j < n && RemovesBaseEntity(row, items[j]) {
      assert VersionIn(g', items[j].orbId) == None;
      assert items[j].orbId in Missing(row, g');
    }
  }

  /** The planned item of an entity carries its changeset item's version and operation. */
  lemma PlannedFrom(snap: Snapshot, base: BaseValues, cs: seq<ChangeItem>, j: nat) returns (i: nat)
    requires ValidChangeset(cs) && j < |MergeItems(snap, base, cs)|
    ensures i < |cs| && cs[i].orbId == MergeItems(snap, base, cs)[j].orbId
    ensures cs[i].version == MergeItems(snap, base, cs)[j].version
    ensures cs[i].op == MergeItems(snap, base, cs)[j].op
  {
    if base == map[] {
      i := j;
    } else {
      PlanItemsComeFrom(snap, base, cs);
      i :| 0 <= i < |cs| && Plan(snap, base, cs)[j] == Narrow(snap, base, cs[i]);
    }
  }

  lemma StaleOnRetry(row: Row, g: Graph, n: nat)
    requires ValidRow(row) && !Stale(row, g) && Missing(row, g) == {}
    requires n <= |MergeItems(Content(g), row.baseValues, row.changes)|
    ensures var items := MergeItems(Content(g), row.baseValues, row.changes);
            && ValidChangeset(items)
            && (Stale(row, GraphAfter(g, items, n)) <==> exists j :: 0 <= j < n && OutdatesItself(items[j]))
  {
    var items := MergeItems(Content(g), row.baseValues, row.changes);
    MergeItemsValid(Content(g), row.baseValues, row.changes);
    var g' := GraphAfter(g, items, n);
    VersionsAfter(g, items, n);
    var now, later := VersionsOf(g, row.scope), VersionsOf(g', row.scope);
    if Stale(row, g') {
      var i :| 0 <= i < |row.changes| && ItemStale(later, row.changes[i]);
      assert !ItemStale(now, row.changes[i]);
      var id := row.changes[i].orbId;
      assert id in row.basePresent && id !in Missing(row, g);
      assert VersionIn(g, id) != VersionIn(g', id);
      assert id in IdsOf(items[..n]);
      var j :| 0 <= j < n && items[..n][j].orbId == id;
      var i' := PlannedFrom(Content(g), row.baseValues, row.changes, j);
      assert i' == i;
      assert OutdatesItself(items[j]);
    }
    if j :| 0 <= j < n && OutdatesItself(items[j]) {
      var i := PlannedFrom(Content(g), row.baseValues, row.changes, j);
      var item := row.changes[i];
      assert item.orbId in row.basePresent && item.orbId !in Missing(row, g);
      assert !ItemStale(now, item);
      assert VersionIn(g', item.orbId) == VersionAfter(g, items[j]);
      assert ItemStale(later, item);
    }
  }

  /** The item, once applied, would not by itself keep a later run from being admitted. */
  predicate Harmless(row: Row, item: ChangeItem) {
    !RemovesBaseEntity(row, item) && !OutdatesItself(item)
  }

  /**
    What a stopped merge must have been like to be run again: nothing moved; or the base
    follows, every item that landed is harmless, and the approvals were carried along or
    enough were cast for exactly these versions anyway.
  */
  predicate Retriable(row: Row, g: Graph, required: nat, stop: Stop)
    requires ValidRow(row)
    requires stop.count <= |MergeItems(Content(g), row.baseValues, row.changes)|
  {
    var items := MergeItems(Content(g), row.baseValues, row.changes);
    || NothingMoved(row, g, stop)
    || (&& BaseFollows(row, g, stop)
        && (forall j | 0 <= j < stop.Landed(items) :: Harmless(row, items[j]))
        && (stop.carry.BaseAndApprovals? || required <= |CurrentApprovers(row, Interrupted(row, g, stop).1)|))
  }

  lemma InertIsHarmless(row: Row, g: Graph, stop: Stop)
    requires Missing(row, g) == {} && row.basePresent <= row.scope && NothingMoved(row, g, stop)
    ensures var items := MergeItems(Content(g), row.baseValues, row.changes);
            forall j | 0 <= j < stop.Landed(items) :: Harmless(row, items[j])
  {
    var items := MergeItems(Content(g), row.baseValues, row.changes);
    forall j | 0 <= j < stop.Landed(items)
      ensures Harmless(row, items[j])
    {
      assert Inert(g, items[j]) && items[j].orbId !in Missing(row, g);
    }
  }

  /** Two requests whose merges would end in the same content. */
  ghost predicate SameEnd(row': Row, g': Graph, row: Row, g: Graph) {
    MergeProperties.Merged(Content(g'), row'.baseValues, row'.changes)
    == MergeProperties.Merged(Content(g), row.baseValues, row.changes)
  }

  /** Whatever the second run is answered, it would end where the first one would have. */
  lemma InterruptionKeepsTheEnd(row: Row, g: Graph, stop: Stop)
    requires ValidRow(row) && !Refused(Content(g), row.baseValues, row.changes)
    requires stop.count <= |MergeItems(Content(g), row.baseValues, row.changes)|
    ensures var (row', g') := Interrupted(row, g, stop);
            !Refused(Content(g'), row'.baseValues, row'.changes) && SameEnd(row', g', row, g)
  {
    var items := MergeItems(Content(g), row.baseValues, row.changes);
    MergeItemsValid(Content(g), row.baseValues, row.changes);
    LeftRowKeeps(row, g, stop);
    ContentAfter(g, items, stop.Landed(items));
    RetryCompletesTheMerge(Content(g), row.baseValues, row.changes, stop.Landed(items));
  }

  lemma SameApproversWhenNothingMoved(row: Row, g: Graph, stop: Stop)
    requires ValidRow(row) && NothingMoved(row, g, stop)
    requires stop.count <= |MergeItems(Content(g), row.baseValues, row.changes)|
    ensures CurrentApprovers(row, Interrupted(row, g, stop).1) == CurrentApprovers(row, g)
  {
    WhatMoved(row, g, stop);
    assert VersionsOf(Interrupted(row, g, stop).1, row.scope) == VersionsOf(g, row.scope);
  }

  /**
    The promise that a merge that stopped can simply be run again: exactly when it is
    retriable; and the second run would in any case write what ends in the content the
    uninterrupted one would have reached.
  */
  lemma RetryPromiseHoldsIff(row: Row, g: Graph, required: nat, stop: Stop)
    requires ValidRow(row) && Gate(row, g, required, true).Done?
    requires stop.count <= |MergeItems(Content(g), row.baseValues, row.changes)|
    ensures var (row', g') := Interrupted(row, g, stop);
            && (Gate(row', g', required, true).Done? <==> Retriable(row, g, required, stop))
            && SameEnd(row', g', row, g)
  {
    RetryGate(row, g, required, stop);
    InterruptionKeepsTheEnd(row, g, stop);
    if NothingMoved(row, g, stop) {
      InertIsHarmless(row, g, stop);
      SameApproversWhenNothingMoved(row, g, stop);
    }
  }

  // ---- Any number of interruptions ----

  /** Each run stops within the items it had left. */
  predicate Fits(row: Row, g: Graph, stops: seq<Stop>)
    requires ValidRow(row)
    decreases |stops|
  {
    stops == []
    || (&& stops[0].count <= |MergeItems(Content(g), row.baseValues, row.changes)|
        && var (row', g') := Interrupted(row, g, stops[0]); Fits(row', g', stops[1..]))
  }

  /** The row and graph after all the stopped runs. */
  function AfterInterruptions(row: Row, g: Graph, stops: seq<Stop>): (Row, Graph)
    requires ValidRow(row) && Fits(row, g, stops)
    decreases |stops|
  {
    if stops == [] then (row, g)
    else var (row', g') := Interrupted(row, g, stops[0]); AfterInterruptions(row', g', stops[1..])
  }

  /** One more stop is a stop of what the others left. */
  lemma {:induction false} OneMoreInterruption(row: Row, g: Graph, stops: seq<Stop>, last: Stop)
    requires ValidRow(row) && Fits(row, g, stops)
    ensures var (row', g') := AfterInterruptions(row, g, stops);
            ValidRow(row')
            && (last.count <= |MergeItems(Content(g'), row'.baseValues, row'.changes)| ==>
                  && Fits(row, g, stops + [last])
                  && AfterInterruptions(row, g, stops + [last]) == Interrupted(row', g', last))
    decreases |stops|
  {
    if stops == [] {
      assert (stops + [last])[1..] == [];
    } else {
      var (row', g') := Interrupted(row, g, stops[0]);
      assert (stops + [last])[0] == stops[0] && (stops + [last])[1..] == stops[1..] + [last];
      OneMoreInterruption(row', g', stops[1..], last);
    }
  }

  /** Every stopped run was admitted, and so is the run after the last of them. */
  ghost predicate AllAdmitted(row: Row, g: Graph, required: nat, stops: seq<Stop>)
    requires ValidRow(row) && Fits(row, g, stops)
    decreases |stops|
  {
    && Gate(row, g, required, true).Done?
    && (stops != [] ==> var (row', g') := Interrupted(row, g, stops[0]); AllAdmitted(row', g', required, stops[1..]))
  }

  /** Every run stopped in a way that can be run again. */
  predicate AllRetriable(row: Row, g: Graph, required: nat, stops: seq<Stop>)
    requires ValidRow(row) && Fits(row, g, stops)
    decreases |stops|
  {
    stops == []
    || (&& Retriable(row, g, required, stops[0])
        && var (row', g') := Interrupted(row, g, stops[0]); AllRetriable(row', g', required, stops[1..]))
  }

  /**
    The promise over any sequence of stopped runs, each of which may rebase again: all of
    them and the run after the last are admitted exactly when each stopped in a way that
    can be run again; and then that run ends in the content the first would have reached.
  */
  lemma {:induction false} RepeatedRetriesHoldIff(row: Row, g: Graph, required: nat, stops: seq<Stop>)
    requires ValidRow(row) && Gate(row, g, required, true).Done? && Fits(row, g, stops)
    ensures AllAdmitted(row, g, required, stops) <==> AllRetriable(row, g, required, stops)
    ensures AllAdmitted(row, g, required, stops) ==>
      (var (row', g') := AfterInterruptions(row, g, stops);
       Gate(row', g', required, true).Done? && SameEnd(row', g', row, g))
    decreases |stops|
  {
    if stops != [] {
      RetryPromiseHoldsIff(row, g, required, stops[0]);
      var (row', g') := Interrupted(row, g, stops[0]);
      if Gate(row', g', required, true).Done? {
        RepeatedRetriesHoldIff(row', g', required, stops[1..]);
      }
    }
  }

  // ---- Failing cases ----

  function TwoUpdates(x: OrbId, y: OrbId, f: Pred, version: Option<nat>): seq<ChangeItem> {
    [ChangeItem(x, Update, map[f := Scalar("new")], {}, version),
     ChangeItem(y, Update, map[f := Scalar("new")], {}, None)]
  }

  function TwoEntities(x: OrbId, y: OrbId): Graph {
    map[x := Entity(3, map[]), y := Entity(5, map[])]
  }

  function TwoUpdatesRow(x: OrbId, y: OrbId, f: Pred, version: Option<nat>, author: Actor): Row {
    Row(Open, "", author, TwoUpdates(x, y, f, version), {x, y}, {x, y}, map[x := 3, y := 5], map[], 1, map[], [])
  }

  lemma TwoUpdatesAdmitted(x: OrbId, y: OrbId, f: Pred, version: Option<nat>, author: Actor)
    requires x != y && (version.Some? ==> version.value == 3)
    ensures var g, row := TwoEntities(x, y), TwoUpdatesRow(x, y, f, version, author);
            ValidRow(row) && Gate(row, g, 0, true).Done?
            && MergeItems(Content(g), row.baseValues, row.changes) == TwoUpdates(x, y, f, version)
  {
    var g, row := TwoEntities(x, y), TwoUpdatesRow(x, y, f, version, author);
    assert f in row.changes[0].sets && f in row.changes[1].sets;
    assert VersionsOf(g, row.scope) == row.baseVersions;
  }

  /** One versioned item applied, the next fails, everything else works, and nobody else wrote. */
  lemma VersionedItemBlocksItsOwnRetry(x: OrbId, y: OrbId, f: Pred, author: Actor)
    requires x != y
    ensures var g, row := TwoEntities(x, y), TwoUpdatesRow(x, y, f, Some(3), author);
            && ValidRow(row) && Gate(row, g, 0, true).Done?
            && 1 <= |MergeItems(Content(g), row.baseValues, row.changes)|
            && var (row', g') := Interrupted(row, g, Stop(1, false, BaseAndApprovals));
            Gate(row', g', 0, true).MvccConflict?
  {
    var g, row := TwoEntities(x, y), TwoUpdatesRow(x, y, f, Some(3), author);
    TwoUpdatesAdmitted(x, y, f, Some(3), author);
    assert OutdatesItself(MergeItems(Content(g), row.baseValues, row.changes)[0]);
    RetryGate(row, g, 0, Stop(1, false, BaseAndApprovals));
  }

  /**
    One harmless item applied, the next fails, and the scope cannot be read again: nobody else
    wrote, no policy governs.
  */
  lemma UnreadScopeBlocksTheRetry(x: OrbId, y: OrbId, f: Pred, author: Actor)
    requires x != y
    ensures var g, row := TwoEntities(x, y), TwoUpdatesRow(x, y, f, None, author);
            && ValidRow(row) && Gate(row, g, 0, true).Done?
            && 1 <= |MergeItems(Content(g), row.baseValues, row.changes)|
            && Harmless(row, row.changes[0])
            && var (row', g') := Interrupted(row, g, Stop(1, false, Nothing));
            Gate(row', g', 0, true).MvccConflict?
  {
    var g, row := TwoEntities(x, y), TwoUpdatesRow(x, y, f, None, author);
    TwoUpdatesAdmitted(x, y, f, None, author);
    assert !Inert(g, MergeItems(Content(g), row.baseValues, row.changes)[0]);
    RetryGate(row, g, 0, Stop(1, false, Nothing));
  }

  // ---- What rebasing does and does not notice ----

  /**
    The rule for a partly merged request, whoever else wrote: an approval that counted
    before goes on counting on the graph as it is now exactly when nothing moved, or nothing
    but entities the merge applied and both updates succeeded.
  */
  lemma ApprovalSurvivesIff(row: Row, g: Graph, now: Graph, applied: set<OrbId>, carry: Carry, a: Actor)
    requires row.status.Open? && !SubtreeChanged(row, g) && a in CurrentApprovers(row, g)
    ensures var before, after := VersionsOf(g, row.scope), VersionsOf(now, row.scope);
            var row' := Rebase(row, before, after, applied, carry);
            && (a in CurrentApprovers(row', now)
                <==> before == after || (MovedIds(before, after) <= applied && carry.BaseAndApprovals?))
            && (SubtreeChanged(row', now)
                <==> !(before == after || (MovedIds(before, after) <= applied && !carry.Nothing?)))
  {
    SameVersions(VersionsOf(g, row.scope), VersionsOf(now, row.scope));
  }

  /**
    A foreign write that lands on an entity this merge has already applied is not told
    apart from the merge's own write: the approvals are carried onto it.
  */
  lemma ForeignWriteOnAppliedEntityIsCarried(
    row: Row, before: Versions, ours: Versions, id: OrbId, foreign: nat, applied: set<OrbId>, carry: Carry)
    requires row.baseVersions == before && MovedIds(before, ours) <= applied && id in applied
    requires before != ours[id := foreign]
    ensures Rebase(row, before, ours[id := foreign], applied, carry).baseVersions == ours[id := foreign]
       <==> !carry.Nothing?
  {
    var theirs := ours[id := foreign];
    forall m | m in MovedIds(before, theirs)
      ensures m in applied
    {
      if m != id {
        assert Lookup(theirs, m) == Lookup(ours, m);
        assert m in MovedIds(before, ours);
      }
    }
  }
}
