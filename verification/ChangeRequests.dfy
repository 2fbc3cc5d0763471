/**
  One change request and the graph it proposes to change: the derived state, the steps
  that move it, and the stored row.

  A content or version hash is taken to be injective, so a version vector stands for its
  own hash. The policy's required count is an argument: policies change independently.
*/
module ChangeRequests {
  import opened Common
  import opened Changesets
  import opened MergePlan
  import opened MergeProperties

  type Actor(==, !new)
  type Versions = map<OrbId, nat>

  datatype Entity = Entity(version: nat, fields: Fields)
  type Graph = map<OrbId, Entity>

  datatype Decision = Approve | Reject
  datatype Approval = Approval(decision: Decision, hash: Versions, revision: nat)
  datatype LogEntry = LogEntry(approver: Actor, approval: Approval)
  datatype Status = Open | Rejected | Merged | Closed

  datatype Row = Row(
    status: Status, title: string, author: Actor, changes: seq<ChangeItem>,
    scope: set<OrbId>, basePresent: set<OrbId>, baseVersions: Versions, baseValues: BaseValues,
    revision: nat, approvals: map<Actor, Approval>, log: seq<LogEntry>)

  function Content(g: Graph): Snapshot {
    map id | id in g :: g[id].fields
  }

  function VersionsOf(g: Graph, scope: set<OrbId>): Versions {
    map id | id in scope && id in g :: g[id].version
  }

  /** What creation and amendment guarantee of a stored request. */
  ghost predicate ValidRow(row: Row) {
    && ValidChangeset(row.changes)
    && (forall i | 0 <= i < |row.changes| ::
          && row.changes[i].orbId in row.scope
          && (row.changes[i].version.Some? ==> row.changes[i].orbId in row.basePresent))
    && row.basePresent <= row.scope && row.baseVersions.Keys <= row.scope
  }

  // ---- Derived state ----

  predicate ItemStale(versions: Versions, item: ChangeItem) {
    item.version.Some? && item.orbId in versions && versions[item.orbId] != item.version.value
  }

  predicate AnyStale(versions: Versions, changes: seq<ChangeItem>) {
    exists k :: 0 <= k < |changes| && ItemStale(versions, changes[k])
  }

  /** Some change object's entity has moved since the version the author gave. */
  predicate Stale(row: Row, g: Graph) {
    AnyStale(VersionsOf(g, row.scope), row.changes)
  }

  /** The reviewed scope moved. */
  predicate SubtreeChanged(row: Row, g: Graph) {
    VersionsOf(g, row.scope) != row.baseVersions
  }

  function Missing(row: Row, g: Graph): set<OrbId> {
    set id | id in row.basePresent && id !in VersionsOf(g, row.scope)
  }

  predicate RevisionMatches(approvedAt: nat, row: Row) {
    approvedAt == 0 || approvedAt == row.revision
  }

  /** An approver's row counts: an approval, current unless the request is terminal. */
  predicate Counts(row: Row, versions: Versions, a: Actor)
    requires a in row.approvals
  {
    && row.approvals[a].decision.Approve?
    && (!row.status.Open? || (row.approvals[a].hash == versions && RevisionMatches(row.approvals[a].revision, row)))
  }

  /** The people whose approval counts now. */
  function CurrentApprovers(row: Row, g: Graph): set<Actor> {
    set a | a in row.approvals && Counts(row, VersionsOf(g, row.scope), a)
  }

  /** The effective status reads "approved". */
  predicate IsApproved(row: Row, g: Graph, required: nat) {
    row.status.Open? && |CurrentApprovers(row, g)| >= required
  }

  function AncestorOfItem(snap: Snapshot, item: ChangeItem): Ancestor
    requires item.orbId in snap
  {
    map p | p in item.sets.Keys + item.clears :: Lookup(snap[item.orbId], p)
  }

  /** The ancestor recorded for a changeset. Creates and deletes contribute nothing. */
  function BaseValuesFrom(snap: Snapshot, cs: seq<ChangeItem>): BaseValues {
    if cs == [] then map[]
    else
      var item := cs[|cs| - 1];
      var front := BaseValuesFrom(snap, cs[..|cs| - 1]);
      if item.orbId in snap && !WritesNothing(item) then front[item.orbId := AncestorOfItem(snap, item)] else front
  }

  // ---- Merge ----

  /** What a merge read of an entity before it began writing. */
  datatype Target = Target(exists_: bool, version: nat)

  function TargetOf(g: Graph, id: OrbId): Target {
    if id in g then Target(true, g[id].version) else Target(false, 0)
  }

  /** One guarded write; `None` when the entity is no longer the one that was read. */
  function WriteItem(g: Graph, item: ChangeItem, t: Target): Option<Graph> {
    var id := item.orbId;
    var unmoved := id in g && g[id].version == t.version;
    if item.op.Delete? && !t.exists_ then Some(g)
    else if item.op.Delete? then if unmoved then Some(g - {id}) else None
    else if !t.exists_ then Some(g[id := Entity(1, (if id in g then g[id].fields else map[]) + item.sets)])
    else if unmoved then Some(g[id := Entity(t.version + 1, Write(g[id].fields, item))])
    else None
  }

  /** The graph after the items were written in order, each against the version read in `start`. */
  function WriteAll(start: Graph, items: seq<ChangeItem>): Option<Graph> {
    if items == [] then Some(start)
    else
      var front := WriteAll(start, items[..|items| - 1]);
      var item := items[|items| - 1];
      if front.None? then None else WriteItem(front.value, item, TargetOf(start, item.orbId))
  }

  datatype MergeResult =
    | Done | NotOpen | TargetMissing | NotApproved | MvccConflict | Forbidden | FieldConflict
    | PartlyApplied(count: nat)
    | NotMarked

  /** How far `rebaseOrStale` gets: its reading of the scope, then its two updates, may fail. */
  datatype Carry = Nothing | BaseOnly | BaseAndApprovals

  /**
    Where a merge stops: at the write of this planned item, or, one past the last, at the
    write of the final status; further on means that nothing fails. A write that reports a
    failure may have landed all the same.
  */
  datatype Stop = Stop(count: nat, landed: bool, carry: Carry) {
    /** How many of the items are in the graph afterwards. */
    function Landed(items: seq<ChangeItem>): (n: nat)
      ensures n <= |items|
    {
      if count >= |items| then |items| else if landed then count + 1 else count
    }
  }

  /** The refusals of a merge, in the order the code checks them; `Done` means it may proceed. */
  ghost function Gate(row: Row, g: Graph, required: nat, allowed: bool): MergeResult {
    if !row.status.Open? then NotOpen
    else if Missing(row, g) != {} then TargetMissing
    else if !IsApproved(row, g, required) then
      if Stale(row, g) || SubtreeChanged(row, g) then MvccConflict else NotApproved
    else if !allowed then Forbidden
    else if Stale(row, g) || SubtreeChanged(row, g) then MvccConflict
    else if Refused(Content(g), row.baseValues, row.changes) then FieldConflict
    else Done
  }

  function MovedIds(before: Versions, after: Versions): set<OrbId> {
    set id | id in before.Keys + after.Keys && Lookup(before, id) != Lookup(after, id)
  }

  /** `rebaseOrStale`: carry the approvals when nothing moved but what this merge applied. */
  function Rebase(row: Row, before: Versions, after: Versions, applied: set<OrbId>, carry: Carry): Row {
    if carry.Nothing? || !(MovedIds(before, after) <= applied) || after == row.baseVersions then row
    else if carry.BaseOnly? then row.(baseVersions := after)
    else row.(
      baseVersions := after,
      approvals := map a | a in row.approvals ::
        if row.approvals[a].hash == before then row.approvals[a].(hash := after) else row.approvals[a])
  }

  function IdsOf(items: seq<ChangeItem>): set<OrbId> {
    set i | 0 <= i < |items| :: items[i].orbId
  }

  /** The row an admitted merge leaves behind, once the graph went from `g` to `now`. */
  function LeftRow(row: Row, g: Graph, now: Graph, items: seq<ChangeItem>, stop: Stop): Row {
    if stop.count < |items| then
      Rebase(row, VersionsOf(g, row.scope), VersionsOf(now, row.scope), IdsOf(items[..stop.count]), stop.carry)
    else if stop.count == |items| then row
    else row.(status := Merged)
  }

  // ---- Review and amendment ----

  function AmendedRow(row: Row, g: Graph, title: Option<string>, changes: Option<seq<ChangeItem>>,
                      scope: set<OrbId>, snapshotRead: bool): Row {
    var titled := if title.Some? then row.(title := title.value) else row;
    if changes.Some? then AmendRow(titled, g, changes.value, scope, snapshotRead) else titled
  }

  /** An approval has something left to do once it is recorded. */
  predicate NeedsRebase(row: Row, versions: Versions) {
    row.baseVersions != versions || row.baseValues != map[]
  }

  /**
    A decision replaces the approver's row and is appended to the log. Then a rejection
    closes the request and an approval re-anchors the base. When the read or the update
    that takes fails, the recorded decision stays and nothing else happens.
  */
  function DecideRow(row: Row, g: Graph, actor: Actor, decision: Decision, finished: bool): Row {
    var versions := VersionsOf(g, row.scope);
    var cast := Approval(decision, versions, row.revision);
    var recorded := row.(approvals := row.approvals[actor := cast], log := row.log + [LogEntry(actor, cast)]);
    if !finished then recorded
    else if decision.Reject? then recorded.(status := Rejected)
    else recorded.(
      baseVersions := versions,
      baseValues := if row.baseValues == map[] then map[] else BaseValuesFrom(Content(g), row.changes))
  }

  /** The part of proposal validation that looks at the graph, and the shape rules. */
  ghost predicate Proposable(g: Graph, cs: seq<ChangeItem>) {
    && ValidChangeset(cs)
    && forall i | 0 <= i < |cs| ::
         (cs[i].version.Some? || cs[i].op.Update? ==> cs[i].orbId in g)
  }

  predicate Declares(scope: set<OrbId>, cs: seq<ChangeItem>) {
    forall i | 0 <= i < |cs| :: cs[i].orbId in scope
  }

  /**
    A new changeset re-captures the base over its own scope. The ancestor is replaced only
    when the snapshot was read and the new one is not empty.
  */
  function AmendRow(row: Row, g: Graph, cs: seq<ChangeItem>, scope: set<OrbId>, snapshotRead: bool): Row {
    var versions := VersionsOf(g, scope);
    var captured := BaseValuesFrom(Content(g), cs);
    row.(changes := cs, scope := scope, revision := row.revision + 1,
         baseVersions := versions, basePresent := versions.Keys,
         baseValues := if snapshotRead && captured != map[] then captured else row.baseValues)
  }

  class RequestStore {
    var row: Row
    var graph: Graph

    constructor (row: Row, graph: Graph)
      ensures this.row == row && this.graph == graph
    {
      this.row, this.graph := row, graph;
    }

    /** Everything a merge checks before it writes, and the items it would write. */
    method Admit(required: nat, allowed: bool) returns (r: MergeResult, items: seq<ChangeItem>)
      requires ValidRow(row)
      ensures r == Gate(row, graph, required, allowed)
      ensures r.Done? ==> items == MergeItems(Content(graph), row.baseValues, row.changes)
    {
      items := row.changes;
      if !row.status.Open? { return NotOpen, items; }
      if Missing(row, graph) != {} { return TargetMissing, items; }
      var before := VersionsOf(graph, row.scope);
      var stale := AnyItemStale(before, row.changes);
      var valid := CountApprovers(row, before);
      assert stale == Stale(row, graph) && valid == |CurrentApprovers(row, graph)|;
      var blocked := stale || before != row.baseVersions;
      if valid < required {
        return if blocked then MvccConflict else NotApproved, items;
      }
      if !allowed { return Forbidden, items; }
      if blocked { return MvccConflict, items; }
      if row.baseValues != map[] {
        var planned, conflicts := PlanMerge(Content(graph), row.changes, row.baseValues);
        if conflicts != {} { return FieldConflict, items; }
        items := planned;
      }
      return Done, items;
    }

    /**
      Merge. `stop` says what fails, if anything; `allowed` is the caller's authorization. A
      merge whose last write, of the status, fails has changed the graph and not the row.
    */
    method Merge(required: nat, allowed: bool, stop: Stop) returns (r: MergeResult)
      requires ValidRow(row)
      modifies this
      ensures var gate := Gate(old(row), old(graph), required, allowed);
              var items := MergeItems(Content(old(graph)), old(row).baseValues, old(row).changes);
              if !gate.Done? then r == gate && row == old(row) && graph == old(graph)
              else
                && Some(graph) == WriteAll(old(graph), items[..stop.Landed(items)])
                && row == LeftRow(old(row), old(graph), graph, items, stop)
                && r == if stop.count < |items| then PartlyApplied(stop.count)
                        else if stop.count == |items| then NotMarked
                        else Done
    {
      var before := VersionsOf(graph, row.scope);
      var items;
      r, items := Admit(required, allowed);
      if !r.Done? {
        return;
      }
      MergeItemsValid(Content(graph), row.baseValues, row.changes);
      var count, applied := ApplyItems(items, stop);
      if count == |items| {
        if stop.count == count {
          return NotMarked;
        }
        row := row.(status := Merged);
        return Done;
      }
      row := Rebase(row, before, VersionsOf(graph, row.scope), applied, stop.carry);
      return PartlyApplied(count);
    }

    /**
      Approve or reject. `bypasses` says the caller's role is in the policy's bypass roles;
      `finished` that what follows the recording succeeds. When it does not, an accepted
      decision is recorded and then reports an error.
    */
    method Decide(actor: Actor, bypasses: bool, decision: Decision, finished: bool)
      returns (accepted: bool, ok: bool)
      modifies this`row
      ensures accepted <==> old(row).status.Open? && (old(row).author != actor || bypasses)
      ensures ok <==> (accepted
        && (finished || (decision.Approve? && !NeedsRebase(old(row), VersionsOf(graph, row.scope)))))
      ensures row == if accepted then DecideRow(old(row), graph, actor, decision, finished) else old(row)
      ensures ok ==> row == DecideRow(old(row), graph, actor, decision, true)
    {
      if !row.status.Open? || (row.author == actor && !bypasses) {
        return false, false;
      }
      var current := VersionsOf(graph, row.scope);
      var cast := Approval(decision, current, row.revision);
      row := row.(approvals := row.approvals - {actor});
      row := row.(approvals := row.approvals[actor := cast]);
      row := row.(log := row.log + [LogEntry(actor, cast)]);
      assert row.approvals == old(row).approvals[actor := cast];
      match decision {
        case Reject =>
          if !finished {
            return true, false;
          }
          row := row.(status := Rejected);
        case Approve =>
          if row.baseVersions != current || row.baseValues != map[] {
            if !finished {
              return true, false;
            }
            var anchored := row.(baseVersions := current);
            if row.baseValues != map[] {
              anchored := anchored.(baseValues := BaseValuesFrom(Content(graph), row.changes));
            }
            row := anchored;
          }
      }
      return true, true;
    }

    /** Amend the title, the changeset, or both. `scope` is the new changeset with its subgraphs. */
    method Amend(actor: Actor, bypasses: bool, title: Option<string>, changes: Option<seq<ChangeItem>>,
                 scope: set<OrbId>, proposable: bool, snapshotRead: bool) returns (accepted: bool)
      requires changes.Some? ==> Declares(scope, changes.value) && (proposable ==> Proposable(graph, changes.value))
      modifies this`row
      ensures accepted <==>
        && old(row).status.Open? && (old(row).author == actor || bypasses)
        && (changes.Some? ==> proposable && !AnyStale(VersionsOf(graph, scope), changes.value))
      ensures row == if !accepted then old(row) else AmendedRow(old(row), graph, title, changes, scope, snapshotRead)
    {
      if !row.status.Open? || (row.author != actor && !bypasses) {
        return false;
      }
      var updated := row;
      if title.Some? {
        updated := updated.(title := title.value);
      }
      if changes.Some? {
        if !proposable {
          return false;
        }
        var versions := VersionsOf(graph, scope);
        var moved := AnyItemStale(versions, changes.value);
        if moved {
          return false;
        }
        updated := updated.(changes := changes.value, revision := row.revision + 1, scope := scope);
        updated := updated.(baseVersions := versions, basePresent := versions.Keys);
        if snapshotRead {
          var captured := BaseValuesFrom(Content(graph), changes.value);
          if captured != map[] {
            updated := updated.(baseValues := captured);
          }
        }
      }
      row := updated;
      return true;
    }

    method Close(actor: Actor, bypasses: bool) returns (accepted: bool)
      modifies this`row
      ensures accepted <==> old(row).status.Open? && (old(row).author == actor || bypasses)
      ensures row == if accepted then old(row).(status := Closed) else old(row)
    {
      accepted := row.status.Open? && (row.author == actor || bypasses);
      if accepted {
        row := row.(status := Closed);
      }
    }

    /**
      The apply loop: every item against the target read before the first write, stopping at
      the first failure. What failed is not counted as applied, even when it landed.
    */
    method ApplyItems(items: seq<ChangeItem>, stop: Stop) returns (count: nat, applied: set<OrbId>)
      requires ValidChangeset(items)
      modifies this`graph
      ensures count == (if stop.count < |items| then stop.count else |items|)
      ensures Some(graph) == WriteAll(old(graph), items[..stop.Landed(items)])
      ensures applied == IdsOf(items[..count])
    {
      var start := graph;
      count, applied := 0, {};
      while count < |items|
        invariant count <= |items| && count <= stop.count
        invariant Some(graph) == WriteAll(start, items[..count])
        invariant applied == IdsOf(items[..count])
      {
        var next := WriteItem(graph, items[count], TargetOf(start, items[count].orbId));
        assert items[..count + 1][..count] == items[..count];
        WriteAllSucceeds(start, items, count + 1);
        IdsOfStep(items, count);
        if count == stop.count {
          if stop.landed {
            graph := next.value;
          }
          return;
        }
        graph := next.value;
        applied := applied + {items[count].orbId};
        count := count + 1;
      }
    }
  }

  lemma IdsOfStep(items: seq<ChangeItem>, k: nat)
    requires k < |items|
    ensures IdsOf(items[..k + 1]) == IdsOf(items[..k]) + {items[k].orbId}
  {
    var longer, shorter := items[..k + 1], items[..k];
    assert longer == shorter + [items[k]];
    forall id | id in IdsOf(shorter)
      ensures id in IdsOf(longer)
    {
      var i :| 0 <= i < |shorter| && shorter[i].orbId == id;
      assert longer[i].orbId == id;
    }
    assert longer[k].orbId == items[k].orbId;
  }

  method AnyItemStale(versions: Versions, changes: seq<ChangeItem>) returns (stale: bool)
    ensures stale == AnyStale(versions, changes)
  {
    stale := false;
    for i := 0 to |changes|
      invariant stale <==> exists k :: 0 <= k < i && ItemStale(versions, changes[k])
    {
      stale := stale || ItemStale(versions, changes[i]);
    }
  }

  /** The loop over the approvals. It counts people, because there is one row per approver. */
  method CountApprovers(row: Row, versions: Versions) returns (valid: nat)
    ensures valid == |set a | a in row.approvals && Counts(row, versions, a)|
  {
    valid := 0;
    ghost var counted: set<Actor> := {};
    var todo := row.approvals.Keys;
    while todo != {}
      invariant todo <= row.approvals.Keys
      invariant forall a :: a in counted <==> a in row.approvals && a !in todo && Counts(row, versions, a)
      invariant valid == |counted|
      decreases todo
    {
      var a :| a in todo;
      if Counts(row, versions, a) {
        counted := counted + {a};
        valid := valid + 1;
      }
      todo := todo - {a};
    }
    assert counted == set a | a in row.approvals && Counts(row, versions, a);
  }

  // ---- The items of a merge form a valid changeset, so their guarded writes succeed ----

  lemma {:induction false} PlanItemsComeFrom(snap: Snapshot, base: BaseValues, cs: seq<ChangeItem>)
    requires ValidChangeset(cs)
    ensures ValidChangeset(Plan(snap, base, cs))
    ensures forall j | 0 <= j < |Plan(snap, base, cs)| ::
      exists i :: 0 <= i < |cs| && Plan(snap, base, cs)[j] == Narrow(snap, base, cs[i])
  {
    if cs != [] {
      var front := cs[..|cs| - 1];
      PlanItemsComeFrom(snap, base, front);
      var planned := Plan(snap, base, front);
      forall j | 0 <= j < |planned|
        ensures planned[j].orbId != cs[|cs| - 1].orbId
        ensures exists i :: 0 <= i < |cs| && planned[j] == Narrow(snap, base, cs[i])
      {
        var i :| 0 <= i < |front| && planned[j] == Narrow(snap, base, front[i]);
        assert cs[i] == front[i];
      }
    }
  }

  lemma MergeItemsValid(snap: Snapshot, base: BaseValues, cs: seq<ChangeItem>)
    requires ValidChangeset(cs)
    ensures ValidChangeset(MergeItems(snap, base, cs))
  {
    if base != map[] {
      PlanItemsComeFrom(snap, base, cs);
    }
  }

  /** Without a foreign write every guard holds, and an entity not yet reached is untouched. */
  lemma {:induction false} WriteAllSucceeds(start: Graph, items: seq<ChangeItem>, k: nat)
    requires ValidChangeset(items) && k <= |items|
    ensures WriteAll(start, items[..k]).Some?
    ensures forall id ::
      !Mentions(items[..k], id) ==> Lookup(WriteAll(start, items[..k]).value, id) == Lookup(start, id)
  {
    if k > 0 {
      WriteAllSucceeds(start, items, k - 1);
      assert items[..k][..k - 1] == items[..k - 1];
      assert !Mentions(items[..k - 1], items[k - 1].orbId);
      var longer, shorter := items[..k], items[..k - 1];
      assert forall i | 0 <= i < k - 1 :: shorter[i] == longer[i];
      assert longer[k - 1] == items[k - 1];
      assert forall id :: !Mentions(longer, id) ==> !Mentions(shorter, id) && id != items[k - 1].orbId;
    }
  }
}
