/**
  Whole runs over one change request: any sequence of decisions, amendments, closings,
  merges that may fail part way, and writes by others to the graph.
*/
module ReviewRuns {
  import opened Common
  import opened Changesets
  import opened MergePlan
  import opened MergeProperties
  import opened ChangeRequests
  import opened MergeRetry

  datatype Step =
    | Deciding(actor: Actor, bypasses: bool, decision: Decision, finished: bool)
    | Amending(actor: Actor, bypasses: bool, title: Option<string>, changes: Option<seq<ChangeItem>>,
               scope: set<OrbId>, proposable: bool, snapshotRead: bool)
    | Closing(actor: Actor, bypasses: bool)
    | Merging(required: nat, allowed: bool, stop: Stop)
    | ForeignWrite(graph: Graph)

  datatype World = World(row: Row, graph: Graph)

  /** What the caller of a step guarantees: an amendment's scope covers it, and validation is right. */
  ghost predicate Possible(w: World, s: Step) {
    s.Amending? && s.changes.Some? ==>
      Declares(s.scope, s.changes.value) && (s.proposable ==> Proposable(w.graph, s.changes.value))
  }

  ghost predicate AmendAccepted(w: World, s: Step)
    requires s.Amending?
  {
    && w.row.status.Open? && (w.row.author == s.actor || s.bypasses)
    && (s.changes.Some? ==> s.proposable && !AnyStale(VersionsOf(w.graph, s.scope), s.changes.value))
  }

  ghost function MergeNext(w: World, required: nat, allowed: bool, stop: Stop): World
    requires ValidRow(w.row)
  {
    var items := MergeItems(Content(w.graph), w.row.baseValues, w.row.changes);
    if !Gate(w.row, w.graph, required, allowed).Done? then w
    else if stop.count <= |items| then
      var (row, graph) := Interrupted(w.row, w.graph, stop);
      World(row, graph)
    else
      MergeItemsValid(Content(w.graph), w.row.baseValues, w.row.changes);
      World(w.row.(status := Status.Merged), GraphAfter(w.graph, items, |items|))
  }

  ghost function Next(w: World, s: Step): World
    requires ValidRow(w.row)
  {
    match s
    case Deciding(actor, bypasses, decision, finished) =>
      if w.row.status.Open? && (w.row.author != actor || bypasses)
      then w.(row := DecideRow(w.row, w.graph, actor, decision, finished)) else w
    case Amending(_, _, title, changes, scope, _, snapshotRead) =>
      if AmendAccepted(w, s) then w.(row := AmendedRow(w.row, w.graph, title, changes, scope, snapshotRead)) else w
    case Closing(actor, bypasses) =>
      if w.row.status.Open? && (w.row.author == actor || bypasses) then w.(row := w.row.(status := Closed)) else w
    case Merging(required, allowed, stop) => MergeNext(w, required, allowed, stop)
    case ForeignWrite(graph) => w.(graph := graph)
  }

  lemma NextValid(w: World, s: Step)
    requires ValidRow(w.row) && Possible(w, s)
    ensures ValidRow(Next(w, s).row)
  {
    if s.Amending? && AmendAccepted(w, s) && s.changes.Some? {
      AmendValid(w.row, w.graph, s.changes.value, s.scope, s.snapshotRead);
    } else if s.Merging? {
      MergeValid(w, s.required, s.allowed, s.stop);
    }
  }

  lemma AmendValid(row: Row, g: Graph, cs: seq<ChangeItem>, scope: set<OrbId>, snapshotRead: bool)
    requires Proposable(g, cs) && Declares(scope, cs)
    ensures ValidRow(AmendRow(row, g, cs, scope, snapshotRead))
  {
    forall i | 0 <= i < |cs| && cs[i].version.Some?
      ensures cs[i].orbId in VersionsOf(g, scope)
    {
      assert cs[i].orbId in g;
    }
  }

  lemma MergeValid(w: World, required: nat, allowed: bool, stop: Stop)
    requires ValidRow(w.row)
    ensures ValidRow(MergeNext(w, required, allowed, stop).row)
  {
  }

  /** Every step is one its caller may take in the world it starts from. */
  ghost predicate Runs(w: World, steps: seq<Step>)
    requires ValidRow(w.row)
    decreases |steps|
  {
    steps == [] || (Possible(w, steps[0]) && (NextValid(w, steps[0]); Runs(Next(w, steps[0]), steps[1..])))
  }

  ghost function After(w: World, steps: seq<Step>): World
    requires ValidRow(w.row) && Runs(w, steps)
    decreases |steps|
  {
    if steps == [] then w else (NextValid(w, steps[0]); After(Next(w, steps[0]), steps[1..]))
  }

  /** A run goes on with any step its caller may take, and ends where that step leads. */
  lemma {:induction false} RunGoesOn(w: World, steps: seq<Step>, s: Step)
    requires ValidRow(w.row) && Runs(w, steps) && ValidRow(After(w, steps).row) && Possible(After(w, steps), s)
    ensures Runs(w, steps + [s]) && After(w, steps + [s]) == Next(After(w, steps), s)
    decreases |steps|
  {
    NextValid(After(w, steps), s);
    if steps == [] {
      assert (steps + [s])[1..] == [];
    } else {
      NextValid(w, steps[0]);
      assert (steps + [s])[0] == steps[0] && (steps + [s])[1..] == steps[1..] + [s];
      RunGoesOn(Next(w, steps[0]), steps[1..], s);
    }
  }

  /** The steps are the methods of the store: a script of calls ends where the run does. */
  method Execute(store: RequestStore, steps: seq<Step>)
    requires ValidRow(store.row) && Runs(World(store.row, store.graph), steps)
    modifies store
    ensures World(store.row, store.graph) == After(old(World(store.row, store.graph)), steps)
  {
    ghost var start := World(store.row, store.graph);
    for i := 0 to |steps|
      invariant ValidRow(store.row) && Runs(World(store.row, store.graph), steps[i..])
      invariant After(World(store.row, store.graph), steps[i..]) == After(start, steps)
    {
      ghost var w := World(store.row, store.graph);
      NextValid(w, steps[i]);
      ExecuteOne(store, steps[i]);
      assert steps[i..][1..] == steps[i + 1..];
    }
  }

  method ExecuteOne(store: RequestStore, s: Step)
    requires ValidRow(store.row) && Possible(World(store.row, store.graph), s)
    modifies store
    ensures World(store.row, store.graph) == Next(old(World(store.row, store.graph)), s)
  {
    match s
    case Deciding(actor, bypasses, decision, finished) =>
      var _, _ := store.Decide(actor, bypasses, decision, finished);
    case Amending(actor, bypasses, title, changes, scope, proposable, snapshotRead) =>
      var _ := store.Amend(actor, bypasses, title, changes, scope, proposable, snapshotRead);
    case Closing(actor, bypasses) =>
      var _ := store.Close(actor, bypasses);
    case Merging(required, allowed, stop) =>
      ghost var w := World(store.row, store.graph);
      ghost var items := MergeItems(Content(w.graph), w.row.baseValues, w.row.changes);
      MergeItemsValid(Content(w.graph), w.row.baseValues, w.row.changes);
      assert items[..|items|] == items;
      var _ := store.Merge(required, allowed, stop);
    case ForeignWrite(graph) =>
      store.graph := graph;
  }

  // ---- The decision log ----

  /** The log read from the front: each approver's latest entry. */
  function Ledger(log: seq<LogEntry>): map<Actor, Approval> {
    if log == [] then map[]
    else Ledger(log[..|log| - 1])[log[|log| - 1].approver := log[|log| - 1].approval]
  }

  predicate LastBy(log: seq<LogEntry>, i: int) {
    0 <= i < |log| && forall j | i < j < |log| :: log[j].approver != log[i].approver
  }

  /** The ledger holds exactly the entries with no later entry by the same approver. */
  lemma {:induction false} LedgerIsLastEntries(log: seq<LogEntry>, i: nat)
    requires i < |log|
    ensures log[i].approver in Ledger(log)
    ensures LastBy(log, i) ==> Ledger(log)[log[i].approver] == log[i].approval
  {
    if i < |log| - 1 {
      var front := log[..|log| - 1];
      LedgerIsLastEntries(front, i);
      assert LastBy(log, i) ==> LastBy(front, i);
    }
  }

  lemma {:induction false} LedgerNamesOnlyLogged(log: seq<LogEntry>, a: Actor) returns (i: nat)
    requires a in Ledger(log)
    ensures LastBy(log, i) && log[i].approver == a
  {
    if log[|log| - 1].approver == a {
      i := |log| - 1;
    } else {
      i := LedgerNamesOnlyLogged(log[..|log| - 1], a);
    }
  }

  lemma LedgerStep(log: seq<LogEntry>, e: LogEntry)
    ensures Ledger(log + [e]) == Ledger(log)[e.approver := e.approval]
  {
    assert (log + [e])[..|log|] == log;
  }

  /** Same people, same verdicts, same revisions; the hash is what a partial merge restamps. */
  predicate Agrees(approvals: map<Actor, Approval>, ledger: map<Actor, Approval>) {
    && approvals.Keys == ledger.Keys
    && forall a | a in approvals ::
         approvals[a].decision == ledger[a].decision && approvals[a].revision == ledger[a].revision
  }

  /** Revisions are stamped from the request's own counter, which starts at 1. */
  predicate RevisionsInRange(row: Row) {
    row.revision >= 1 && forall a | a in row.approvals :: 1 <= row.approvals[a].revision <= row.revision
  }

  ghost predicate Consistent(w: World) {
    ValidRow(w.row) && Agrees(w.row.approvals, Ledger(w.row.log)) && RevisionsInRange(w.row)
  }

  /** A request as creation stores it. */
  ghost predicate Fresh(row: Row) {
    ValidRow(row) && row.approvals == map[] && row.log == [] && row.revision == 1 && row.status.Open?
  }

  /** Same approvers with the same verdicts and revisions, same log, same revision counter. */
  predicate SameStamps(row: Row, row': Row) {
    && row'.log == row.log && row'.revision == row.revision
    && row'.approvals.Keys == row.approvals.Keys
    && forall a | a in row.approvals ::
         && row'.approvals[a].decision == row.approvals[a].decision
         && row'.approvals[a].revision == row.approvals[a].revision
  }

  lemma RebaseKeepsStamps(row: Row, before: Versions, after: Versions, applied: set<OrbId>, carry: Carry)
    ensures SameStamps(row, Rebase(row, before, after, applied, carry))
  {
  }

  lemma MergeKeepsStamps(w: World, required: nat, allowed: bool, stop: Stop)
    requires ValidRow(w.row)
    ensures SameStamps(w.row, MergeNext(w, required, allowed, stop).row)
  {
    var items := MergeItems(Content(w.graph), w.row.baseValues, w.row.changes);
    if stop.count < |items| {
      var (_, g') := Interrupted(w.row, w.graph, stop);
      RebaseKeepsStamps(
        w.row, VersionsOf(w.graph, w.row.scope), VersionsOf(g', w.row.scope), IdsOf(items[..stop.count]), stop.carry);
    }
  }

  /** Every step but a decision leaves the log and the stamps; only an amendment moves the counter, up by one. */
  lemma NextStamps(w: World, s: Step)
    requires ValidRow(w.row) && !s.Deciding?
    ensures SameStamps(w.row.(revision := Next(w, s).row.revision), Next(w, s).row)
    ensures Next(w, s).row.revision
      == w.row.revision + if s.Amending? && s.changes.Some? && AmendAccepted(w, s) then 1 else 0
  {
    if s.Merging? {
      MergeKeepsStamps(w, s.required, s.allowed, s.stop);
    }
  }

  lemma StampsConsistent(row: Row, row': Row)
    requires Agrees(row.approvals, Ledger(row.log)) && RevisionsInRange(row)
    requires row.revision <= row'.revision && SameStamps(row.(revision := row'.revision), row')
    ensures Agrees(row'.approvals, Ledger(row'.log)) && RevisionsInRange(row')
  {
  }

  /** A decision replaces the approver's row and extends the log by the same entry. */
  lemma DecideRecords(row: Row, g: Graph, actor: Actor, decision: Decision, finished: bool)
    ensures var row' := DecideRow(row, g, actor, decision, finished);
            var cast := Approval(decision, VersionsOf(g, row.scope), row.revision);
            && row'.approvals == row.approvals[actor := cast]
            && row'.log == row.log + [LogEntry(actor, cast)]
            && row'.revision == row.revision
  {
  }

  lemma CastAgrees(approvals: map<Actor, Approval>, ledger: map<Actor, Approval>, actor: Actor, cast: Approval)
    requires Agrees(approvals, ledger)
    ensures Agrees(approvals[actor := cast], ledger[actor := cast])
  {
  }

  lemma DecideConsistent(row: Row, g: Graph, actor: Actor, decision: Decision, finished: bool)
    requires Agrees(row.approvals, Ledger(row.log)) && RevisionsInRange(row)
    ensures var row' := DecideRow(row, g, actor, decision, finished);
            Agrees(row'.approvals, Ledger(row'.log)) && RevisionsInRange(row')
  {
    var cast := Approval(decision, VersionsOf(g, row.scope), row.revision);
    DecideRecords(row, g, actor, decision, finished);
    LedgerStep(row.log, LogEntry(actor, cast));
    CastAgrees(row.approvals, Ledger(row.log), actor, cast);
  }

  lemma NextConsistent(w: World, s: Step)
    requires Consistent(w) && Possible(w, s)
    ensures Consistent(Next(w, s))
  {
    NextValid(w, s);
    if s.Deciding? {
      DecideConsistent(w.row, w.graph, s.actor, s.decision, s.finished);
    } else {
      NextStamps(w, s);
      StampsConsistent(w.row, Next(w, s).row);
    }
  }

  /** A step by somebody else leaves an approver's verdict and stamp. */
  lemma NextLeavesOthers(w: World, s: Step, a: Actor)
    requires ValidRow(w.row) && !(s.Deciding? && s.actor == a)
    ensures w.row.revision <= Next(w, s).row.revision
    ensures a in Next(w, s).row.approvals <==> a in w.row.approvals
    ensures a in w.row.approvals ==> Next(w, s).row.approvals[a].revision == w.row.approvals[a].revision
  {
    if !s.Deciding? {
      NextStamps(w, s);
    }
  }

  lemma {:induction false} RunConsistent(w: World, steps: seq<Step>)
    requires Consistent(w) && Runs(w, steps)
    ensures Consistent(After(w, steps))
    decreases |steps|
  {
    if steps != [] {
      NextConsistent(w, steps[0]);
      RunConsistent(Next(w, steps[0]), steps[1..]);
    }
  }

  /**
    In every reachable state the current decisions and the append-only log agree: an
    approver has a row exactly when the log names them, and the row carries the verdict and
    the revision of their last entry.
  */
  lemma DecisionsMatchTheLog(row: Row, g: Graph, steps: seq<Step>)
    requires Fresh(row) && Runs(World(row, g), steps)
    ensures var now := After(World(row, g), steps).row;
            && (forall a :: a in now.approvals <==> exists i :: LastBy(now.log, i) && now.log[i].approver == a)
            && (forall i :: LastBy(now.log, i) ==>
                  && now.log[i].approver in now.approvals
                  && now.approvals[now.log[i].approver].decision == now.log[i].approval.decision
                  && now.approvals[now.log[i].approver].revision == now.log[i].approval.revision)
  {
    RunConsistent(World(row, g), steps);
    var now := After(World(row, g), steps).row;
    forall i | LastBy(now.log, i)
      ensures now.log[i].approver in now.approvals
      ensures now.approvals[now.log[i].approver].decision == now.log[i].approval.decision
      ensures now.approvals[now.log[i].approver].revision == now.log[i].approval.revision
    {
      LedgerIsLastEntries(now.log, i);
    }
    forall a | a in now.approvals
      ensures exists i :: LastBy(now.log, i) && now.log[i].approver == a
    {
      var i := LedgerNamesOnlyLogged(now.log, a);
    }
  }

  lemma DecideKeepsLedger(row: Row, g: Graph, actor: Actor, decision: Decision, finished: bool)
    requires row.approvals == Ledger(row.log)
    ensures var row' := DecideRow(row, g, actor, decision, finished); row'.approvals == Ledger(row'.log)
  {
    DecideRecords(row, g, actor, decision, finished);
    LedgerStep(row.log, LogEntry(actor, Approval(decision, VersionsOf(g, row.scope), row.revision)));
  }

  lemma OthersKeepLedger(w: World, s: Step)
    requires ValidRow(w.row) && !s.Deciding? && !s.Merging?
    ensures Next(w, s).row.approvals == w.row.approvals && Next(w, s).row.log == w.row.log
  {
  }

  lemma HashesStep(w: World, s: Step)
    requires ValidRow(w.row) && w.row.approvals == Ledger(w.row.log) && !s.Merging?
    ensures Next(w, s).row.approvals == Ledger(Next(w, s).row.log)
  {
    if s.Deciding? {
      DecideKeepsLedger(w.row, w.graph, s.actor, s.decision, s.finished);
    } else {
      OthersKeepLedger(w, s);
    }
  }

  predicate NoMerges(steps: seq<Step>) {
    forall i | 0 <= i < |steps| :: !steps[i].Merging?
  }

  /**
    Until the first merge is tried, the current decisions are the log's last entries, hash
    included, over every run.
  */
  lemma {:induction false} HashesMatchTheLogUntilMerging(w: World, steps: seq<Step>)
    requires ValidRow(w.row) && w.row.approvals == Ledger(w.row.log) && Runs(w, steps) && NoMerges(steps)
    ensures After(w, steps).row.approvals == Ledger(After(w, steps).row.log)
    decreases |steps|
  {
    if steps != [] {
      assert !steps[0].Merging?;
      NextValid(w, steps[0]);
      HashesStep(w, steps[0]);
      assert forall i | 0 <= i < |steps| - 1 :: steps[1..][i] == steps[i + 1];
      HashesMatchTheLogUntilMerging(Next(w, steps[0]), steps[1..]);
    }
  }

  /**
    An interrupted merge that rebases restamps the current decisions but not the log, so
    the two keep agreeing on the hash exactly when it did not get there or had nothing to
    restamp.
  */
  lemma RestampSplitsTheLedgerIff(row: Row, before: Versions, after: Versions, applied: set<OrbId>, carry: Carry)
    requires row.approvals == Ledger(row.log) && row.baseVersions == before
    ensures var row' := Rebase(row, before, after, applied, carry);
            row'.approvals == Ledger(row'.log)
            <==> (|| !carry.BaseAndApprovals? || before == after || !(MovedIds(before, after) <= applied)
                  || forall a | a in row.approvals :: row.approvals[a].hash != before)
  {
    if carry.BaseAndApprovals? && before != after && MovedIds(before, after) <= applied {
      var row' := Rebase(row, before, after, applied, carry);
      if a :| a in row.approvals && row.approvals[a].hash == before {
        assert row'.approvals[a].hash == after;
      } else {
        assert row'.approvals == row.approvals;
      }
    }
  }

  /** Nothing rewrites or removes a log entry. */
  lemma {:induction false} LogOnlyGrows(w: World, steps: seq<Step>)
    requires ValidRow(w.row) && Runs(w, steps)
    ensures w.row.log <= After(w, steps).row.log
    decreases |steps|
  {
    if steps != [] {
      NextValid(w, steps[0]);
      if !steps[0].Deciding? {
        NextStamps(w, steps[0]);
      }
      LogOnlyGrows(Next(w, steps[0]), steps[1..]);
    }
  }

  /** The review history: an entry is superseded exactly when its approver decided again later. */
  method ReviewHistory(log: seq<LogEntry>) returns (superseded: seq<bool>)
    ensures |superseded| == |log|
    ensures forall i | 0 <= i < |log| ::
      superseded[i] <==> exists j :: i < j < |log| && log[j].approver == log[i].approver
  {
    var latest: map<Actor, int> := map[];
    for i := 0 to |log|
      invariant forall k | 0 <= k < i :: log[k].approver in latest
      invariant forall a | a in latest :: 0 <= latest[a] < i && log[latest[a]].approver == a
      invariant forall a, k | a in latest && latest[a] < k < i :: log[k].approver != a
    {
      latest := latest[log[i].approver := i];
    }
    superseded := [];
    for i := 0 to |log|
      invariant |superseded| == i
      invariant forall k | 0 <= k < i :: superseded[k] <==> latest[log[k].approver] != k
    {
      superseded := superseded + [latest[log[i].approver] != i];
    }
    forall i | 0 <= i < |log|
      ensures superseded[i] <==> exists j :: i < j < |log| && log[j].approver == log[i].approver
    {
      var last := latest[log[i].approver];
      assert last >= i;
      assert superseded[i] ==> i < last < |log| && log[last].approver == log[i].approver;
    }
  }

  // ---- Amending and renaming ----

  /**
    Amending the changeset stops every earlier approval, whatever the graph does next, exactly when no approval predates
    revision stamping. Those carry revision 0, which matches every revision.
  */
  lemma AmendStopsApprovalsIff(row: Row, g: Graph, cs: seq<ChangeItem>, scope: set<OrbId>, snapshotRead: bool)
    requires row.status.Open?
    requires forall a | a in row.approvals :: row.approvals[a].revision <= row.revision
    ensures var amended := AmendRow(row, g, cs, scope, snapshotRead);
            (forall g': Graph :: CurrentApprovers(amended, g') == {})
            <==> forall a | a in row.approvals && Legacy(row.approvals[a]) ::
                   !Reachable(row.approvals[a].hash, scope)
  {
    var amended := AmendRow(row, g, cs, scope, snapshotRead);
    if a :| a in row.approvals && Legacy(row.approvals[a]) && Reachable(row.approvals[a].hash, scope) {
      var hash := row.approvals[a].hash;
      var g': Graph := map id | id in hash :: Entity(hash[id], map[]);
      assert VersionsOf(g', scope) == hash;
      assert a in CurrentApprovers(amended, g');
    } else {
      forall g': Graph
        ensures CurrentApprovers(amended, g') == {}
      {
        if a :| a in CurrentApprovers(amended, g') {
          assert Reachable(row.approvals[a].hash, scope);
        }
      }
    }
  }

  /** An approval from before revisions were stamped. */
  predicate Legacy(approval: Approval) {
    approval.decision.Approve? && approval.revision == 0
  }

  /** Some graph has this version vector over the scope. */
  predicate Reachable(hash: Versions, scope: set<OrbId>) {
    hash.Keys <= scope
  }

  predicate DecidedBy(steps: seq<Step>, a: Actor) {
    exists i :: 0 <= i < |steps| && steps[i].Deciding? && steps[i].actor == a
  }

  lemma DecidedByTail(steps: seq<Step>, a: Actor)
    requires steps != [] && !DecidedBy(steps, a)
    ensures !(steps[0].Deciding? && steps[0].actor == a) && !DecidedBy(steps[1..], a)
  {
    assert forall i | 0 <= i < |steps| - 1 :: steps[1..][i] == steps[i + 1];
  }

  /** A row stamped before the current revision, left alone, never counts again while the request is open. */
  lemma {:induction false} StoppedForGood(w: World, steps: seq<Step>, a: Actor)
    requires Consistent(w) && Runs(w, steps) && !DecidedBy(steps, a)
    requires a in w.row.approvals && w.row.approvals[a].revision < w.row.revision
    ensures var end := After(w, steps);
            end.row.status.Open? ==> a !in CurrentApprovers(end.row, end.graph)
    decreases |steps|
  {
    if steps != [] {
      DecidedByTail(steps, a);
      NextConsistent(w, steps[0]);
      NextLeavesOthers(w, steps[0], a);
      StoppedForGood(Next(w, steps[0]), steps[1..], a);
    }
  }

  /**
    No approval of one proposal carries over to a different one. From creation on, once an
    amendment of the changeset is accepted, nobody counts towards the new proposal until
    they decide again, whatever else happens.
  */
  lemma AmendStopsApprovalsForGood(row: Row, g: Graph, before: seq<Step>, amend: Step, later: seq<Step>, a: Actor)
    requires Fresh(row) && Runs(World(row, g), before)
    requires amend.Amending? && amend.changes.Some?
    requires var w := After(World(row, g), before);
             ValidRow(w.row) && Possible(w, amend) && AmendAccepted(w, amend)
             && ValidRow(Next(w, amend).row) && Runs(Next(w, amend), later)
    requires !DecidedBy(later, a)
    ensures var end := After(Next(After(World(row, g), before), amend), later);
            end.row.status.Open? ==> a !in CurrentApprovers(end.row, end.graph)
  {
    RunConsistent(World(row, g), before);
    var w := After(World(row, g), before);
    NextConsistent(w, amend);
    var amended := Next(w, amend);
    if a in amended.row.approvals {
      StoppedForGood(amended, later, a);
    } else {
      NeverDecided(amended, later, a);
    }
  }

  lemma {:induction false} NeverDecided(w: World, steps: seq<Step>, a: Actor)
    requires ValidRow(w.row) && Runs(w, steps) && !DecidedBy(steps, a) && a !in w.row.approvals
    ensures a !in After(w, steps).row.approvals
    decreases |steps|
  {
    if steps != [] {
      DecidedByTail(steps, a);
      NextValid(w, steps[0]);
      NextLeavesOthers(w, steps[0], a);
      NeverDecided(Next(w, steps[0]), steps[1..], a);
    }
  }

  /** A rename alone stops no approval and moves nothing derived. */
  lemma RenameStopsNone(w: World, s: Step, required: nat, allowed: bool)
    requires ValidRow(w.row) && s.Amending? && s.changes.None?
    ensures var row' := Next(w, s).row;
            && CurrentApprovers(row', w.graph) == CurrentApprovers(w.row, w.graph)
            && (IsApproved(row', w.graph, required) <==> IsApproved(w.row, w.graph, required))
            && Gate(row', w.graph, required, allowed) == Gate(w.row, w.graph, required, allowed)
  {
    var row' := Next(w, s).row;
    assert forall versions, a | a in w.row.approvals :: Counts(row', versions, a) <==> Counts(w.row, versions, a);
    assert CurrentApprovers(row', w.graph) == CurrentApprovers(w.row, w.graph);
  }

  /** Merged, rejected and closed requests never change again. */
  lemma {:induction false} TerminalIsFrozen(w: World, steps: seq<Step>)
    requires ValidRow(w.row) && Runs(w, steps) && !w.row.status.Open?
    ensures After(w, steps).row == w.row
    decreases |steps|
  {
    if steps != [] {
      NextValid(w, steps[0]);
      assert Next(w, steps[0]).row == w.row;
      TerminalIsFrozen(Next(w, steps[0]), steps[1..]);
    }
  }

  // ---- Whose approval counts ----

  /**
    While a request is open, a person counts exactly when they approved the versions as they
    are, in the current revision or before revisions were stamped; once it has ended, exactly
    when they approved, whatever the graph is.
  */
  lemma CountsIff(row: Row, g: Graph, a: Actor)
    ensures a in CurrentApprovers(row, g)
       <==> (&& a in row.approvals && row.approvals[a].decision == Approve
             && (row.status.Open? ==>
                   && (forall id | id in row.scope || id in row.approvals[a].hash ::
                         Lookup(row.approvals[a].hash, id) == if id in row.scope then VersionIn(g, id) else None)
                   && row.approvals[a].revision in {0, row.revision}))
  {
    var versions := VersionsOf(g, row.scope);
    if a in row.approvals {
      var hash := row.approvals[a].hash;
      if forall id | id in row.scope || id in hash ::
          Lookup(hash, id) == if id in row.scope then VersionIn(g, id) else None {
        forall id
          ensures id in hash <==> id in versions
          ensures id in hash ==> hash[id] == versions[id]
        {
          if id in row.scope || id in hash {
            assert Lookup(hash, id) == if id in row.scope then VersionIn(g, id) else None;
          }
        }
        assert hash == versions;
      }
    }
  }

  // ---- Which step ends a request ----

  /** Another version, presence or absence of something in the scope than the base recorded, or than an author gave. */
  ghost predicate Moved(row: Row, g: Graph) {
    || (exists id :: VersionIn(g, id) != Lookup(row.baseVersions, id) && (id in row.scope || id in row.baseVersions))
    || (exists i :: 0 <= i < |row.changes| && row.changes[i].version.Some? && row.changes[i].orbId in row.scope
                    && row.changes[i].orbId in g && g[row.changes[i].orbId].version != row.changes[i].version.value)
  }

  lemma MovedIffBlocked(row: Row, g: Graph)
    requires ValidRow(row)
    ensures Moved(row, g) <==> Stale(row, g) || SubtreeChanged(row, g)
  {
    var now := VersionsOf(g, row.scope);
    if SubtreeChanged(row, g) {
      SameVersions(now, row.baseVersions);
      var id :| id in MovedIds(now, row.baseVersions);
      assert VersionIn(g, id) != Lookup(row.baseVersions, id);
    }
    if Stale(row, g) {
      var i :| 0 <= i < |row.changes| && ItemStale(now, row.changes[i]);
      assert row.changes[i].orbId in g;
    }
    if id :| VersionIn(g, id) != Lookup(row.baseVersions, id) && (id in row.scope || id in row.baseVersions) {
      assert Lookup(now, id) == VersionIn(g, id);
    }
    if i :| 0 <= i < |row.changes| && row.changes[i].version.Some? && row.changes[i].orbId in row.scope
            && row.changes[i].orbId in g && g[row.changes[i].orbId].version != row.changes[i].version.value {
      assert ItemStale(now, row.changes[i]);
    }
  }

  /** An entity that was there when the base was captured is gone. */
  predicate BaseEntityGone(row: Row, g: Graph) {
    exists id :: id in row.basePresent && id !in g
  }

  /**
    Which answer a merge gets, for every row, graph, count and caller: first what is wrong
    with the request, then with its targets, its review, its caller, and its fields.
  */
  lemma MergeAnswers(row: Row, g: Graph, required: nat, allowed: bool)
    requires ValidRow(row)
    ensures var answer := Gate(row, g, required, allowed);
            var reviewable := row.status.Open? && !BaseEntityGone(row, g);
            var enough := |CurrentApprovers(row, g)| >= required;
            && (answer.NotOpen? <==> !row.status.Open?)
            && (answer.TargetMissing? <==> row.status.Open? && BaseEntityGone(row, g))
            && (answer.NotApproved? <==> reviewable && !enough && !Moved(row, g))
            && (answer.Forbidden? <==> reviewable && enough && !allowed)
            && (answer.MvccConflict? <==> reviewable && Moved(row, g) && (enough ==> allowed))
            && (answer.FieldConflict?
                <==> reviewable && enough && allowed && !Moved(row, g)
                     && Refused(Content(g), row.baseValues, row.changes))
            && (answer.Done?
                <==> reviewable && enough && allowed && !Moved(row, g)
                     && !Refused(Content(g), row.baseValues, row.changes))
  {
    MovedIffBlocked(row, g);
    if id :| id in row.basePresent && id !in g {
      assert id in Missing(row, g);
    }
  }

  /** A caller who may not merge changes nothing, and learns so once the request could be merged. */
  lemma ForbiddenMergeChangesNothing(w: World, required: nat, stop: Stop)
    requires ValidRow(w.row)
    ensures MergeNext(w, required, false, stop) == w
    ensures Gate(w.row, w.graph, required, false).Forbidden?
       <==> w.row.status.Open? && Missing(w.row, w.graph) == {} && |CurrentApprovers(w.row, w.graph)| >= required
  {
  }

  lemma ForbiddenGate(w: World, s: Step)
    requires ValidRow(w.row)
    ensures s.Merging? && !s.allowed ==> !Gate(w.row, w.graph, s.required, s.allowed).Done?
  {
  }

  predicate NobodyMayMerge(steps: seq<Step>) {
    forall i | 0 <= i < |steps| && steps[i].Merging? :: !steps[i].allowed
  }

  /** Over every run in which no merge is tried by somebody who may, a request is merged only if it was. */
  lemma {:induction false} NotMergedByTheForbidden(w: World, steps: seq<Step>)
    requires ValidRow(w.row) && Runs(w, steps) && NobodyMayMerge(steps)
    ensures After(w, steps).row.status.Merged? <==> w.row.status.Merged?
    decreases |steps|
  {
    if steps != [] {
      NextValid(w, steps[0]);
      assert forall i | 0 <= i < |steps| - 1 :: steps[1..][i] == steps[i + 1];
      if w.row.status.Open? {
        StepEndsIff(w, steps[0]);
        ForbiddenGate(w, steps[0]);
      } else {
        assert Next(w, steps[0]).row == w.row;
      }
      NotMergedByTheForbidden(Next(w, steps[0]), steps[1..]);
    }
  }

  /** The caller of a decision may take it: the author only when bypassing. */
  predicate MayDecide(row: Row, actor: Actor, bypasses: bool) {
    row.author != actor || bypasses
  }

  /** The end of an open request, step by step: what ends it, and how. Everything else leaves it open. */
  lemma StepEndsIff(w: World, s: Step)
    requires ValidRow(w.row) && w.row.status.Open?
    ensures var status := Next(w, s).row.status;
            && (status.Rejected?
                <==> s.Deciding? && MayDecide(w.row, s.actor, s.bypasses) && s.decision.Reject? && s.finished)
            && (status.Closed? <==> s.Closing? && (w.row.author == s.actor || s.bypasses))
            && (status.Merged?
                <==> (&& s.Merging? && Gate(w.row, w.graph, s.required, s.allowed).Done?
                      && s.stop.count > |MergeItems(Content(w.graph), w.row.baseValues, w.row.changes)|))
  {
    if s.Merging? && Gate(w.row, w.graph, s.required, s.allowed).Done? {
      var items := MergeItems(Content(w.graph), w.row.baseValues, w.row.changes);
      if s.stop.count <= |items| {
        LeftRowKeeps(w.row, w.graph, s.stop);
      }
    }
  }

  /** A rejection that was accepted and finished is final: for every later run, graph, count and caller. */
  lemma RejectionIsFinal(w: World, actor: Actor, bypasses: bool, steps: seq<Step>)
    requires ValidRow(w.row) && w.row.status.Open? && MayDecide(w.row, actor, bypasses)
    requires var ended := Next(w, Deciding(actor, bypasses, Reject, true)); ValidRow(ended.row) && Runs(ended, steps)
    ensures var ended := Next(w, Deciding(actor, bypasses, Reject, true));
            && ended.row.status.Rejected?
            && After(ended, steps).row == ended.row
            && forall g, required, allowed :: Gate(ended.row, g, required, allowed).NotOpen?
  {
    StepEndsIff(w, Deciding(actor, bypasses, Reject, true));
    TerminalIsFrozen(Next(w, Deciding(actor, bypasses, Reject, true)), steps);
  }

  /**
    Who is neither the author nor bypassing cannot amend or close, and an author who is not
    bypassing cannot decide.
  */
  lemma OutsidersChangeNothing(w: World, s: Step)
    requires ValidRow(w.row)
    requires match s
             case Deciding(actor, bypasses, _, _) => actor == w.row.author && !bypasses
             case Amending(actor, bypasses, _, _, _, _, _) => actor != w.row.author && !bypasses
             case Closing(actor, bypasses) => actor != w.row.author && !bypasses
             case Merging(_, allowed, _) => !allowed
             case ForeignWrite(_) => false
    ensures Next(w, s) == w
  {
  }

  /** An approval, or a decision that was recorded and did not finish, leaves the request open. */
  lemma OtherDecisionsLeaveItOpen(w: World, actor: Actor, bypasses: bool, decision: Decision, finished: bool)
    requires ValidRow(w.row) && w.row.status.Open?
    requires decision.Approve? || !finished || !MayDecide(w.row, actor, bypasses)
    ensures Next(w, Deciding(actor, bypasses, decision, finished)).row.status.Open?
  {
    StepEndsIff(w, Deciding(actor, bypasses, decision, finished));
  }

  /**
    An accepted amendment has the title and the changeset that were given, and starts its
    review on the graph as it is: nothing moved, nothing gone, nobody's decision forgotten.
  */
  lemma AmendmentStartsOver(w: World, amend: Step)
    requires ValidRow(w.row) && amend.Amending? && Possible(w, amend) && AmendAccepted(w, amend)
    ensures var row' := Next(w, amend).row;
            && row'.title == (if amend.title.Some? then amend.title.value else w.row.title)
            && row'.changes == (if amend.changes.Some? then amend.changes.value else w.row.changes)
            && row'.approvals == w.row.approvals && row'.log == w.row.log && row'.author == w.row.author
            && row'.status == w.row.status
            && row'.scope == (if amend.changes.Some? then amend.scope else w.row.scope)
            && (amend.changes.Some? ==>
                  && !Moved(row', w.graph) && !BaseEntityGone(row', w.graph)
                  && (forall id :: id in row'.basePresent <==> id in amend.scope && id in w.graph)
                  && row'.revision == w.row.revision + 1)
  {
    var row' := Next(w, amend).row;
    if amend.changes.Some? {
      NextValid(w, amend);
      MovedIffBlocked(row', w.graph);
    }
  }

  // ---- What a merge may rely on ----

  /** Some step of the run is an accepted approval by `a`, cast while the request proposed exactly `changes`. */
  ghost predicate VotedFor(w: World, steps: seq<Step>, a: Actor, changes: seq<ChangeItem>)
    requires ValidRow(w.row) && Runs(w, steps)
    decreases |steps|
  {
    steps != [] && (
      || (&& steps[0].Deciding? && steps[0].actor == a && steps[0].decision.Approve?
          && w.row.status.Open? && (w.row.author != a || steps[0].bypasses)
          && w.row.changes == changes)
      || (NextValid(w, steps[0]); VotedFor(Next(w, steps[0]), steps[1..], a, changes)))
  }

  predicate ApprovesCurrent(row: Row, a: Actor) {
    a in row.approvals && row.approvals[a].decision.Approve? && row.approvals[a].revision == row.revision
  }

  /** A current approval is either cast in this step for this changeset, or was there before for the same one. */
  lemma CurrentApprovalStep(w: World, s: Step, a: Actor)
    requires Consistent(w) && ApprovesCurrent(Next(w, s).row, a)
    ensures
      || (&& s.Deciding? && s.actor == a && s.decision.Approve? && w.row.status.Open?
          && (w.row.author != a || s.bypasses) && w.row.changes == Next(w, s).row.changes)
      || (ApprovesCurrent(w.row, a) && w.row.changes == Next(w, s).row.changes)
  {
    if s.Deciding? {
      DecideChanges(w.row, w.graph, s.actor, s.decision, s.finished);
    } else {
      NextStamps(w, s);
      assert w.row.approvals[a].revision <= w.row.revision;
      ChangesMoveWithRevision(w, s);
    }
  }

  /** A decision is about the changeset as it is. */
  lemma DecideChanges(row: Row, g: Graph, actor: Actor, decision: Decision, finished: bool)
    ensures DecideRow(row, g, actor, decision, finished).changes == row.changes
    ensures DecideRow(row, g, actor, decision, finished).revision == row.revision
    ensures DecideRow(row, g, actor, decision, finished).approvals
         == row.approvals[actor := Approval(decision, VersionsOf(g, row.scope), row.revision)]
  {
  }

  /** Nothing but an accepted amendment, which moves the revision, replaces the changeset. */
  lemma ChangesMoveWithRevision(w: World, s: Step)
    requires ValidRow(w.row) && !s.Deciding?
    ensures Next(w, s).row.revision == w.row.revision ==> Next(w, s).row.changes == w.row.changes
  {
  }

  lemma {:induction false} CurrentApprovalWasCast(w: World, steps: seq<Step>, a: Actor)
    requires Consistent(w) && Runs(w, steps) && ApprovesCurrent(After(w, steps).row, a)
    ensures var end := After(w, steps).row;
            VotedFor(w, steps, a, end.changes) || (ApprovesCurrent(w.row, a) && w.row.changes == end.changes)
    decreases |steps|
  {
    if steps != [] {
      NextConsistent(w, steps[0]);
      CurrentApprovalWasCast(Next(w, steps[0]), steps[1..], a);
      if ApprovesCurrent(Next(w, steps[0]).row, a) {
        CurrentApprovalStep(w, steps[0], a);
      }
    }
  }

  /**
    A merge is admitted only for a changeset that enough people approved as it now stands:
    in any run since creation there are at least `required` distinct people who approved
    exactly this changeset, each of them somebody other than its author or allowed to bypass.
  */
  lemma AdmittedMergeWasReviewed(row: Row, g: Graph, steps: seq<Step>, required: nat, allowed: bool)
    requires Fresh(row) && Runs(World(row, g), steps)
    requires var end := After(World(row, g), steps); Gate(end.row, end.graph, required, allowed).Done?
    ensures var end := After(World(row, g), steps);
            exists people: set<Actor> ::
              && |people| >= required
              && forall a | a in people :: VotedFor(World(row, g), steps, a, end.row.changes)
  {
    RunConsistent(World(row, g), steps);
    var end := After(World(row, g), steps);
    var people := CurrentApprovers(end.row, end.graph);
    forall a | a in people
      ensures VotedFor(World(row, g), steps, a, end.row.changes)
    {
      CurrentApprovalWasCast(World(row, g), steps, a);
    }
  }

  /**
    Approving attests to the graph as it is: the approver counts, nobody else's standing
    moves, and an author's own version precondition is not touched. The scope then reads as
    unchanged and no field conflicts, exactly when what follows the recording succeeds or
    that was so before.
  */
  lemma ApprovingReanchors(w: World, actor: Actor, bypasses: bool, finished: bool)
    requires ValidRow(w.row) && w.row.status.Open? && (w.row.author != actor || bypasses)
    ensures var row' := Next(w, Deciding(actor, bypasses, Approve, finished)).row;
            && CurrentApprovers(row', w.graph) == CurrentApprovers(w.row, w.graph) + {actor}
            && (Stale(row', w.graph) <==> Stale(w.row, w.graph))
            && (Attested(row', w.graph) <==> finished || Attested(w.row, w.graph))
  {
    var row' := Next(w, Deciding(actor, bypasses, Approve, finished)).row;
    var versions := VersionsOf(w.graph, w.row.scope);
    assert forall a | a in row'.approvals && a != actor :: Counts(row', versions, a) <==> Counts(w.row, versions, a);
    if finished {
      CapturedNeverConflicts(Content(w.graph), row'.changes);
    }
  }

  /**
    What a finished approval makes of the ancestor: a request without one stays without, and
    one that has one gets the graph's own values for everything its changeset edits there.
  */
  lemma ApprovingRecaptures(w: World, actor: Actor, bypasses: bool, i: nat, p: Pred)
    requires ValidRow(w.row) && w.row.status.Open? && MayDecide(w.row, actor, bypasses)
    requires i < |w.row.changes| && w.row.changes[i].Writes(p)
    ensures var row' := Next(w, Deciding(actor, bypasses, Approve, true)).row;
            var id := w.row.changes[i].orbId;
            && row'.changes == w.row.changes
            && (w.row.baseValues == map[] ==> row'.baseValues == map[])
            && (w.row.baseValues != map[] && id in w.graph ==>
                  && id in row'.baseValues && p in row'.baseValues[id]
                  && row'.baseValues[id][p] == Lookup(w.graph[id].fields, p))
  {
    AncestorIsCurrent(Content(w.graph), w.row.changes, i);
    if w.row.changes[i].orbId in w.graph {
      assert p in AncestorOfItem(Content(w.graph), w.row.changes[i]);
    }
  }

  /** The scope reads as unchanged, and no field of the changeset is in conflict. */
  ghost predicate Attested(row: Row, g: Graph) {
    !SubtreeChanged(row, g) && !Refused(Content(g), row.baseValues, row.changes)
  }

  lemma CapturedNeverConflicts(snap: Snapshot, cs: seq<ChangeItem>)
    requires ValidChangeset(cs)
    ensures !Conflicted(snap, BaseValuesFrom(snap, cs), cs)
  {
    forall i, p | 0 <= i < |cs| && cs[i].Writes(p)
      ensures !OutcomeAt(snap, BaseValuesFrom(snap, cs), cs[i], p).Conflict?
    {
      AncestorIsCurrent(snap, cs, i);
    }
  }

  /** A captured ancestor is the current value of every field its item writes. */
  lemma {:induction false} AncestorIsCurrent(snap: Snapshot, cs: seq<ChangeItem>, i: nat)
    requires ValidChangeset(cs) && i < |cs|
    ensures AncestorOf(BaseValuesFrom(snap, cs), cs[i].orbId)
         == if cs[i].orbId in snap && !WritesNothing(cs[i]) then AncestorOfItem(snap, cs[i]) else map[]
  {
    var front := cs[..|cs| - 1];
    if i < |front| {
      AncestorIsCurrent(snap, front, i);
    } else {
      NoAncestor(snap, front, cs[i].orbId);
    }
  }

  /**
    What happens to a written field when its changeset was captured on one graph and is
    merged on another. It conflicts exactly when somebody changed it in between, unless it
    now is what was proposed; it is satisfied exactly when it is so on an entity that lives.
  */
  lemma CapturedFieldOutcome(captured: Snapshot, now: Snapshot, cs: seq<ChangeItem>, i: nat, p: Pred)
    requires ValidChangeset(cs) && i < |cs| && cs[i].Writes(p)
    ensures var id := cs[i].orbId;
            var outcome := OutcomeAt(now, BaseValuesFrom(captured, cs), cs[i], p);
            var proposed := id in now && Lookup(now[id], p) == Lookup(cs[i].sets, p);
            && (outcome.Conflict?
                <==> id in captured && Lookup(FieldsOf(now, id), p) != Lookup(captured[id], p) && !proposed)
            && (outcome.Satisfied? <==> id in captured && proposed)
  {
    AncestorIsCurrent(captured, cs, i);
    if cs[i].orbId in captured {
      assert p in AncestorOfItem(captured, cs[i]);
    }
  }

  /**
    And on any ancestor, one kept from another changeset included: a field conflicts exactly
    when the ancestor has it, with another value than it has now, unless it now is what was
    proposed; it is satisfied exactly when its entity lives, has it as proposed, and is in
    the ancestor with some field.
  */
  lemma FieldOutcome(now: Snapshot, base: BaseValues, item: ChangeItem, p: Pred)
    requires ValidItem(item) && item.Writes(p)
    ensures var id := item.orbId;
            var outcome := OutcomeAt(now, base, item, p);
            var proposed := id in now && Lookup(now[id], p) == Lookup(item.sets, p);
            && (outcome.Conflict?
                <==> id in base && p in base[id] && base[id][p] != Lookup(FieldsOf(now, id), p) && !proposed)
            && (outcome.Satisfied? <==> proposed && id in base && exists q :: q in base[id])
  {
    var id := item.orbId;
    if id in base && base[id] != map[] {
      assert base[id].Keys != {};
      var q :| q in base[id].Keys;
      assert q in base[id];
    }
  }

  /** A merge that is not refused keeps every value that somebody changed since the capture. */
  lemma MergeKeepsForeignChanges(captured: Snapshot, now: Snapshot, cs: seq<ChangeItem>, id: OrbId, p: Pred)
    requires ValidChangeset(cs) && !Refused(now, BaseValuesFrom(captured, cs), cs)
    requires id in captured && Lookup(FieldsOf(now, id), p) != Lookup(captured[id], p)
    ensures var after := MergeProperties.Merged(now, BaseValuesFrom(captured, cs), cs);
            id in after ==> Lookup(after[id], p) == Lookup(FieldsOf(now, id), p)
  {
    var base := BaseValuesFrom(captured, cs);
    MergedAt(now, base, cs, id);
    if i :| 0 <= i < |cs| && cs[i].orbId == id && cs[i].Writes(p) {
      CapturedFieldOutcome(captured, now, cs, i, p);
      AncestorIsCurrent(captured, cs, i);
      assert !OutcomeAt(now, base, cs[i], p).Conflict?;
    }
    if Mentions(cs, id) {
      var i :| 0 <= i < |cs| && cs[i].orbId == id;
    }
  }

  lemma {:induction false} NoAncestor(snap: Snapshot, cs: seq<ChangeItem>, id: OrbId)
    requires !Mentions(cs, id)
    ensures id !in BaseValuesFrom(snap, cs)
  {
    if cs != [] {
      assert !Mentions(cs[..|cs| - 1], id);
      NoAncestor(snap, cs[..|cs| - 1], id);
      assert cs[|cs| - 1].orbId != id;
    }
  }

  /** Some item edits an entity that exists: what a captured ancestor can hold anything for. */
  predicate EditsSomething(g: Graph, cs: seq<ChangeItem>) {
    exists i :: 0 <= i < |cs| && cs[i].orbId in g && !cs[i].op.Delete?
  }

  lemma CapturesSomethingIff(g: Graph, cs: seq<ChangeItem>)
    requires ValidChangeset(cs)
    ensures BaseValuesFrom(Content(g), cs) != map[] <==> EditsSomething(g, cs)
  {
    if i :| 0 <= i < |cs| && cs[i].orbId in g && !cs[i].op.Delete? {
      AncestorIsCurrent(Content(g), cs, i);
      var p :| p in cs[i].sets.Keys + cs[i].clears;
      assert p in AncestorOfItem(Content(g), cs[i]);
    } else {
      NothingToCapture(Content(g), cs);
    }
  }

  /**
    An amended request is guarded by its own ancestor exactly when the snapshot was read and
    the new changeset edits something that exists, or the ancestor that is kept is the same.
  */
  lemma AmendReplacesAncestorIff(row: Row, g: Graph, cs: seq<ChangeItem>, scope: set<OrbId>, snapshotRead: bool)
    requires ValidChangeset(cs)
    ensures AmendRow(row, g, cs, scope, snapshotRead).baseValues == BaseValuesFrom(Content(g), cs)
       <==> (snapshotRead && EditsSomething(g, cs)) || row.baseValues == BaseValuesFrom(Content(g), cs)
  {
    CapturesSomethingIff(g, cs);
  }

  lemma {:induction false} NothingToCapture(snap: Snapshot, cs: seq<ChangeItem>)
    requires forall i | 0 <= i < |cs| :: cs[i].orbId !in snap || WritesNothing(cs[i])
    ensures BaseValuesFrom(snap, cs) == map[]
  {
    if cs != [] {
      NothingToCapture(snap, cs[..|cs| - 1]);
    }
  }

  /**
    Amending an edit into deletions keeps the edit's ancestor, so the merge plans nothing:
    it is admitted without a field conflict, leaves the graph as it was, and reports done
    unless the status cannot be written.
  */
  lemma AmendedDeletesAreDropped(w: World, amend: Step, required: nat, stop: Stop)
    requires ValidRow(w.row) && w.row.baseValues != map[]
    requires amend.Amending? && amend.changes.Some? && Possible(w, amend) && AmendAccepted(w, amend)
    requires forall i | 0 <= i < |amend.changes.value| :: amend.changes.value[i].op.Delete?
    ensures ValidRow(Next(w, amend).row)
    ensures required == 0 ==> Gate(Next(w, amend).row, w.graph, required, true).Done?
    ensures Gate(Next(w, amend).row, w.graph, required, true).Done? ==>
      var row := Next(w, amend).row;
      MergeNext(Next(w, amend), required, true, stop)
      == World(if stop.count == 0 then row else row.(status := Status.Merged), w.graph)
  {
    NextValid(w, amend);
    var row := Next(w, amend).row;
    NothingToCapture(Content(w.graph), row.changes);
    assert row.baseValues == w.row.baseValues;
    DeleteOnlyPlansNothing(Content(w.graph), row.baseValues, row.changes);
  }

  lemma {:induction false} DeleteOnlyPlansNothing(snap: Snapshot, base: BaseValues, cs: seq<ChangeItem>)
    requires forall i | 0 <= i < |cs| :: WritesNothing(cs[i])
    ensures Plan(snap, base, cs) == [] && !Conflicted(snap, base, cs)
  {
    if cs != [] {
      DeleteOnlyPlansNothing(snap, base, cs[..|cs| - 1]);
      assert WritesNothing(Narrow(snap, base, cs[|cs| - 1]));
    }
  }
}
