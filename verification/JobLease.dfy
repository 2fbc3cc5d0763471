/**
  Job leases: a job is claimed by a conditional update, kept alive by a heartbeat, and
  failed by a reaper when the heartbeat goes stale. The export, backup and restore tables
  share the logic; one table stands for each. `Expire` is of exports alone: listing them
  marks a completed one whose file is gone.

  Times are ticks of one clock. A heartbeat or finish that the database rejects with an
  error has no effect and is not a step.
*/
module JobLease {
  import opened Common

  type JobId(==, !new)
  type Runner(==, !new)

  datatype Status = Pending | Running | Completed | Skipped | Failed | Outdated

  datatype Job = Job(status: Status, lockedBy: Option<Runner>, heartbeatAt: Option<nat>, createdAt: nat)
  {
    predicate Active() {
      status.Pending? || status.Running?
    }
  }

  type Rows = map<JobId, Job>

  // ---- The conditional update ----

  datatype Cond = IdIs(id: JobId) | StatusIn(statuses: set<Status>) | LockedByIs(runner: Runner)

  datatype Patch = Patch(status: Option<Status>, lockedBy: Option<Runner>, heartbeatAt: Option<nat>)

  predicate Holds(c: Cond, id: JobId, job: Job) {
    match c
    case IdIs(wanted) => id == wanted
    case StatusIn(statuses) => job.status in statuses
    case LockedByIs(runner) => job.lockedBy == Some(runner)
  }

  predicate Matches(conds: seq<Cond>, id: JobId, job: Job) {
    forall i | 0 <= i < |conds| :: Holds(conds[i], id, job)
  }

  function Patched(job: Job, patch: Patch): Job {
    job.(status := if patch.status.Some? then patch.status.value else job.status,
         lockedBy := if patch.lockedBy.Some? then patch.lockedBy else job.lockedBy,
         heartbeatAt := if patch.heartbeatAt.Some? then patch.heartbeatAt else job.heartbeatAt)
  }

  function UpdatedRow(conds: seq<Cond>, patch: Patch, id: JobId, job: Job): Job {
    if Matches(conds, id, job) then Patched(job, patch) else job
  }

  /** Every matching row patched, every other row as it was. */
  function Updated(rows: Rows, conds: seq<Cond>, patch: Patch): Rows {
    map id | id in rows :: UpdatedRow(conds, patch, id, rows[id])
  }

  function Matching(rows: Rows, conds: seq<Cond>): set<JobId> {
    set id | id in rows && Matches(conds, id, rows[id])
  }

  class JobTable {
    var rows: Rows

    constructor ()
      ensures rows == map[]
    {
      rows := map[];
    }
  }

  /** The update builder: calls accumulate conditions and assignments, `Save` runs them. */
  class JobUpdate {
    var predicates: seq<Cond>
    var patch: Patch
    var done: bool

    constructor ()
      ensures predicates == [] && patch == Patch(None, None, None) && !done
    {
      predicates, patch, done := [], Patch(None, None, None), false;
    }

    method Where(conds: seq<Cond>)
      modifies this`predicates
      ensures predicates == old(predicates) + conds
    {
      predicates := predicates + conds;
    }

    method SetStatus(status: Status)
      modifies this`patch
      ensures patch == old(patch).(status := Some(status))
    {
      patch := patch.(status := Some(status));
    }

    method SetLockedBy(runner: Runner)
      modifies this`patch
      ensures patch == old(patch).(lockedBy := Some(runner))
    {
      patch := patch.(lockedBy := Some(runner));
    }

    method SetHeartbeatAt(at: nat)
      modifies this`patch
      ensures patch == old(patch).(heartbeatAt := Some(at))
    {
      patch := patch.(heartbeatAt := Some(at));
    }

    /** Updates the matching rows in place and reports how many there were. */
    method Save(table: JobTable) returns (affected: nat)
      modifies this`done, table
      ensures table.rows == Updated(old(table.rows), predicates, patch)
      ensures affected == |Matching(old(table.rows), predicates)|
      ensures done
    {
      var rows, n := UpdateNodes(table.rows, predicates, patch);
      table.rows, done := rows, true;
      return n;
    }
  }

  method UpdateNodes(start: Rows, conds: seq<Cond>, patch: Patch) returns (rows: Rows, affected: nat)
    ensures rows == Updated(start, conds, patch)
    ensures affected == |Matching(start, conds)|
  {
    ghost var hit: set<JobId> := {};
    rows, affected := map[], 0;
    var todo := start.Keys;
    while todo != {}
      invariant forall id :: id in start <==> id in todo || id in rows
      invariant forall id | id in rows :: id !in todo && rows[id] == UpdatedRow(conds, patch, id, start[id])
      invariant forall id :: id in hit <==> id in rows && Matches(conds, id, start[id])
      invariant affected == |hit|
      decreases todo
    {
      var id :| id in todo;
      if Matches(conds, id, start[id]) {
        hit := hit + {id};
        rows, affected := rows[id := Patched(start[id], patch)], affected + 1;
      } else {
        rows := rows[id := start[id]];
      }
      todo := todo - {id};
    }
    assert hit == Matching(start, conds);
  }

  // ---- Claim, heartbeat, finish, reap ----

  function ClaimConds(id: JobId): seq<Cond> {
    [IdIs(id), StatusIn({Pending})]
  }

  function Fence(id: JobId, runner: Runner): seq<Cond> {
    [IdIs(id), LockedByIs(runner)]
  }

  function ReapConds(id: JobId): seq<Cond> {
    [IdIs(id), StatusIn({Pending, Running})]
  }

  function Claimed(rows: Rows, id: JobId, runner: Runner, now: nat): Rows {
    Updated(rows, ClaimConds(id), Patch(Some(Running), Some(runner), Some(now)))
  }

  function Beaten(rows: Rows, id: JobId, runner: Runner, now: nat): Rows {
    Updated(rows, Fence(id, runner), Patch(None, None, Some(now)))
  }

  function Finished(rows: Rows, id: JobId, runner: Runner, outcome: Status): Rows {
    Updated(rows, Fence(id, runner), Patch(Some(outcome), None, None))
  }

  function Reaped(rows: Rows, id: JobId): Rows {
    Updated(rows, ReapConds(id), Patch(Some(Failed), None, None))
  }

  /** An update that names a row changes that row or nothing, and reports one or zero. */
  lemma OneRow(rows: Rows, id: JobId, cond: Cond, patch: Patch)
    ensures Matching(rows, [IdIs(id), cond]) == if id in rows && Holds(cond, id, rows[id]) then {id} else {}
    ensures Updated(rows, [IdIs(id), cond], patch)
         == if id in rows && Holds(cond, id, rows[id]) then rows[id := Patched(rows[id], patch)] else rows
  {
    var conds := [IdIs(id), cond];
    forall j | j in rows
      ensures Matches(conds, j, rows[j]) <==> j == id && Holds(cond, id, rows[j])
    {
      assert Holds(conds[0], j, rows[j]) <==> j == id;
      assert conds[1] == cond;
    }
  }

  /** A claim is won exactly when the job was pending; then, and only then, the row is this runner's. */
  method Claim(table: JobTable, id: JobId, runner: Runner, now: nat) returns (won: bool)
    modifies table
    ensures table.rows == Claimed(old(table.rows), id, runner, now)
    ensures won <==> id in old(table.rows) && old(table.rows)[id].status.Pending?
  {
    var u := new JobUpdate();
    u.Where([IdIs(id), StatusIn({Pending})]);
    u.SetStatus(Running);
    u.SetLockedBy(runner);
    u.SetHeartbeatAt(now);
    OneRow(table.rows, id, StatusIn({Pending}), u.patch);
    assert u.predicates == ClaimConds(id);
    var n := u.Save(table);
    return n == 1;
  }

  /** The heartbeat reports whether the row still names this runner. */
  method Beat(table: JobTable, id: JobId, runner: Runner, now: nat) returns (held: bool)
    modifies table
    ensures table.rows == Beaten(old(table.rows), id, runner, now)
    ensures held <==> id in old(table.rows) && old(table.rows)[id].lockedBy == Some(runner)
  {
    var u := new JobUpdate();
    u.Where([IdIs(id), LockedByIs(runner)]);
    u.SetHeartbeatAt(now);
    OneRow(table.rows, id, LockedByIs(runner), u.patch);
    assert u.predicates == Fence(id, runner);
    var n := u.Save(table);
    return n == 1;
  }

  method Finish(table: JobTable, id: JobId, runner: Runner, outcome: Status) returns (written: bool)
    modifies table
    ensures table.rows == Finished(old(table.rows), id, runner, outcome)
    ensures written <==> id in old(table.rows) && old(table.rows)[id].lockedBy == Some(runner)
  {
    var u := new JobUpdate();
    u.Where([IdIs(id), LockedByIs(runner)]);
    u.SetStatus(outcome);
    OneRow(table.rows, id, LockedByIs(runner), u.patch);
    assert u.predicates == Fence(id, runner);
    var n := u.Save(table);
    return n > 0;
  }

  datatype Config = Config(staleAfter: nat, orphanGrace: nat)

  /** Claimed and silent too long, or never heard from and old. */
  predicate Dead(job: Job, cfg: Config, now: nat) {
    job.Active() && match job.heartbeatAt
                    case Some(at) => at + cfg.staleAfter < now
                    case None => job.createdAt + cfg.orphanGrace < now
  }

  function DeadJobs(rows: Rows, cfg: Config, now: nat): set<JobId> {
    set id | id in rows && Dead(rows[id], cfg, now)
  }

  /** One undisturbed sweep fails exactly the dead jobs, and keeps their lock and heartbeat. */
  method Sweep(table: JobTable, cfg: Config, now: nat)
    modifies table
    ensures table.rows == map id | id in old(table.rows) ::
      if Dead(old(table.rows)[id], cfg, now) then old(table.rows)[id].(status := Failed) else old(table.rows)[id]
  {
    var start := table.rows;
    var todo := DeadJobs(start, cfg, now);
    while todo != {}
      invariant todo <= DeadJobs(start, cfg, now)
      invariant table.rows == map id | id in start ::
          if Dead(start[id], cfg, now) && id !in todo then start[id].(status := Failed) else start[id]
      decreases todo
    {
      var id :| id in todo;
      var u := new JobUpdate();
      u.Where([IdIs(id), StatusIn({Pending, Running})]);
      u.SetStatus(Failed);
      OneRow(table.rows, id, StatusIn({Pending, Running}), u.patch);
      assert u.predicates == ReapConds(id);
      var n := u.Save(table);
      todo := todo - {id};
    }
  }

  // ---- Interleavings ----

  /**
    All runners, the reaper and the clock. `owner` records who won each claim and `issued`
    which ids were ever created: job ids are random and never reused, and so are runner ids.
  */
  datatype World = World(
    rows: Rows, issued: set<JobId>, owner: map<JobId, Runner>,
    executing: set<(JobId, Runner)>, selected: set<JobId>, now: nat)

  datatype Step =
    | Create(id: JobId)
    | TryClaim(id: JobId, runner: Runner)
    | Heartbeat(id: JobId, runner: Runner)
    | Conclude(id: JobId, runner: Runner, outcome: Status)
    | Select
    | Fail(id: JobId)
    | Expire(id: JobId)
    | Delete(id: JobId)
    | Tick(ticks: nat)

  const START := World(map[], {}, map[], {}, {}, 0)

  predicate Owns(w: World, id: JobId, runner: Runner) {
    id in w.rows && w.rows[id].lockedBy == Some(runner)
  }

  predicate WinsClaim(w: World, s: Step, id: JobId) {
    s.TryClaim? && s.id == id && id in w.rows && w.rows[id].status.Pending?
  }

  /**
    A runner beats and concludes only jobs whose claim it won. A beat that finds nothing
    cancels the run, and concluding ends it. The sweep selects first and fails one by one.
  */
  function Next(cfg: Config, w: World, s: Step): World {
    match s
    case Create(id) =>
      if id in w.issued then w
      else w.(rows := w.rows[id := Job(Pending, None, None, w.now)], issued := w.issued + {id})
    case TryClaim(id, runner) =>
      var claimed := w.(rows := Claimed(w.rows, id, runner, w.now));
      if WinsClaim(w, s, id) then claimed.(owner := w.owner[id := runner], executing := w.executing + {(id, runner)})
      else claimed
    case Heartbeat(id, runner) =>
      if (id, runner) !in w.executing then w
      else w.(rows := Beaten(w.rows, id, runner, w.now),
              executing := if Owns(w, id, runner) then w.executing else w.executing - {(id, runner)})
    case Conclude(id, runner, outcome) =>
      if (id, runner) !in w.executing || outcome.Pending? || outcome.Running? || outcome.Outdated? then w
      else w.(rows := Finished(w.rows, id, runner, outcome), executing := w.executing - {(id, runner)})
    case Select => w.(selected := w.selected + DeadJobs(w.rows, cfg, w.now))
    case Fail(id) =>
      if id !in w.selected then w
      else w.(rows := Reaped(w.rows, id), selected := w.selected - {id})
    case Expire(id) =>
      if id in w.rows && w.rows[id].status.Completed?
      then w.(rows := w.rows[id := w.rows[id].(status := Outdated)]) else w
    case Delete(id) => if id in w.rows && !w.rows[id].Active() then w.(rows := w.rows - {id}) else w
    case Tick(ticks) => w.(now := w.now + ticks)
  }

  function After(cfg: Config, w: World, steps: seq<Step>): World
    decreases |steps|
  {
    if steps == [] then w else After(cfg, Next(cfg, w, steps[0]), steps[1..])
  }

  // ---- Who is at work, and what a row becomes ----

  /**
    A step of the runner that ends its run: it concludes, or its heartbeat finds that the row
    is not its own any more.
  */
  predicate Stops(w: World, s: Step, id: JobId, runner: Runner) {
    || (s.Conclude? && s.id == id && s.runner == runner && s.outcome in {Completed, Skipped, Failed})
    || (s.Heartbeat? && s.id == id && s.runner == runner
        && !(id in w.rows && w.rows[id].lockedBy == Some(runner)))
  }

  /** A runner works on a job exactly from winning its claim until it stops. */
  lemma WorksIff(cfg: Config, w: World, s: Step, id: JobId, runner: Runner)
    ensures (id, runner) in Next(cfg, w, s).executing
       <==> (|| (s == TryClaim(id, runner) && id in w.rows && w.rows[id].status == Pending)
             || ((id, runner) in w.executing && !Stops(w, s, id, runner)))
  {
  }

  lemma {:induction false} AfterLast(cfg: Config, w: World, steps: seq<Step>)
    requires steps != []
    ensures After(cfg, w, steps) == Next(cfg, After(cfg, w, steps[..|steps| - 1]), steps[|steps| - 1])
    decreases |steps|
  {
    var n := |steps| - 1;
    if n > 0 {
      AfterLast(cfg, Next(cfg, w, steps[0]), steps[1..]);
      assert steps[1..][..n - 1] == steps[..n][1..];
    } else {
      assert steps[..0] == [] && steps[1..] == [];
    }
  }

  /** Step k of a run is a claim that this runner wins, and no later step of it stops the runner. */
  predicate WonAndKept(cfg: Config, w: World, steps: seq<Step>, k: int, id: JobId, runner: Runner) {
    && 0 <= k < |steps| && steps[k] == TryClaim(id, runner)
    && id in After(cfg, w, steps[..k]).rows && After(cfg, w, steps[..k]).rows[id].status == Pending
    && forall j | k < j < |steps| :: !Stops(After(cfg, w, steps[..j]), steps[j], id, runner)
  }

  /**
    Over every run from the start: a runner is at work on a job exactly when it won a claim of
    it and did not stop since.
  */
  lemma {:induction false} WorksInRunIff(cfg: Config, steps: seq<Step>, id: JobId, runner: Runner)
    ensures (id, runner) in After(cfg, START, steps).executing
       <==> exists k :: WonAndKept(cfg, START, steps, k, id, runner)
  {
    if steps != [] {
      var n := |steps| - 1;
      var front := steps[..n];
      AfterLast(cfg, START, steps);
      WorksInRunIff(cfg, front, id, runner);
      WorksIff(cfg, After(cfg, START, front), steps[n], id, runner);
      assert forall j | 0 <= j <= n :: front[..j] == steps[..j];
      assert forall j | 0 <= j < n :: front[j] == steps[j];
      if k :| WonAndKept(cfg, START, steps, k, id, runner) {
        assert k < n ==> WonAndKept(cfg, START, front, k, id, runner);
        assert k < n ==> !Stops(After(cfg, START, steps[..n]), steps[n], id, runner);
      }
      if (id, runner) in After(cfg, START, steps).executing {
        if k :| WonAndKept(cfg, START, front, k, id, runner) && !Stops(After(cfg, START, front), steps[n], id, runner) {
          assert WonAndKept(cfg, START, steps, k, id, runner);
        } else {
          assert WonAndKept(cfg, START, steps, n, id, runner);
        }
      }
    }
  }

  /** A row is there from its creation until it is deleted, which takes a job that is not active. */
  lemma ExistsIff(cfg: Config, w: World, s: Step, id: JobId)
    ensures id in Next(cfg, w, s).rows
       <==> (|| (s == Create(id) && id !in w.issued)
             || (id in w.rows && !(s == Delete(id) && w.rows[id].status !in {Pending, Running})))
  {
  }

  /** What a step makes of a row's status: one line per way it moves, and otherwise it stays. */
  lemma StatusMoves(cfg: Config, w: World, s: Step, id: JobId)
    requires Consistent(w) && id in w.rows && id in Next(cfg, w, s).rows
    ensures var was, is_ := w.rows[id].status, Next(cfg, w, s).rows[id].status;
            is_ == match s
                   case TryClaim(j, _) => if j == id && was == Pending then Running else was
                   case Conclude(j, runner, outcome) =>
                     if j == id && (id, runner) in w.executing && outcome in {Completed, Skipped, Failed} then outcome
                     else was
                   case Fail(j) => if j == id && id in w.selected && was in {Pending, Running} then Failed else was
                   case Expire(j) => if j == id && was == Completed then Outdated else was
                   case _ => was
  {
    match s
    case TryClaim(j, runner) => OneRow(w.rows, j, StatusIn({Pending}), Patch(Some(Running), Some(runner), Some(w.now)));
    case Heartbeat(j, runner) => OneRow(w.rows, j, LockedByIs(runner), Patch(None, None, Some(w.now)));
    case Conclude(j, runner, outcome) => OneRow(w.rows, j, LockedByIs(runner), Patch(Some(outcome), None, None));
    case Fail(j) => OneRow(w.rows, j, StatusIn({Pending, Running}), Patch(Some(Failed), None, None));
    case _ =>
  }

  /** A sweep remembers what it selected until it has failed it. */
  lemma SelectedIff(cfg: Config, w: World, s: Step, id: JobId)
    ensures id in Next(cfg, w, s).selected
       <==> (|| (s.Select? && id in w.rows && Dead(w.rows[id], cfg, w.now))
             || (id in w.selected && s != Fail(id)))
  {
  }

  /** What every reachable world satisfies. */
  predicate Consistent(w: World) {
    && w.rows.Keys <= w.issued && w.owner.Keys <= w.issued
    && (forall id | id in w.rows :: w.rows[id].lockedBy == Lookup(w.owner, id))
    && (forall id | id in w.rows :: w.rows[id].status.Pending? ==> id !in w.owner)
    && (forall id | id in w.rows :: w.rows[id].status.Running? ==> id in w.owner)
    && (forall id | id in w.rows && w.rows[id].heartbeatAt.Some? :: w.rows[id].heartbeatAt.value <= w.now)
    && (forall id | id in w.rows :: id in w.owner <==> w.rows[id].heartbeatAt.Some?)
    && (forall run | run in w.executing :: run.0 in w.owner && w.owner[run.0] == run.1)
  }

  lemma ClaimConsistent(cfg: Config, w: World, id: JobId, runner: Runner)
    requires Consistent(w)
    ensures Consistent(Next(cfg, w, TryClaim(id, runner)))
  {
    OneRow(w.rows, id, StatusIn({Pending}), Patch(Some(Running), Some(runner), Some(w.now)));
  }

  lemma HeartbeatConsistent(cfg: Config, w: World, id: JobId, runner: Runner)
    requires Consistent(w)
    ensures Consistent(Next(cfg, w, Heartbeat(id, runner)))
  {
    OneRow(w.rows, id, LockedByIs(runner), Patch(None, None, Some(w.now)));
  }

  lemma ConcludeConsistent(cfg: Config, w: World, id: JobId, runner: Runner, outcome: Status)
    requires Consistent(w)
    ensures Consistent(Next(cfg, w, Conclude(id, runner, outcome)))
  {
    OneRow(w.rows, id, LockedByIs(runner), Patch(Some(outcome), None, None));
  }

  lemma FailConsistent(cfg: Config, w: World, id: JobId)
    requires Consistent(w)
    ensures Consistent(Next(cfg, w, Fail(id)))
  {
    OneRow(w.rows, id, StatusIn({Pending, Running}), Patch(Some(Failed), None, None));
  }

  lemma NextConsistent(cfg: Config, w: World, s: Step)
    requires Consistent(w)
    ensures Consistent(Next(cfg, w, s))
  {
    match s
    case TryClaim(id, runner) => ClaimConsistent(cfg, w, id, runner);
    case Heartbeat(id, runner) => HeartbeatConsistent(cfg, w, id, runner);
    case Conclude(id, runner, outcome) => ConcludeConsistent(cfg, w, id, runner, outcome);
    case Fail(id) => FailConsistent(cfg, w, id);
    case _ =>
  }

  lemma {:induction false} RunConsistent(cfg: Config, w: World, steps: seq<Step>)
    requires Consistent(w)
    ensures Consistent(After(cfg, w, steps))
    decreases |steps|
  {
    if steps != [] {
      NextConsistent(cfg, w, steps[0]);
      RunConsistent(cfg, Next(cfg, w, steps[0]), steps[1..]);
    }
  }

  // ---- Exactly one runner ----

  /** How many claims of a job are won in a run. */
  function Wins(cfg: Config, w: World, steps: seq<Step>, id: JobId): nat
    decreases |steps|
  {
    if steps == [] then 0
    else (if WinsClaim(w, steps[0], id) then 1 else 0) + Wins(cfg, Next(cfg, w, steps[0]), steps[1..], id)
  }

  lemma {:induction false} WinsBounded(cfg: Config, w: World, steps: seq<Step>, id: JobId)
    requires Consistent(w)
    ensures id in w.owner ==> Wins(cfg, w, steps, id) == 0
    ensures Wins(cfg, w, steps, id) <= 1
    decreases |steps|
  {
    if steps != [] {
      NextConsistent(cfg, w, steps[0]);
      OwnerStays(cfg, w, steps[0], id);
      WinsBounded(cfg, Next(cfg, w, steps[0]), steps[1..], id);
    }
  }

  lemma OwnerStays(cfg: Config, w: World, s: Step, id: JobId)
    requires Consistent(w)
    ensures id in w.owner ==> Lookup(Next(cfg, w, s).owner, id) == Lookup(w.owner, id)
    ensures WinsClaim(w, s, id) ==> id in Next(cfg, w, s).owner
  {
  }

  /** Over every interleaving, a job has an owner exactly when a claim of it was won: never, or once. */
  lemma {:induction false} WinsIffOwned(cfg: Config, w: World, steps: seq<Step>, id: JobId)
    requires Consistent(w) && id !in w.owner
    ensures Wins(cfg, w, steps, id) == if id in After(cfg, w, steps).owner then 1 else 0
    decreases |steps|
  {
    if steps != [] {
      NextConsistent(cfg, w, steps[0]);
      OwnerStays(cfg, w, steps[0], id);
      var next := Next(cfg, w, steps[0]);
      if WinsClaim(w, steps[0], id) {
        WinsBounded(cfg, next, steps[1..], id);
        OwnerForGood(cfg, next, steps[1..], id);
      } else {
        WinsIffOwned(cfg, next, steps[1..], id);
      }
    }
  }

  lemma {:induction false} OwnerForGood(cfg: Config, w: World, steps: seq<Step>, id: JobId)
    requires Consistent(w) && id in w.owner
    ensures id in After(cfg, w, steps).owner
    decreases |steps|
  {
    if steps != [] {
      NextConsistent(cfg, w, steps[0]);
      OwnerStays(cfg, w, steps[0], id);
      OwnerForGood(cfg, Next(cfg, w, steps[0]), steps[1..], id);
    }
  }

  /** Over every interleaving, a job's claim is won at most once. */
  lemma AtMostOneWinner(cfg: Config, steps: seq<Step>, id: JobId)
    ensures Wins(cfg, START, steps, id) <= 1
  {
    WinsBounded(cfg, START, steps, id);
  }

  /** Over every interleaving, at most one runner executes a job, and it is the one the row names. */
  lemma AtMostOneExecutor(cfg: Config, steps: seq<Step>, id: JobId, a: Runner, b: Runner)
    requires (id, a) in After(cfg, START, steps).executing
    ensures (id, b) in After(cfg, START, steps).executing ==> a == b
    ensures id in After(cfg, START, steps).rows ==> Owns(After(cfg, START, steps), id, a)
  {
    RunConsistent(cfg, START, steps);
  }

  // ---- The fence ----

  /** Nothing ever clears or moves the lock of a claimed job: while the row exists it names the winner. */
  lemma {:induction false} LockOutlivesTheLease(cfg: Config, w: World, steps: seq<Step>, id: JobId)
    requires Consistent(w) && id in w.owner
    ensures Lookup(After(cfg, w, steps).owner, id) == Lookup(w.owner, id)
    ensures id in After(cfg, w, steps).rows ==> Owns(After(cfg, w, steps), id, w.owner[id])
    decreases |steps|
  {
    if steps != [] {
      NextConsistent(cfg, w, steps[0]);
      OwnerStays(cfg, w, steps[0], id);
      LockOutlivesTheLease(cfg, Next(cfg, w, steps[0]), steps[1..], id);
    }
  }

  /**
    What the fence really stops. After a runner won a claim, and whatever happened since —
    reaped or not — its fenced write affects its row exactly when the row was not deleted,
    and nobody else's fenced write ever does.
  */
  lemma FencedWriteLandsIff(cfg: Config, w: World, s: Step, steps: seq<Step>, id: JobId, runner: Runner)
    requires Consistent(w) && WinsClaim(w, s, id)
    ensures var later := After(cfg, Next(cfg, w, s), steps);
            |Matching(later.rows, Fence(id, runner))| == if id in later.rows && runner == s.runner then 1 else 0
  {
    NextConsistent(cfg, w, s);
    var next := Next(cfg, w, s);
    LockOutlivesTheLease(cfg, next, steps, id);
    RunConsistent(cfg, next, steps);
    OneRow(After(cfg, next, steps).rows, id, LockedByIs(runner), Patch(None, None, None));
  }

  /** A runner stalled past the limit is failed by the next sweep, and does not know. */
  lemma StalledRunnerIsReaped(cfg: Config, w: World, id: JobId, runner: Runner)
    requires Consistent(w) && (id, runner) in w.executing && id in w.rows && w.rows[id].status.Running?
    ensures var late := Next(cfg, w, Tick(cfg.staleAfter + 1));
            var reaped := Next(cfg, Next(cfg, late, Select), Fail(id));
            && id in reaped.rows && reaped.rows[id] == w.rows[id].(status := Failed)
            && reaped.executing == w.executing
  {
    var late := Next(cfg, w, Tick(cfg.staleAfter + 1));
    var swept := Next(cfg, late, Select);
    assert Dead(late.rows[id], cfg, late.now);
    assert id in swept.selected;
    OneRow(swept.rows, id, StatusIn({Pending, Running}), Patch(Some(Failed), None, None));
  }

  /**
    The failing case, from any point where a runner is at work: it stalls, the reaper fails
    its job, it resumes, its heartbeat is still accepted, and its result replaces the verdict.
  */
  lemma ReapedRunnerOverwrites(cfg: Config, w: World, id: JobId, runner: Runner)
    requires Consistent(w) && (id, runner) in w.executing && id in w.rows && w.rows[id].status.Running?
    ensures var reaped := Next(cfg, Next(cfg, Next(cfg, w, Tick(cfg.staleAfter + 1)), Select), Fail(id));
            var resumed := Next(cfg, reaped, Heartbeat(id, runner));
            var ended := Next(cfg, resumed, Conclude(id, runner, Completed));
            && id in reaped.rows && reaped.rows[id].status == Failed
            && (id, runner) in resumed.executing && Owns(resumed, id, runner)
            && id in ended.rows && ended.rows[id].status == Completed
  {
    StalledRunnerIsReaped(cfg, w, id, runner);
    var reaped := Next(cfg, Next(cfg, Next(cfg, w, Tick(cfg.staleAfter + 1)), Select), Fail(id));
    ReapedStillBeatsAndEnds(cfg, reaped, id, runner);
  }

  lemma ReapedStillBeatsAndEnds(cfg: Config, w: World, id: JobId, runner: Runner)
    requires (id, runner) in w.executing && Owns(w, id, runner)
    ensures var resumed := Next(cfg, w, Heartbeat(id, runner));
            var ended := Next(cfg, resumed, Conclude(id, runner, Completed));
            && (id, runner) in resumed.executing && Owns(resumed, id, runner)
            && id in ended.rows && ended.rows[id].status == Completed
  {
    OneRow(w.rows, id, LockedByIs(runner), Patch(None, None, Some(w.now)));
    var resumed := Next(cfg, w, Heartbeat(id, runner));
    OneRow(resumed.rows, id, LockedByIs(runner), Patch(Some(Completed), None, None));
  }

  /** Time passes, a sweep selects, and the job is failed if it was selected. */
  function Swept(cfg: Config, w: World, id: JobId, ticks: nat): World {
    Next(cfg, Next(cfg, Next(cfg, w, Tick(ticks)), Select), Fail(id))
  }

  /**
    How long a job may be silent. One that nobody ever claimed is failed exactly after the
    orphan grace, counted from its creation; one that was just claimed, or just heard from,
    exactly after the stale limit.
  */
  lemma SilenceAllowed(cfg: Config, w: World, id: JobId, runner: Runner, ticks: nat)
    requires Consistent(w) && id !in w.selected
    ensures id !in w.issued ==>
      var swept := Swept(cfg, Next(cfg, w, Create(id)), id, ticks);
      id in swept.rows && swept.rows[id].status == if ticks > cfg.orphanGrace then Failed else Pending
    ensures WinsClaim(w, TryClaim(id, runner), id) ==>
      var swept := Swept(cfg, Next(cfg, w, TryClaim(id, runner)), id, ticks);
      id in swept.rows && swept.rows[id].status == if ticks > cfg.staleAfter then Failed else Running
    ensures (id, runner) in w.executing && id in w.rows && w.rows[id].status.Running? ==>
      var swept := Swept(cfg, Next(cfg, w, Heartbeat(id, runner)), id, ticks);
      id in swept.rows && swept.rows[id].status == if ticks > cfg.staleAfter then Failed else Running
  {
    if id !in w.issued {
      SweptIff(cfg, Next(cfg, w, Create(id)), id, ticks);
    }
    if WinsClaim(w, TryClaim(id, runner), id) {
      OneRow(w.rows, id, StatusIn({Pending}), Patch(Some(Running), Some(runner), Some(w.now)));
      SweptIff(cfg, Next(cfg, w, TryClaim(id, runner)), id, ticks);
    }
    if (id, runner) in w.executing && id in w.rows && w.rows[id].status.Running? {
      OneRow(w.rows, id, LockedByIs(runner), Patch(None, None, Some(w.now)));
      SweptIff(cfg, Next(cfg, w, Heartbeat(id, runner)), id, ticks);
    }
  }

  lemma SweptIff(cfg: Config, w: World, id: JobId, ticks: nat)
    requires id in w.rows && id !in w.selected
    ensures Swept(cfg, w, id, ticks).rows
         == if Dead(w.rows[id], cfg, w.now + ticks) then w.rows[id := w.rows[id].(status := Failed)] else w.rows
  {
    var late := Next(cfg, w, Tick(ticks));
    var selected := Next(cfg, late, Select);
    OneRow(selected.rows, id, StatusIn({Pending, Running}), Patch(Some(Failed), None, None));
  }

  // ---- Terminal writes ----

  predicate ConcludesEffectively(w: World, s: Step, id: JobId) {
    s.Conclude? && s.id == id && !s.outcome.Pending? && !s.outcome.Running? && !s.outcome.Outdated?
    && (id, s.runner) in w.executing && id in w.rows
  }

  predicate FailsEffectively(w: World, s: Step, id: JobId) {
    s.Fail? && s.id == id && id in w.selected && id in w.rows && w.rows[id].Active()
  }

  predicate ExpiresEffectively(w: World, s: Step, id: JobId) {
    s.Expire? && s.id == id && id in w.rows && w.rows[id].status.Completed?
  }

  predicate WritesTerminal(w: World, s: Step, id: JobId) {
    ConcludesEffectively(w, s, id) || FailsEffectively(w, s, id) || ExpiresEffectively(w, s, id)
  }

  /** How many times a run writes a terminal status into a job's row. */
  function TerminalWrites(cfg: Config, w: World, steps: seq<Step>, id: JobId): nat
    decreases |steps|
  {
    if steps == [] then 0
    else (if WritesTerminal(w, steps[0], id) then 1 else 0)
         + TerminalWrites(cfg, Next(cfg, w, steps[0]), steps[1..], id)
  }

  /**
    Every concluding write of the run found its job running, which a status condition in the
    fence would enforce, and no listing marked it outdated.
  */
  predicate EndsOnce(cfg: Config, w: World, steps: seq<Step>, id: JobId)
    decreases |steps|
  {
    steps == []
    || (&& (ConcludesEffectively(w, steps[0], id) ==> w.rows[id].status.Running?)
        && !ExpiresEffectively(w, steps[0], id)
        && EndsOnce(cfg, Next(cfg, w, steps[0]), steps[1..], id))
  }

  /** What is counted are the writes that leave a terminal status, and no other step makes one. */
  lemma TerminalOnlyByWrites(cfg: Config, w: World, s: Step, id: JobId)
    requires Consistent(w)
    ensures var next := Next(cfg, w, s);
            && (WritesTerminal(w, s, id) ==> id in next.rows && next.rows[id].status !in {Pending, Running})
            && (WritesTerminal(w, s, id) && !s.Conclude? ==>
                  id in w.rows && w.rows[id].status != next.rows[id].status)
            && (id in next.rows && next.rows[id].status !in {Pending, Running} && !WritesTerminal(w, s, id) ==>
                  id in w.rows && w.rows[id].status == next.rows[id].status)
  {
    if id in w.rows && id in Next(cfg, w, s).rows {
      StatusMoves(cfg, w, s, id);
    }
    ExistsIff(cfg, w, s, id);
  }

  predicate Settled(w: World, id: JobId) {
    id in w.issued && (id in w.rows ==> !w.rows[id].Active())
  }

  lemma SettledStays(cfg: Config, w: World, s: Step, id: JobId)
    requires Consistent(w) && Settled(w, id)
    ensures Settled(Next(cfg, w, s), id)
  {
    match s
    case TryClaim(j, runner) => OneRow(w.rows, j, StatusIn({Pending}), Patch(Some(Running), Some(runner), Some(w.now)));
    case Heartbeat(j, runner) => OneRow(w.rows, j, LockedByIs(runner), Patch(None, None, Some(w.now)));
    case Conclude(j, runner, outcome) => OneRow(w.rows, j, LockedByIs(runner), Patch(Some(outcome), None, None));
    case Fail(j) => OneRow(w.rows, j, StatusIn({Pending, Running}), Patch(Some(Failed), None, None));
    case _ =>
  }

  lemma SettlesIff(cfg: Config, w: World, s: Step, id: JobId)
    requires Consistent(w) && !Settled(w, id)
    ensures Settled(Next(cfg, w, s), id) <==> WritesTerminal(w, s, id)
    ensures !ExpiresEffectively(w, s, id)
  {
    match s
    case TryClaim(j, runner) => OneRow(w.rows, j, StatusIn({Pending}), Patch(Some(Running), Some(runner), Some(w.now)));
    case Heartbeat(j, runner) => OneRow(w.rows, j, LockedByIs(runner), Patch(None, None, Some(w.now)));
    case Conclude(j, runner, outcome) => OneRow(w.rows, j, LockedByIs(runner), Patch(Some(outcome), None, None));
    case Fail(j) => OneRow(w.rows, j, StatusIn({Pending, Running}), Patch(Some(Failed), None, None));
    case _ =>
  }

  lemma {:induction false} TerminalWritesFrom(cfg: Config, w: World, steps: seq<Step>, id: JobId)
    requires Consistent(w)
    ensures TerminalWrites(cfg, w, steps, id) <= (if Settled(w, id) then 0 else 1)
       <==> EndsOnce(cfg, w, steps, id)
    decreases |steps|
  {
    if steps != [] {
      NextConsistent(cfg, w, steps[0]);
      if Settled(w, id) {
        SettledStays(cfg, w, steps[0], id);
      } else {
        SettlesIff(cfg, w, steps[0], id);
      }
      TerminalWritesFrom(cfg, Next(cfg, w, steps[0]), steps[1..], id);
    }
  }

  /**
    Over every interleaving, a job gets at most one terminal write exactly when no runner
    concludes after the reaper and no listing marks it outdated.
  */
  lemma OneTerminalWriteIff(cfg: Config, steps: seq<Step>, id: JobId)
    ensures TerminalWrites(cfg, START, steps, id) <= 1 <==> EndsOnce(cfg, START, steps, id)
  {
    TerminalWritesFrom(cfg, START, steps, id);
  }

  // ---- The reaper ----

  predicate SignOfLife(w: World, s: Step, id: JobId) {
    WinsClaim(w, s, id) || (s.Heartbeat? && s.id == id && (id, s.runner) in w.executing && Owns(w, id, s.runner))
  }

  predicate Silent(cfg: Config, w: World, steps: seq<Step>, id: JobId)
    decreases |steps|
  {
    steps == [] || (!SignOfLife(w, steps[0], id) && Silent(cfg, Next(cfg, w, steps[0]), steps[1..], id))
  }

  /** Whether the job's last sign of life, or its creation, is as old as the sweep at time `at` requires. */
  predicate Stale(job: Job, cfg: Config, at: nat) {
    match job.heartbeatAt
    case Some(t) => t + cfg.staleAfter < at
    case None => job.createdAt + cfg.orphanGrace < at
  }

  lemma LifeStep(cfg: Config, w: World, s: Step, id: JobId)
    requires Consistent(w) && id in w.rows && id in Next(cfg, w, s).rows
    ensures var job, job' := w.rows[id], Next(cfg, w, s).rows[id];
            && job'.createdAt == job.createdAt
            && job'.heartbeatAt == if SignOfLife(w, s, id) then Some(w.now) else job.heartbeatAt
  {
    match s
    case TryClaim(j, runner) => OneRow(w.rows, j, StatusIn({Pending}), Patch(Some(Running), Some(runner), Some(w.now)));
    case Heartbeat(j, runner) => OneRow(w.rows, j, LockedByIs(runner), Patch(None, None, Some(w.now)));
    case Conclude(j, runner, outcome) => OneRow(w.rows, j, LockedByIs(runner), Patch(Some(outcome), None, None));
    case Fail(j) => OneRow(w.rows, j, StatusIn({Pending, Running}), Patch(Some(Failed), None, None));
    case _ =>
  }

  lemma GoneStaysGone(cfg: Config, w: World, s: Step, id: JobId)
    requires Consistent(w) && id in w.issued && id !in w.rows
    ensures id in Next(cfg, w, s).issued && id !in Next(cfg, w, s).rows
  {
  }

  lemma {:induction false} StaleUnlessHeardFrom(cfg: Config, w: World, steps: seq<Step>, id: JobId, at: nat)
    requires Consistent(w) && id in w.issued && at <= w.now
    requires id in w.rows && id in After(cfg, w, steps).rows
    ensures Stale(After(cfg, w, steps).rows[id], cfg, at) <==> Silent(cfg, w, steps, id) && Stale(w.rows[id], cfg, at)
    decreases |steps|
  {
    if steps != [] {
      NextConsistent(cfg, w, steps[0]);
      var next := Next(cfg, w, steps[0]);
      if id !in next.rows {
        StaysGone(cfg, next, steps[1..], id);
        assert false;
      } else {
        LifeStep(cfg, w, steps[0], id);
        StaleUnlessHeardFrom(cfg, next, steps[1..], id, at);
      }
    }
  }

  lemma {:induction false} StaysGone(cfg: Config, w: World, steps: seq<Step>, id: JobId)
    requires Consistent(w) && id in w.issued && id !in w.rows
    ensures id !in After(cfg, w, steps).rows
    decreases |steps|
  {
    if steps != [] {
      NextConsistent(cfg, w, steps[0]);
      GoneStaysGone(cfg, w, steps[0], id);
      StaysGone(cfg, Next(cfg, w, steps[0]), steps[1..], id);
    }
  }

  /**
    The sweep reads, then fails job by job on status alone. A job it selected is still dead
    when it is failed exactly when the job was not heard from in between.
  */
  lemma ReapsOnlyTheDeadIff(cfg: Config, w: World, between: seq<Step>, id: JobId)
    requires Consistent(w) && id in DeadJobs(w.rows, cfg, w.now)
    requires FailsEffectively(After(cfg, Next(cfg, w, Select), between), Fail(id), id)
    ensures Dead(After(cfg, Next(cfg, w, Select), between).rows[id], cfg, w.now)
       <==> Silent(cfg, Next(cfg, w, Select), between, id)
  {
    NextConsistent(cfg, w, Select);
    StaleUnlessHeardFrom(cfg, Next(cfg, w, Select), between, id, w.now);
  }
}
