/**
  Admitting a job: look for jobs in progress, then create one, under an advisory lock. The
  three API triggers share one lock. The backup scheduler takes another one, and looks only
  for backups. The lock transaction of a trigger is bound to a deadline; when that passes
  the lock is released under the trigger's feet.
*/
module JobAdmission {

  datatype Kind = Export | Backup | Restore

  datatype Admitter = Trigger(kind: Kind) | Scheduler
  {
    function Creates(): Kind {
      if Scheduler? then Backup else kind
    }

    /** The kinds of job in progress that make it refuse. */
    function Checks(): set<Kind> {
      match this
      case Scheduler => {Backup}
      case Trigger(Export) => {Export, Restore}
      case Trigger(Backup) => {Backup, Restore}
      case Trigger(Restore) => {Export, Backup, Restore}
    }
  }

  /** A restore excludes everything; otherwise only jobs of one kind exclude each other. */
  predicate Exclude(a: Kind, b: Kind) {
    a == b || a.Restore? || b.Restore?
  }

  datatype Proc = Proc(admitter: Admitter, locked: bool, clear: bool)

  /** `procs` are inside the critical section, `jobs` are pending or running. */
  datatype World = World(procs: map<nat, Proc>, jobs: map<nat, Kind>)

  datatype Step =
    | Enter(p: nat, admitter: Admitter)
    | Check(p: nat)
    | Create(p: nat, job: nat)
    | Leave(p: nat)
    | Expire(p: nat)
    | End(job: nat)

  const START := World(map[], map[])

  predicate SameLock(a: Admitter, b: Admitter) {
    a.Scheduler? == b.Scheduler?
  }

  predicate LockFree(w: World, a: Admitter) {
    forall p | p in w.procs && w.procs[p].locked :: !SameLock(w.procs[p].admitter, a)
  }

  predicate NothingInProgress(w: World, a: Admitter) {
    forall j | j in w.jobs :: w.jobs[j] !in a.Checks()
  }

  function Next(w: World, s: Step): World {
    match s
    case Enter(p, a) =>
      if p in w.procs || !LockFree(w, a) then w else w.(procs := w.procs[p := Proc(a, true, false)])
    case Check(p) =>
      if p !in w.procs then w
      else if NothingInProgress(w, w.procs[p].admitter) then w.(procs := w.procs[p := w.procs[p].(clear := true)])
      else w.(procs := w.procs - {p})
    case Create(p, job) =>
      if p !in w.procs || !w.procs[p].clear || job in w.jobs then w
      else World(w.procs - {p}, w.jobs[job := w.procs[p].admitter.Creates()])
    case Leave(p) => w.(procs := w.procs - {p})
    case Expire(p) =>
      if p !in w.procs || w.procs[p].admitter.Scheduler? then w
      else w.(procs := w.procs[p := w.procs[p].(locked := false)])
    case End(job) => w.(jobs := w.jobs - {job})
  }

  function After(w: World, steps: seq<Step>): World
    decreases |steps|
  {
    if steps == [] then w else After(Next(w, steps[0]), steps[1..])
  }

  predicate Exclusive(w: World) {
    forall i, j | i in w.jobs && j in w.jobs && i != j :: !Exclude(w.jobs[i], w.jobs[j])
  }

  /** So a restore runs alone, and no two jobs of one kind run together. */
  lemma ExclusiveMeans(w: World)
    ensures Exclusive(w)
       <==> (&& (forall i, j | i in w.jobs && j in w.jobs && w.jobs[i] == w.jobs[j] :: i == j)
             && (forall i, j | i in w.jobs && j in w.jobs && w.jobs[i] == Restore :: i == j))
  {
  }

  /**
    One admission that nobody disturbs: the job is created exactly when its lock is free and
    nothing that excludes it is in progress; the scheduler looks for backups only. Either way
    the section is left.
  */
  lemma UndisturbedAdmission(w: World, p: nat, a: Admitter, job: nat)
    requires p !in w.procs && job !in w.jobs
    ensures var done := After(w, [Enter(p, a), Check(p), Create(p, job)]);
            && (job in done.jobs
                <==> (&& (forall q | q in w.procs && w.procs[q].locked ::
                            w.procs[q].admitter.Scheduler? != a.Scheduler?)
                      && forall j | j in w.jobs ::
                           if a.Scheduler? then w.jobs[j] != Backup else !Exclude(a.Creates(), w.jobs[j])))
            && (job in done.jobs ==> done.jobs == w.jobs[job := if a.Scheduler? then Backup else a.kind])
            && (job !in done.jobs ==> done.jobs == w.jobs)
            && done.procs == w.procs
  {
    var entered := Next(w, Enter(p, a));
    var checked := Next(entered, Check(p));
    var steps := [Enter(p, a), Check(p), Create(p, job)];
    var last := Create(p, job);
    assert steps[1..] == [Check(p), last] && [Check(p), last][1..] == [last] && [last][1..] == [];
    assert After(checked, [last]) == Next(checked, last);
    assert After(entered, [Check(p), last]) == After(checked, [last]);
    assert After(w, steps) == After(entered, [Check(p), last]);
    assert w.procs[p := Proc(a, true, false)] - {p} == w.procs;
    assert w.procs[p := Proc(a, true, true)] - {p} == w.procs;
    if LockFree(w, a) {
      assert entered.procs[p] == Proc(a, true, false);
      assert NothingInProgress(entered, a) <==> forall j | j in w.jobs ::
          if a.Scheduler? then w.jobs[j] != Backup else !Exclude(a.Creates(), w.jobs[j]);
    }
  }

  /** Who is in the section, step by step. A check that finds something, a creation and giving up leave it. */
  lemma InsideIff(w: World, s: Step, p: nat)
    ensures p in Next(w, s).procs
       <==> (|| (s.Enter? && s.p == p && p !in w.procs && LockFree(w, s.admitter))
             || (&& p in w.procs && s != Leave(p)
                 && !(s == Check(p) && exists j :: j in w.jobs && w.jobs[j] in w.procs[p].admitter.Checks())
                 && !(s.Create? && s.p == p && w.procs[p].clear && s.job !in w.jobs)))
  {
  }

  /** What one in the section knows and holds: only its own check clears it, only its deadline takes its lock. */
  lemma ProcMoves(w: World, s: Step, p: nat)
    requires p in w.procs && p in Next(w, s).procs
    ensures var was, is_ := w.procs[p], Next(w, s).procs[p];
            && is_.admitter == was.admitter
            && (is_.clear <==> was.clear || s == Check(p))
            && (is_.locked <==> was.locked && !(s == Expire(p) && !was.admitter.Scheduler?))
  {
  }

  /** Which jobs are in progress, step by step. */
  lemma InProgressIff(w: World, s: Step, job: nat)
    ensures job in Next(w, s).jobs
       <==> (|| (s.Create? && s.job == job && s.p in w.procs && w.procs[s.p].clear && job !in w.jobs)
             || (job in w.jobs && s != End(job)))
    ensures job in w.jobs && job in Next(w, s).jobs ==> Next(w, s).jobs[job] == w.jobs[job]
  {
  }

  /** The steps of a deployment where these admitters are in use, and deadlines may pass or not. */
  predicate Uses(steps: seq<Step>, admitters: set<Admitter>, expiring: bool) {
    forall i | 0 <= i < |steps| ::
      (steps[i].Enter? ==> steps[i].admitter in admitters) && (steps[i].Expire? ==> expiring)
  }

  // ---- The lock is enough for some deployments ----

  predicate LocksSuffice(admitters: set<Admitter>, expiring: bool) {
    && (Scheduler in admitters ==> Trigger(Backup) !in admitters && Trigger(Restore) !in admitters)
    && (expiring ==> forall a | a in admitters :: a.Scheduler?)
  }

  predicate Guarded(w: World, admitters: set<Admitter>) {
    && Exclusive(w)
    && (forall p | p in w.procs :: w.procs[p].admitter in admitters && w.procs[p].locked)
    && (forall p, q | p in w.procs && q in w.procs && p != q :: !SameLock(w.procs[p].admitter, w.procs[q].admitter))
    && (forall p | p in w.procs && w.procs[p].clear :: NothingInProgress(w, w.procs[p].admitter))
    && (forall j | j in w.jobs :: exists a :: a in admitters && a.Creates() == w.jobs[j])
  }

  lemma GuardedStep(w: World, s: Step, admitters: set<Admitter>, expiring: bool)
    requires LocksSuffice(admitters, expiring) && Guarded(w, admitters)
    requires (s.Enter? ==> s.admitter in admitters) && (s.Expire? ==> expiring)
    ensures Guarded(Next(w, s), admitters)
  {
    if s.Create? && Next(w, s) != w {
      var a := w.procs[s.p].admitter;
      assert a in admitters;
      forall j | j in w.jobs
        ensures !Exclude(w.jobs[j], a.Creates())
      {
        var b :| b in admitters && b.Creates() == w.jobs[j];
        assert w.jobs[j] !in a.Checks();
      }
      forall q | q in w.procs && q != s.p
        ensures a.Creates() !in w.procs[q].admitter.Checks()
      {
        assert !SameLock(a, w.procs[q].admitter);
      }
    }
  }

  lemma {:induction false} GuardedRun(w: World, steps: seq<Step>, admitters: set<Admitter>, expiring: bool)
    requires LocksSuffice(admitters, expiring) && Guarded(w, admitters) && Uses(steps, admitters, expiring)
    ensures Guarded(After(w, steps), admitters)
    decreases |steps|
  {
    if steps != [] {
      GuardedStep(w, steps[0], admitters, expiring);
      assert forall i | 0 <= i < |steps| - 1 :: steps[1..][i] == steps[i + 1];
      GuardedRun(Next(w, steps[0]), steps[1..], admitters, expiring);
    }
  }

  // ---- And not for the others ----

  /** Both look before either creates. */
  function Race(a: Admitter, b: Admitter, expiring: bool): seq<Step> {
    [Enter(0, a)] + (if expiring then [Expire(0)] else [])
    + [Enter(1, b), Check(0), Check(1), Create(0, 0), Create(1, 1)]
  }

  lemma {:induction false} AfterFront(w: World, front: seq<Step>, back: seq<Step>)
    ensures After(w, front + back) == After(After(w, front), back)
    decreases |front|
  {
    if front == [] {
      assert front + back == back;
    } else {
      assert (front + back)[1..] == front[1..] + back;
      AfterFront(Next(w, front[0]), front[1..], back);
    }
  }

  lemma BothCreate(a: Admitter, b: Admitter, expiring: bool)
    requires !SameLock(a, b) || (expiring && a.Trigger?)
    ensures After(START, Race(a, b, expiring)).jobs == map[0 := a.Creates(), 1 := b.Creates()]
  {
    var entering := [Enter(0, a)] + if expiring then [Expire(0)] else [];
    var rest := [Enter(1, b), Check(0), Check(1), Create(0, 0), Create(1, 1)];
    AfterFront(START, entering, rest);
    assert Race(a, b, expiring) == entering + rest;
    var w := World(map[0 := Proc(a, !expiring || a.Scheduler?, false)], map[]);
    assert After(START, entering) == w by {
      var entered := Next(START, Enter(0, a));
      if expiring {
        assert entering[1..] == [Expire(0)] && [Expire(0)][1..] == [];
        assert After(entered, [Expire(0)]) == After(Next(entered, Expire(0)), []);
      } else {
        assert entering == [Enter(0, a)] && entering[1..] == [];
      }
    }
    CreateRest(a, b, w, rest);
  }

  lemma CreateRest(a: Admitter, b: Admitter, w: World, rest: seq<Step>)
    requires rest == [Enter(1, b), Check(0), Check(1), Create(0, 0), Create(1, 1)]
    requires w.jobs == map[] && w.procs.Keys == {0} && w.procs[0].admitter == a && !w.procs[0].clear
    requires LockFree(w, b)
    ensures After(w, rest).jobs == map[0 := a.Creates(), 1 := b.Creates()]
  {
    var w1 := Next(w, rest[0]);
    var w2 := Next(w1, rest[1]);
    var w3 := Next(w2, rest[2]);
    var w4 := Next(w3, rest[3]);
    var w5 := Next(w4, rest[4]);
    assert w3.procs[0].clear && w3.procs[1].clear && w3.procs[0].admitter == a && w3.procs[1].admitter == b;
    assert w5.jobs == map[0 := a.Creates(), 1 := b.Creates()];
    assert rest[1..][1..] == rest[2..] && rest[2..][1..] == rest[3..];
    assert rest[3..][1..] == rest[4..] && rest[4..][1..] == [];
    assert After(w, rest) == After(w1, rest[1..]);
    assert After(w1, rest[1..]) == After(w2, rest[2..]);
    assert After(w2, rest[2..]) == After(w3, rest[3..]);
    assert After(w3, rest[3..]) == After(w4, rest[4..]);
    assert After(w4, rest[4..]) == After(w5, []);
  }

  lemma SomeRaceBreaksExclusion(admitters: set<Admitter>, expiring: bool) returns (steps: seq<Step>)
    requires !LocksSuffice(admitters, expiring)
    ensures Uses(steps, admitters, expiring) && !Exclusive(After(START, steps))
  {
    var a, b;
    var e := false;
    if Scheduler in admitters && Trigger(Backup) in admitters {
      a, b := Trigger(Backup), Scheduler;
    } else if Scheduler in admitters && Trigger(Restore) in admitters {
      a, b := Trigger(Restore), Scheduler;
    } else {
      a :| a in admitters && !a.Scheduler?;
      b, e := a, true;
    }
    steps := Race(a, b, e);
    BothCreate(a, b, e);
    var w := After(START, steps);
    assert 0 in w.jobs && 1 in w.jobs && Exclude(w.jobs[0], w.jobs[1]);
  }

  /**
    Two conflicting jobs are never in progress at once, under every interleaving, exactly
    when the scheduler is not used together with the backup or restore trigger and no
    trigger outlives its lock.
  */
  lemma AdmissionExcludesIff(admitters: set<Admitter>, expiring: bool)
    ensures (forall steps | Uses(steps, admitters, expiring) :: Exclusive(After(START, steps)))
       <==> LocksSuffice(admitters, expiring)
  {
    if LocksSuffice(admitters, expiring) {
      forall steps | Uses(steps, admitters, expiring)
        ensures Exclusive(After(START, steps))
      {
        GuardedRun(START, steps, admitters, expiring);
      }
    } else {
      var steps := SomeRaceBreaksExclusion(admitters, expiring);
    }
  }
}
