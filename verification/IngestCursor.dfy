/**
  The divergence ingester's cursor for one data center, polled by any number of replicas. A
  replica takes the latest report, reads the cursor, claims the report by advancing the
  cursor, applies it, and gives the claim back if applying fails. Then it polls again.

  A publication time is a tick; 0 is the zero time that a missing cursor reads as. Reports
  are published in order of time, and the latest file is the latest report. A call that
  fails without effect leaves the replica idle, which is `Crash`.
*/
module IngestCursor {
  import opened Common

  type Replica(==, !new)

  /**
    Where a replica is in its one poll loop. From `Read` on it remembers the cursor as read.
    A won claim also remembers `was`, the cursor it replaced; the code does not have that, the
    model records it.
  */
  datatype Phase =
    | Fetched(t: nat)
    | Read(t: nat, last: nat)
    | Retrying(t: nat, last: nat)
    | Won(t: nat, last: nat, was: Option<nat>)

  datatype World = World(latest: Option<nat>, cursor: Option<nat>, busy: map<Replica, Phase>, applied: seq<nat>)

  datatype Step =
    | Publish(t: nat)
    | Fetch(r: Replica)
    | ReadCursor(r: Replica)
    | Update(r: Replica)
    | Insert(r: Replica)
    | Apply(r: Replica)
    | FailApply(r: Replica)
    | Crash(r: Replica)
    | Reset

  const START := World(None, None, map[], [])

  function Level(at: Option<nat>): int {
    if at.Some? then at.value else -1
  }

  function AsRead(cursor: Option<nat>): nat {
    if cursor.Some? then cursor.value else 0
  }

  // ---- The cursor row ----

  /** The conditional update finds a row: there is a cursor, and it is older than the report. */
  predicate Hits(at: Option<nat>, t: nat) {
    at.Some? && at.value < t
  }

  /** The cursor after an attempt to advance it to a report. */
  function Advanced(at: Option<nat>, t: nat): Option<nat> {
    if Level(at) < t then Some(t) else at
  }

  /** The cursor after a claim on `t` is given back with the cursor its holder had read. */
  function GivenBack(at: Option<nat>, t: nat, last: nat): Option<nat> {
    if at == Some(t) then Some(last) else at
  }

  class CursorRow {
    var at: Option<nat>

    constructor ()
      ensures at == None
    {
      at := None;
    }

    method UpdateOlder(t: nat) returns (affected: nat)
      modifies this
      ensures affected == if Hits(old(at), t) then 1 else 0
      ensures at == if Hits(old(at), t) then Some(t) else old(at)
    {
      if at.Some? && at.value < t {
        at := Some(t);
        return 1;
      }
      return 0;
    }

    /** The unique index refuses a second cursor. */
    method Insert(t: nat) returns (inserted: bool)
      modifies this
      ensures inserted <==> old(at).None?
      ensures at == if old(at).None? then Some(t) else old(at)
    {
      if at.Some? {
        return false;
      }
      at := Some(t);
      return true;
    }

    /** Moves the cursor forward and says whether this call moved it: exactly when the report is newer. */
    method Advance(t: nat) returns (won: bool)
      modifies this
      ensures won <==> Level(old(at)) < t
      ensures at == Advanced(old(at), t)
    {
      var n := UpdateOlder(t);
      if n > 0 {
        return true;
      }
      won := Insert(t);
    }

    method Release(t: nat, last: nat)
      modifies this
      ensures at == GivenBack(old(at), t, last)
    {
      if at == Some(t) {
        at := Some(last);
      }
    }
  }

  /** The cursor after others tried to advance it to these reports. */
  function AdvancedBy(at: Option<nat>, others: seq<nat>): Option<nat> {
    if others == [] then at else Advanced(AdvancedBy(at, others[..|others| - 1]), others[|others| - 1])
  }

  /**
    Claim, then give back, with any attempts by others in between. The cursor is as the
    holder had read it, exactly when nobody claimed a newer report; otherwise the newer
    claim stands. So the claim is undone exactly when, besides, the reading was not outdated.
  */
  lemma ReleaseUndoesOwnClaimOnly(before: Option<nat>, t: nat, last: nat, others: seq<nat>)
    requires Level(before) < t && last <= t
    ensures var now := AdvancedBy(Advanced(before, t), others);
            var after := GivenBack(now, t, last);
            && (after == Some(last) <==> forall k | 0 <= k < |others| :: others[k] <= t)
            && ((exists k :: 0 <= k < |others| && others[k] > t) ==> after == now && Level(after) > t)
            && (AsRead(after) == AsRead(before)
                <==> last == AsRead(before) && forall k | 0 <= k < |others| :: others[k] <= t)
  {
    AdvancedByIsGreatest(Some(t), others);
  }

  lemma {:induction false} AdvancedByIsGreatest(at: Option<nat>, others: seq<nat>)
    ensures Level(AdvancedBy(at, others)) >= Level(at)
    ensures forall k | 0 <= k < |others| :: others[k] <= Level(AdvancedBy(at, others))
    ensures AdvancedBy(at, others) == at || exists k :: 0 <= k < |others| && AdvancedBy(at, others) == Some(others[k])
  {
    if others != [] {
      AdvancedByIsGreatest(at, others[..|others| - 1]);
    }
  }

  // ---- Interleavings ----

  function Next(w: World, s: Step): World {
    match s
    case Publish(t) => if t <= Level(w.latest) then w else w.(latest := Some(t))
    case Fetch(r) =>
      if r in w.busy || w.latest.None? then w else w.(busy := w.busy[r := Fetched(w.latest.value)])
    case ReadCursor(r) =>
      if r !in w.busy || !w.busy[r].Fetched? then w
      else if w.busy[r].t <= Level(w.cursor) then w.(busy := w.busy - {r})
      else w.(busy := w.busy[r := Read(w.busy[r].t, AsRead(w.cursor))])
    case Update(r) =>
      if r !in w.busy || !w.busy[r].Read? then w
      else
        var claim := w.busy[r];
        if Hits(w.cursor, claim.t)
        then w.(cursor := Some(claim.t), busy := w.busy[r := Won(claim.t, claim.last, w.cursor)])
        else w.(busy := w.busy[r := Retrying(claim.t, claim.last)])
    case Insert(r) =>
      if r !in w.busy || !w.busy[r].Retrying? then w
      else
        var claim := w.busy[r];
        if w.cursor.None? then w.(cursor := Some(claim.t), busy := w.busy[r := Won(claim.t, claim.last, None)])
        else w.(busy := w.busy - {r})
    case Apply(r) =>
      if r !in w.busy || !w.busy[r].Won? then w
      else w.(busy := w.busy - {r}, applied := w.applied + [w.busy[r].t])
    case FailApply(r) =>
      if r !in w.busy || !w.busy[r].Won? then w
      else w.(busy := w.busy - {r}, cursor := GivenBack(w.cursor, w.busy[r].t, w.busy[r].last))
    case Crash(r) => w.(busy := w.busy - {r})
    case Reset => w.(cursor := None)
  }

  /**
    One replica, step by step: it is at work from taking a report until the report proves to
    be old, the claim is lost, the apply is over, or it crashes; and it stays with its report.
  */
  lemma ReplicaMoves(w: World, s: Step, r: Replica)
    ensures r in Next(w, s).busy
       <==> (|| (s == Fetch(r) && r !in w.busy && w.latest.Some?)
             || (&& r in w.busy && s != Crash(r)
                 && !(s == ReadCursor(r) && w.busy[r].Fetched? && w.cursor.Some? && w.busy[r].t <= w.cursor.value)
                 && !(s == Insert(r) && w.busy[r].Retrying? && w.cursor.Some?)
                 && !((s == Apply(r) || s == FailApply(r)) && w.busy[r].Won?)))
    ensures r in Next(w, s).busy ==>
      Next(w, s).busy[r].t == if r in w.busy then w.busy[r].t else w.latest.value
    ensures r in Next(w, s).busy && r in w.busy && !w.busy[r].Fetched? ==> Next(w, s).busy[r].last == w.busy[r].last
    ensures r in Next(w, s).busy && Next(w, s).busy[r].Read? && !(r in w.busy && w.busy[r].Read?) ==>
      Next(w, s).busy[r].last == if w.cursor.Some? then w.cursor.value else 0
  {
  }

  /** Which claims are won: by the update when there is an older cursor, by the insert when there is none. */
  lemma WinsIff(w: World, s: Step, r: Replica)
    requires r in w.busy && !w.busy[r].Won?
    ensures r in Next(w, s).busy && Next(w, s).busy[r].Won?
       <==> (|| (s == Update(r) && w.busy[r].Read? && w.cursor.Some? && w.cursor.value < w.busy[r].t)
             || (s == Insert(r) && w.busy[r].Retrying? && w.cursor.None?))
  {
  }

  /** What is applied, and where the cursor and the store stand, step by step. */
  lemma RecordMoves(w: World, s: Step)
    ensures var next := Next(w, s);
            && next.applied
               == (if s.Apply? && s.r in w.busy && w.busy[s.r].Won? then w.applied + [w.busy[s.r].t] else w.applied)
            && next.latest
               == (if s.Publish? && (w.latest.None? || w.latest.value < s.t) then Some(s.t) else w.latest)
            && next.cursor
               == (if s.Reset? then None
                   else if s.Update? && s.r in next.busy && next.busy[s.r].Won? && s.r in w.busy && !w.busy[s.r].Won?
                        then Some(w.busy[s.r].t)
                   else if s.Insert? && s.r in next.busy && next.busy[s.r].Won? && s.r in w.busy && !w.busy[s.r].Won?
                        then Some(w.busy[s.r].t)
                   else if s.FailApply? && s.r in w.busy && w.busy[s.r].Won? && w.cursor == Some(w.busy[s.r].t)
                        then Some(w.busy[s.r].last)
                   else w.cursor)
  {
  }

  /** A failed apply whose claim still holds the cursor. */
  predicate GivesBack(w: World, s: Step) {
    s.FailApply? && s.r in w.busy && w.busy[s.r].Won? && w.cursor == Some(w.busy[s.r].t)
  }

  function After(w: World, steps: seq<Step>): World
    decreases |steps|
  {
    if steps == [] then w else After(Next(w, steps[0]), steps[1..])
  }

  /** The two statements of an advance, when nobody gets in between, do what `CursorRow.Advance` does. */
  lemma UndisturbedAdvance(w: World, r: Replica)
    requires r in w.busy && w.busy[r].Read?
    ensures var t, done := w.busy[r].t, Next(Next(w, Update(r)), Insert(r));
            && ((r in done.busy && done.busy[r].Won?) <==> Level(w.cursor) < t)
            && done.cursor == Advanced(w.cursor, t)
  {
    var tried := Next(w, Update(r));
    assert tried.busy[r].Won? <==> w.cursor.Some? && w.cursor.value < w.busy[r].t;
  }

  predicate NoRepeats(times: seq<nat>) {
    forall i, j | 0 <= i < j < |times| :: times[i] != times[j]
  }

  // ---- Any number of replicas, claims given back exactly ----

  /** The claim puts back what it replaced: the cursor did not move between reading and claiming. */
  predicate Exact(claim: Phase)
    requires claim.Won?
  {
    claim.last == AsRead(claim.was)
  }

  /** Nobody resets the cursor, and every claim given back is exact. */
  predicate ExactRun(w: World, steps: seq<Step>)
    decreases |steps|
  {
    steps == []
    || (&& !steps[0].Reset?
        && (GivesBack(w, steps[0]) ==> Exact(w.busy[steps[0].r]))
        && ExactRun(Next(w, steps[0]), steps[1..]))
  }

  /** The reports a claim covers: newer than the cursor it replaced, up to its own. */
  predicate Covers(claim: Phase, t: nat)
    requires claim.Won?
  {
    Level(claim.was) < t <= claim.t
  }

  /** Claims in flight cover disjoint stretches below the cursor, and none covers an applied report. */
  predicate Disjoint(w: World) {
    && (forall r | r in w.busy && w.busy[r].Won? :: Level(w.busy[r].was) < w.busy[r].t <= Level(w.cursor))
    && (forall r, q | r in w.busy && q in w.busy && r != q && w.busy[r].Won? && w.busy[q].Won? ::
          w.busy[r].t <= Level(w.busy[q].was) || w.busy[q].t <= Level(w.busy[r].was))
    && (forall i | 0 <= i < |w.applied| :: w.applied[i] <= Level(w.cursor))
    && (forall i, r | 0 <= i < |w.applied| && r in w.busy && w.busy[r].Won? :: !Covers(w.busy[r], w.applied[i]))
    && NoRepeats(w.applied)
  }

  /** A new claim covers only what is newer than the cursor it replaces. */
  lemma WinKeepsDisjoint(w: World, r: Replica, won: Phase)
    requires Disjoint(w) && won.Won? && won.was == w.cursor && Level(w.cursor) < won.t
    ensures Disjoint(w.(cursor := Some(won.t), busy := w.busy[r := won]))
  {
  }

  /** Giving a claim back exactly uncovers only what nobody else covers and nothing applied. */
  lemma GiveBackKeepsDisjoint(w: World, s: Step)
    requires Disjoint(w) && GivesBack(w, s) && Exact(w.busy[s.r])
    ensures Disjoint(Next(w, s))
  {
    var claim := w.busy[s.r];
    assert Covers(claim, claim.t);
    assert Level(claim.was) <= claim.last;
  }

  lemma ApplyKeepsDisjoint(w: World, r: Replica)
    requires Disjoint(w)
    ensures Disjoint(Next(w, Apply(r)))
  {
    if r in w.busy && w.busy[r].Won? {
      assert Covers(w.busy[r], w.busy[r].t);
    }
  }

  /** Steps that neither claim, apply nor give back at most end claims. */
  lemma QuietKeepsDisjoint(w: World, w': World)
    requires Disjoint(w) && w'.cursor == w.cursor && w'.applied == w.applied
    requires forall r | r in w'.busy && w'.busy[r].Won? :: r in w.busy && w.busy[r] == w'.busy[r]
    ensures Disjoint(w')
  {
  }

  lemma DisjointStep(w: World, s: Step)
    requires Disjoint(w) && !s.Reset? && (GivesBack(w, s) ==> Exact(w.busy[s.r]))
    ensures Disjoint(Next(w, s))
  {
    if s.Apply? {
      ApplyKeepsDisjoint(w, s.r);
    } else if GivesBack(w, s) {
      GiveBackKeepsDisjoint(w, s);
    } else if Next(w, s).cursor != w.cursor {
      WinKeepsDisjoint(w, s.r, Next(w, s).busy[s.r]);
    } else {
      QuietKeepsDisjoint(w, Next(w, s));
    }
  }

  lemma {:induction false} DisjointRun(w: World, steps: seq<Step>)
    requires Disjoint(w) && ExactRun(w, steps)
    ensures Disjoint(After(w, steps))
    decreases |steps|
  {
    if steps != [] {
      DisjointStep(w, steps[0]);
      DisjointRun(Next(w, steps[0]), steps[1..]);
    }
  }

  /**
    Over every interleaving of any number of replicas, with failures and crashes, no report
    is applied twice and none is newer than the cursor, as long as claims are given back exactly.
  */
  lemma ExactRunsApplyOnce(steps: seq<Step>)
    requires ExactRun(START, steps)
    ensures NoRepeats(After(START, steps).applied)
    ensures forall i | 0 <= i < |After(START, steps).applied| ::
      After(START, steps).applied[i] <= Level(After(START, steps).cursor)
  {
    DisjointRun(START, steps);
  }

  // ---- Two replicas, claims given back as read ----

  /** The runs of a deployment: who polls, whether applying may fail, whether operators reset. */
  predicate Uses(steps: seq<Step>, pollers: set<Replica>, failing: bool, resetting: bool) {
    forall i | 0 <= i < |steps| ::
      && (steps[i].Fetch? ==> steps[i].r in pollers)
      && (steps[i].FailApply? ==> failing)
      && (steps[i].Reset? ==> resetting)
  }

  /** No replica holds the report, and the store no longer offers it. */
  predicate Gone(w: World, t: nat) {
    t < Level(w.latest) && forall r | r in w.busy :: w.busy[r].t != t
  }

  /** A replica that would give the cursor back past the report. */
  predicate Threatens(p: Phase, t: nat) {
    !p.Fetched? && p.last < t < p.t
  }

  /**
    With two replicas, an applied report is either gone for good, or below a cursor that
    nobody can give back past it. A claimed one is below the cursor, or nobody else can get it.
  */
  predicate Safe(w: World) {
    && (forall r | r in w.busy :: w.busy[r].t <= Level(w.latest))
    && NoRepeats(w.applied)
    && (forall i | 0 <= i < |w.applied| :: Settled(w, w.applied[i]))
    && (forall r | r in w.busy && w.busy[r].Won? :: Owned(w, r))
  }

  predicate Settled(w: World, t: nat) {
    || Gone(w, t)
    || (&& t <= Level(w.cursor)
        && forall r | r in w.busy :: !Threatens(w.busy[r], t) && !(w.busy[r].Won? && w.busy[r].t == t))
  }

  predicate Owned(w: World, r: Replica)
    requires r in w.busy
  {
    var t := w.busy[r].t;
    && (forall q | q in w.busy && q != r && w.busy[q].Won? :: w.busy[q].t != t)
    && (t <= Level(w.cursor) || (t < Level(w.latest) && forall q | q in w.busy && q != r :: w.busy[q].t != t))
  }

  predicate AtMostTwo(w: World, a: Replica, b: Replica) {
    forall r | r in w.busy :: r == a || r == b
  }

  lemma ClaimKeepsSafe(w: World, r: Replica, won: Phase)
    requires Safe(w) && won.Won? && r in w.busy && w.busy[r].t == won.t && Level(w.cursor) < won.t
    requires !w.busy[r].Won? && !w.busy[r].Fetched? && w.busy[r].last == won.last
    ensures Safe(w.(cursor := Some(won.t), busy := w.busy[r := won]))
  {
    var w' := w.(cursor := Some(won.t), busy := w.busy[r := won]);
    forall i | 0 <= i < |w.applied|
      ensures Settled(w', w.applied[i])
    {
      assert Settled(w, w.applied[i]);
    }
    forall q | q in w'.busy && w'.busy[q].Won?
      ensures Owned(w', q)
    {
      if q != r {
        assert Owned(w, q);
      } else {
        assert forall p | p in w.busy && w.busy[p].Won? :: Owned(w, p);
      }
    }
  }

  lemma ApplyKeepsSafe(w: World, r: Replica, a: Replica, b: Replica)
    requires Safe(w) && AtMostTwo(w, a, b) && r in w.busy && w.busy[r].Won?
    ensures Safe(Next(w, Apply(r)))
  {
    var w', t := Next(w, Apply(r)), w.busy[r].t;
    assert Owned(w, r);
    assert Settled(w', t);
    forall i | 0 <= i < |w.applied|
      ensures Settled(w', w.applied[i]) && w.applied[i] != t
    {
      assert Settled(w, w.applied[i]);
    }
    forall q | q in w'.busy && w'.busy[q].Won?
      ensures Owned(w', q)
    {
      assert Owned(w, q);
    }
  }

  lemma GiveBackKeepsSafe(w: World, r: Replica, a: Replica, b: Replica)
    requires Safe(w) && AtMostTwo(w, a, b) && GivesBack(w, FailApply(r))
    ensures Safe(Next(w, FailApply(r)))
  {
    var w' := Next(w, FailApply(r));
    forall i | 0 <= i < |w.applied|
      ensures Settled(w', w.applied[i])
    {
      assert Settled(w, w.applied[i]);
    }
    forall q | q in w'.busy && w'.busy[q].Won?
      ensures Owned(w', q)
    {
      assert Owned(w, q) && Owned(w, r);
    }
  }

  lemma QuietStepKeepsSafe(w: World, s: Step)
    requires Safe(w) && Next(w, s).cursor == w.cursor && Next(w, s).applied == w.applied
    ensures Safe(Next(w, s))
  {
    var w' := Next(w, s);
    forall i | 0 <= i < |w.applied|
      ensures Settled(w', w.applied[i])
    {
      assert Settled(w, w.applied[i]);
    }
    forall q | q in w'.busy && w'.busy[q].Won?
      ensures Owned(w', q)
    {
      assert Owned(w, q);
    }
  }

  lemma SafeStep(w: World, s: Step, a: Replica, b: Replica)
    requires Safe(w) && AtMostTwo(w, a, b) && !s.Reset? && (s.Fetch? ==> s.r == a || s.r == b)
    ensures Safe(Next(w, s)) && AtMostTwo(Next(w, s), a, b)
  {
    if s.Apply? && s.r in w.busy && w.busy[s.r].Won? {
      ApplyKeepsSafe(w, s.r, a, b);
    } else if GivesBack(w, s) {
      GiveBackKeepsSafe(w, s.r, a, b);
    } else if Next(w, s).cursor != w.cursor {
      ClaimKeepsSafe(w, s.r, Next(w, s).busy[s.r]);
    } else {
      QuietStepKeepsSafe(w, s);
    }
  }

  lemma {:induction false} SafeRun(w: World, steps: seq<Step>, a: Replica, b: Replica)
    requires Safe(w) && AtMostTwo(w, a, b) && Uses(steps, {a, b}, true, false)
    ensures Safe(After(w, steps))
    decreases |steps|
  {
    if steps != [] {
      SafeStep(w, steps[0], a, b);
      assert forall i | 0 <= i < |steps| - 1 :: steps[1..][i] == steps[i + 1];
      SafeRun(Next(w, steps[0]), steps[1..], a, b);
    }
  }

  // ---- Runs that break it ----

  lemma {:induction false} AfterFront(w: World, front: seq<Step>, back: seq<Step>)
    ensures After(w, front + back) == After(After(w, front), back)
    decreases |front|
  {
    if front == [] {
      assert front + back == back;
    } else {
      assert (front + back)[1..] == front[1..] + back;
      AfterFront(Next(w, front[0]), front[1..], back);
    }
  }

  lemma AfterSnoc(w: World, steps: seq<Step>, s: Step)
    ensures After(w, steps + [s]) == Next(After(w, steps), s)
  {
    AfterFront(w, steps, [s]);
    assert [s][1..] == [];
  }

  lemma AfterThree(w: World, s0: Step, s1: Step, s2: Step)
    ensures After(w, [s0, s1, s2]) == Next(Next(Next(w, s0), s1), s2)
  {
    assert [s0, s1, s2][1..] == [s1, s2] && [s1, s2][1..] == [s2] && [s2][1..] == [];
    assert After(Next(Next(w, s0), s1), [s2]) == After(Next(Next(Next(w, s0), s1), s2), []);
    assert After(Next(w, s0), [s1, s2]) == After(Next(Next(w, s0), s1), [s2]);
  }

  /**
    Report 1 is taken by p and q, then r takes report 2 and reads that there is no cursor.
    Once p has applied report 1, r claims, fails, and gives the cursor back to zero; q, slow
    until now, finds report 1 newer than the cursor.
  */
  function StalledThird(p: Replica, q: Replica, r: Replica): seq<Step> {
    [Publish(1), Fetch(p), Fetch(q)] + [Publish(2), Fetch(r), ReadCursor(r)] + [ReadCursor(p), Update(p), Insert(p)]
    + [Apply(p), Update(r), FailApply(r)] + [ReadCursor(q), Update(q), Apply(q)]
  }

  lemma StalledThirdFront(p: Replica, q: Replica, r: Replica)
    requires p != q && q != r && p != r
    ensures After(START, [Publish(1), Fetch(p), Fetch(q)] + [Publish(2), Fetch(r), ReadCursor(r)])
         == World(Some(2), None, map[p := Fetched(1), q := Fetched(1), r := Read(2, 0)], [])
  {
    AfterFront(START, [Publish(1), Fetch(p), Fetch(q)], [Publish(2), Fetch(r), ReadCursor(r)]);
    AfterThree(START, Publish(1), Fetch(p), Fetch(q));
    AfterThree(World(Some(1), None, map[p := Fetched(1), q := Fetched(1)], []), Publish(2), Fetch(r), ReadCursor(r));
  }

  lemma StalledThirdMiddle(p: Replica, q: Replica, r: Replica)
    requires p != q && q != r && p != r
    ensures After(World(Some(2), None, map[p := Fetched(1), q := Fetched(1), r := Read(2, 0)], []),
      [ReadCursor(p), Update(p), Insert(p)])
         == World(Some(2), Some(1), map[p := Won(1, 0, None), q := Fetched(1), r := Read(2, 0)], [])
  {
    AfterThree(World(Some(2), None, map[p := Fetched(1), q := Fetched(1), r := Read(2, 0)], []), ReadCursor(p),
      Update(p), Insert(p));
  }

  lemma StalledThirdBack(p: Replica, q: Replica, r: Replica)
    requires p != q && q != r && p != r
    ensures After(World(Some(2), Some(1), map[p := Won(1, 0, None), q := Fetched(1), r := Read(2, 0)], []),
                  [Apply(p), Update(r), FailApply(r)] + [ReadCursor(q), Update(q), Apply(q)]).applied == [1, 1]
  {
    var w := World(Some(2), Some(1), map[p := Won(1, 0, None), q := Fetched(1), r := Read(2, 0)], []);
    AfterFront(w, [Apply(p), Update(r), FailApply(r)], [ReadCursor(q), Update(q), Apply(q)]);
    AfterThree(w, Apply(p), Update(r), FailApply(r));
    assert [] + [1] == [1];
    var reopened := World(Some(2), Some(0), map[q := Fetched(1)], [1]);
    assert After(w, [Apply(p), Update(r), FailApply(r)]) == reopened;
    AfterThree(reopened, ReadCursor(q), Update(q), Apply(q));
  }

  lemma StalledThirdRepeats(p: Replica, q: Replica, r: Replica)
    requires p != q && q != r && p != r
    ensures After(START, StalledThird(p, q, r)).applied == [1, 1]
  {
    var front := [Publish(1), Fetch(p), Fetch(q)] + [Publish(2), Fetch(r), ReadCursor(r)];
    var middle, back := [ReadCursor(p), Update(p), Insert(p)],
      [Apply(p), Update(r), FailApply(r)] + [ReadCursor(q), Update(q), Apply(q)];
    assert StalledThird(p, q, r) == front + middle + back;
    AfterFront(START, front + middle, back);
    AfterFront(START, front, middle);
    StalledThirdFront(p, q, r);
    StalledThirdMiddle(p, q, r);
    StalledThirdBack(p, q, r);
  }

  function IngestAfter(s: Step, r: Replica): seq<Step> {
    [s, Fetch(r), ReadCursor(r)] + [Update(r), Insert(r), Apply(r)]
  }

  lemma IngestOne(w: World, s: Step, r: Replica)
    requires Next(w, s).latest == Some(1) && Next(w, s).cursor == None
    requires Next(w, s).busy == map[] && Next(w, s).applied == w.applied
    ensures After(w, IngestAfter(s, r)) == World(Some(1), Some(1), map[], w.applied + [1])
  {
    AfterFront(w, [s, Fetch(r), ReadCursor(r)], [Update(r), Insert(r), Apply(r)]);
    AfterThree(w, s, Fetch(r), ReadCursor(r));
    IngestFront(Next(w, s), r);
    IngestBack(w.applied, r);
  }

  lemma IngestFront(w: World, r: Replica)
    requires w.latest == Some(1) && w.cursor == None && w.busy == map[]
    ensures Next(Next(w, Fetch(r)), ReadCursor(r)) == World(Some(1), None, map[r := Read(1, 0)], w.applied)
  {
    var fetched := Next(w, Fetch(r));
    assert fetched == World(Some(1), None, map[r := Fetched(1)], w.applied);
    assert map[r := Fetched(1)][r := Read(1, 0)] == map[r := Read(1, 0)];
  }

  lemma IngestBack(applied: seq<nat>, r: Replica)
    ensures After(World(Some(1), None, map[r := Read(1, 0)], applied), [Update(r), Insert(r), Apply(r)])
         == World(Some(1), Some(1), map[], applied + [1])
  {
    var reading := World(Some(1), None, map[r := Read(1, 0)], applied);
    var retrying := World(Some(1), None, map[r := Retrying(1, 0)], applied);
    var won := World(Some(1), Some(1), map[r := Won(1, 0, None)], applied);
    AfterThree(reading, Update(r), Insert(r), Apply(r));
    assert Next(reading, Update(r)) == retrying by {
      assert map[r := Read(1, 0)][r := Retrying(1, 0)] == map[r := Retrying(1, 0)];
    }
    assert Next(retrying, Insert(r)) == won by {
      assert map[r := Retrying(1, 0)][r := Won(1, 0, None)] == map[r := Won(1, 0, None)];
    }
    assert map[r := Won(1, 0, None)] - {r} == map[];
  }

  function ResetBetween(r: Replica): seq<Step> {
    IngestAfter(Publish(1), r) + IngestAfter(Reset, r)
  }

  lemma ResetRepeats(r: Replica)
    ensures After(START, ResetBetween(r)).applied == [1, 1]
  {
    IngestOne(START, Publish(1), r);
    assert [] + [1] == [1];
    var once := World(Some(1), Some(1), map[], [1]);
    IngestOne(once, Reset, r);
    AfterFront(START, IngestAfter(Publish(1), r), IngestAfter(Reset, r));
  }

  lemma {:induction false} UsesExact(w: World, steps: seq<Step>, pollers: set<Replica>)
    requires Uses(steps, pollers, false, false)
    ensures ExactRun(w, steps)
    decreases |steps|
  {
    if steps != [] {
      assert !steps[0].FailApply? && !steps[0].Reset?;
      assert forall i | 0 <= i < |steps| - 1 :: steps[1..][i] == steps[i + 1];
      UsesExact(Next(w, steps[0]), steps[1..], pollers);
    }
  }

  lemma OneOrTwo(pollers: set<Replica>) returns (a: Replica, b: Replica)
    requires pollers != {} && |pollers| <= 2
    ensures pollers <= {a, b}
  {
    a :| a in pollers;
    b := a;
    var others := pollers - {a};
    assert pollers == {a} + others;
    if others != {} {
      b :| b in others;
      var rest := others - {b};
      assert others == {b} + rest && |rest| == 0;
    }
  }

  lemma ThreeOf(pollers: set<Replica>) returns (p: Replica, q: Replica, r: Replica)
    requires |pollers| > 2
    ensures p in pollers && q in pollers && r in pollers && p != q && q != r && p != r
  {
    p :| p in pollers;
    var rest := pollers - {p};
    assert |rest| >= 2;
    q :| q in rest;
    assert |rest - {q}| >= 1;
    r :| r in rest - {q};
  }

  /**
    No run of these pollers applies a report twice exactly when nobody resets the cursor and
    either applying never fails or at most two replicas poll.
  */
  lemma AppliesOnceIff(pollers: set<Replica>, failing: bool, resetting: bool)
    requires pollers != {}
    ensures (forall steps | Uses(steps, pollers, failing, resetting) :: NoRepeats(After(START, steps).applied))
       <==> !resetting && (!failing || |pollers| <= 2)
  {
    if resetting {
      var r :| r in pollers;
      ResetRepeats(r);
      BreaksOnce(ResetBetween(r), pollers, failing, resetting);
    } else if failing && |pollers| > 2 {
      var p, q, r := ThreeOf(pollers);
      StalledThirdRepeats(p, q, r);
      BreaksOnce(StalledThird(p, q, r), pollers, failing, resetting);
    } else {
      forall steps | Uses(steps, pollers, failing, resetting)
        ensures NoRepeats(After(START, steps).applied)
      {
        if failing {
          var a, b := OneOrTwo(pollers);
          SafeRun(START, steps, a, b);
        } else {
          UsesExact(START, steps, pollers);
          ExactRunsApplyOnce(steps);
        }
      }
    }
  }

  lemma BreaksOnce(steps: seq<Step>, pollers: set<Replica>, failing: bool, resetting: bool)
    requires Uses(steps, pollers, failing, resetting) && After(START, steps).applied == [1, 1]
    ensures !(forall steps | Uses(steps, pollers, failing, resetting) :: NoRepeats(After(START, steps).applied))
  {
    var applied := After(START, steps).applied;
    assert applied[0] == applied[1];
  }

  predicate Forward(before: World, after: World) {
    Level(before.cursor) <= Level(after.cursor)
  }

  /** No step of any run moves the cursor backwards exactly when applying never fails and nobody resets the cursor. */
  lemma NeverMovesBackIff(pollers: set<Replica>, failing: bool, resetting: bool)
    requires pollers != {}
    ensures (forall steps, s | Uses(steps + [s], pollers, failing, resetting) ::
      Forward(After(START, steps), After(START, steps + [s])))
       <==> !failing && !resetting
  {
    if !failing && !resetting {
      forall steps, s | Uses(steps + [s], pollers, failing, resetting)
        ensures Forward(After(START, steps), After(START, steps + [s]))
      {
        AfterSnoc(START, steps, s);
        assert (steps + [s])[|steps|] == s;
      }
    } else {
      var r :| r in pollers;
      var claiming := [Publish(1), Fetch(r), ReadCursor(r)] + [Update(r), Insert(r), Publish(1)];
      AfterFront(START, [Publish(1), Fetch(r), ReadCursor(r)], [Update(r), Insert(r), Publish(1)]);
      AfterThree(START, Publish(1), Fetch(r), ReadCursor(r));
      var w1 := World(Some(1), None, map[r := Read(1, 0)], []);
      assert After(START, [Publish(1), Fetch(r), ReadCursor(r)]) == w1;
      AfterThree(w1, Update(r), Insert(r), Publish(1));
      var s := if failing then FailApply(r) else Reset;
      AfterSnoc(START, claiming, s);
      assert After(START, claiming).cursor == Some(1);
      assert Uses(claiming + [s], pollers, failing, resetting);
      assert !Forward(After(START, claiming), After(START, claiming + [s]));
    }
  }

  // ---- Where exactness is first lost ----

  predicate Quiet(steps: seq<Step>) {
    forall i | 0 <= i < |steps| :: !steps[i].FailApply? && !steps[i].Reset?
  }

  predicate Reapplies(w: World, steps: seq<Step>, t: nat) {
    exists k :: |w.applied| <= k < |After(w, steps).applied| && After(w, steps).applied[k] == t
  }

  /** The replica took the report and has not yet tried to claim it. */
  predicate StillHolds(p: Phase, t: nat) {
    (p.Fetched? || p.Read?) && p.t == t
  }

  /** Nobody will claim the report any more, failures and resets aside. */
  predicate Closed(w: World, t: nat) {
    && w.cursor.Some?
    && (forall r | r in w.busy && w.busy[r].Won? :: w.busy[r].t != t)
    && (t <= Level(w.cursor) || (t < Level(w.latest) && forall r | r in w.busy :: !StillHolds(w.busy[r], t)))
  }

  lemma {:induction false} ClosedRun(w: World, steps: seq<Step>, t: nat)
    requires Closed(w, t) && Quiet(steps)
    ensures |w.applied| <= |After(w, steps).applied| && !Reapplies(w, steps, t)
    decreases |steps|
  {
    if steps != [] {
      assert !steps[0].FailApply? && !steps[0].Reset?;
      assert forall i | 0 <= i < |steps| - 1 :: steps[1..][i] == steps[i + 1];
      var next := Next(w, steps[0]);
      assert Closed(next, t);
      ClosedRun(next, steps[1..], t);
      assert After(w, steps) == After(next, steps[1..]);
      if |next.applied| > |w.applied| {
        AppliedStays(next, steps[1..], |w.applied|);
      }
    }
  }

  lemma {:induction false} AppliedStays(w: World, steps: seq<Step>, k: nat)
    requires k < |w.applied|
    ensures k < |After(w, steps).applied| && After(w, steps).applied[k] == w.applied[k]
    decreases |steps|
  {
    if steps != [] {
      AppliedStays(Next(w, steps[0]), steps[1..], k);
    }
  }

  /**
    Up to the first inexact give-back no report is applied twice. That give-back lets a run
    without any further failure apply an applied report again exactly when the claim had read
    the cursor before that report, and another replica took the report and has not tried it yet.
  */
  lemma StaleRollbackReopensIff(w: World, x: Replica, i: nat)
    requires Disjoint(w) && (forall r | r in w.busy :: w.busy[r].t <= Level(w.latest))
    requires GivesBack(w, FailApply(x)) && i < |w.applied|
    ensures var t, after := w.applied[i], Next(w, FailApply(x));
            (exists steps :: Quiet(steps) && Reapplies(after, steps, t))
            <==> w.busy[x].last < t && exists r :: r in w.busy && r != x && StillHolds(w.busy[r], t)
  {
    var t, after := w.applied[i], Next(w, FailApply(x));
    forall r | r in w.busy && w.busy[r].Won?
      ensures w.busy[r].t != t
    {
      assert Covers(w.busy[r], w.busy[r].t) && !Covers(w.busy[r], t);
    }
    if w.busy[x].last < t && exists r :: r in w.busy && r != x && StillHolds(w.busy[r], t) {
      var r :| r in w.busy && r != x && StillHolds(w.busy[r], t);
      var steps := if w.busy[r].Fetched? then [ReadCursor(r), Update(r), Apply(r)] else [Update(r), Apply(r), Apply(r)];
      AfterThree(after, steps[0], steps[1], steps[2]);
      assert After(after, steps).applied == after.applied + [t];
      assert After(after, steps).applied[|after.applied|] == t;
      assert Quiet(steps) && Reapplies(after, steps, t);
    } else {
      assert Closed(after, t);
      forall steps | Quiet(steps)
        ensures !Reapplies(after, steps, t)
      {
        ClosedRun(after, steps, t);
      }
    }
  }
}
