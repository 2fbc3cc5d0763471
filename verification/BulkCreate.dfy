/**
  Bulk creation: every builder's mutation is wrapped in its hooks, the last action of a
  builder is to start the next one, and the innermost issues one batch for all of them.

  A hook is any Go function; here it may reject before calling on, edit the mutation, call
  on any number of times, swallow an error it gets back, and reject afterwards.
*/
module BulkCreate {
  import opened Common

  type Fields(==, !new)

  datatype Hook = Hook(before: bool, edit: Fields -> Fields, calls: nat, swallows: bool, after: bool)

  datatype Builder = Builder(fields: Fields, hooks: seq<Hook>)

  datatype Mut = Mut(fields: Fields, done: bool)

  /** Hooks are entered and left at their depth; a batch is written when everything is open. */
  datatype Event = Enter(depth: nat) | Leave(depth: nat) | Batch

  datatype Attempt = Attempt(specs: seq<Option<Fields>>, accepted: bool)

  datatype State = State(
    muts: seq<Mut>, specs: seq<Option<Fields>>, nodes: seq<Option<Fields>>,
    batches: seq<Attempt>, trace: seq<Event>)

  /** `valid` is the builder's check; `accepts` says whether the store takes the k-th batch. */
  datatype Job = Job(builders: seq<Builder>, valid: Fields -> bool, accepts: nat -> bool)

  predicate Sized(job: Job, s: State) {
    |s.muts| == |s.specs| == |s.nodes| == |job.builders|
  }

  predicate At(job: Job, i: nat, h: nat) {
    i < |job.builders| && h <= |job.builders[i].hooks|
  }

  /** How many wrappers are open around hook h of builder i; a builder's own action counts as one. */
  function Depth(builders: seq<Builder>, i: nat, h: nat): nat
    requires i <= |builders|
  {
    if i == 0 then h else Depth(builders, i - 1, |builders[i - 1].hooks| + 1) + h
  }

  // ---- What the chain of closures does ----

  function Write(job: Job, s: State): (State, bool) {
    var accepted := job.accepts(|s.batches|);
    (s.(batches := s.batches + [Attempt(s.specs, accepted)], trace := s.trace + [Batch]), accepted)
  }

  /** Mutator i from hook h inwards: state and success. */
  function Run(job: Job, i: nat, h: nat, s: State): (r: (State, bool))
    requires At(job, i, h) && Sized(job, s)
    ensures Sized(job, r.0)
    decreases |job.builders| - i, |job.builders[i].hooks| - h, 3
  {
    var depth := Depth(job.builders, i, h);
    var entered := s.(trace := s.trace + [Enter(depth)]);
    var (inner, ok) :=
      if h < |job.builders[i].hooks| then RunHook(job, i, h, entered) else RunCore(job, i, entered);
    (inner.(trace := inner.trace + [Leave(depth)]), ok)
  }

  function RunHook(job: Job, i: nat, h: nat, s: State): (r: (State, bool))
    requires At(job, i, h + 1) && Sized(job, s)
    ensures Sized(job, r.0)
    decreases |job.builders| - i, |job.builders[i].hooks| - h, 2
  {
    var hook := job.builders[i].hooks[h];
    if hook.before then (s, false)
    else
      var edited := s.(muts := s.muts[i := s.muts[i].(fields := hook.edit(s.muts[i].fields))]);
      var (after, ok) := RunCalls(job, i, h, hook.calls, edited);
      (after, ok && !hook.after)
  }

  function RunCalls(job: Job, i: nat, h: nat, k: nat, s: State): (r: (State, bool))
    requires At(job, i, h + 1) && Sized(job, s)
    ensures Sized(job, r.0)
    decreases |job.builders| - i, |job.builders[i].hooks| - h, 1, k
  {
    if k == 0 then (s, true)
    else
      var (once, ok) := Run(job, i, h + 1, s);
      if !ok && !job.builders[i].hooks[h].swallows then (once, false) else RunCalls(job, i, h, k - 1, once)
  }

  function RunCore(job: Job, i: nat, s: State): (r: (State, bool))
    requires i < |job.builders| && Sized(job, s)
    ensures Sized(job, r.0)
    decreases |job.builders| - i, 0, 0
  {
    if !job.valid(s.muts[i].fields) then (s, false)
    else
      var spec := Some(s.muts[i].fields);
      var created := s.(nodes := s.nodes[i := spec], specs := s.specs[i := spec]);
      var (inner, ok) := if i + 1 < |job.builders| then Run(job, i + 1, 0, created) else Write(job, created);
      if ok then (inner.(muts := inner.muts[i := inner.muts[i].(done := true)]), true) else (inner, false)
  }

  function Start(job: Job): (s: State)
    ensures Sized(job, s)
  {
    var none := seq(|job.builders|, _ => None);
    State(seq(|job.builders|, i requires 0 <= i < |job.builders| => Mut(job.builders[i].fields, false)), none, none,
      [], [])
  }

  /** No builders, no mutators: nothing is written. */
  function Outcome(job: Job): (r: (State, bool))
    ensures Sized(job, r.0)
  {
    if job.builders == [] then (Start(job), true) else Run(job, 0, 0, Start(job))
  }

  // ---- The same, in place ----

  class Bulk {
    const job: Job
    var s: State

    constructor (job: Job)
      ensures this.job == job && s == Start(job)
    {
      this.job, s := job, Start(job);
    }

    method Save() returns (ok: bool)
      requires s == Start(job)
      modifies this
      ensures (s, ok) == Outcome(job)
    {
      if |job.builders| == 0 {
        return true;
      }
      ok := Mutate(0, 0);
    }

    method Mutate(i: nat, h: nat) returns (ok: bool)
      requires At(job, i, h) && Sized(job, s)
      modifies this
      ensures Sized(job, s) && (s, ok) == Run(job, i, h, old(s))
      decreases |job.builders| - i, |job.builders[i].hooks| - h, 3
    {
      var depth := Depth(job.builders, i, h);
      s := s.(trace := s.trace + [Enter(depth)]);
      if h < |job.builders[i].hooks| {
        ok := CallHook(i, h);
      } else {
        ok := Create(i);
      }
      s := s.(trace := s.trace + [Leave(depth)]);
    }

    method CallHook(i: nat, h: nat) returns (ok: bool)
      requires At(job, i, h + 1) && Sized(job, s)
      modifies this
      ensures Sized(job, s) && (s, ok) == RunHook(job, i, h, old(s))
      decreases |job.builders| - i, |job.builders[i].hooks| - h, 2
    {
      var hook := job.builders[i].hooks[h];
      if hook.before {
        return false;
      }
      s := s.(muts := s.muts[i := s.muts[i].(fields := hook.edit(s.muts[i].fields))]);
      ghost var start := s;
      var k := hook.calls;
      while k > 0
        invariant Sized(job, s) && RunCalls(job, i, h, k, s) == RunCalls(job, i, h, hook.calls, start)
        decreases k
      {
        var called := Mutate(i, h + 1);
        if !called && !hook.swallows {
          return false;
        }
        k := k - 1;
      }
      return !hook.after;
    }

    method Create(i: nat) returns (ok: bool)
      requires i < |job.builders| && Sized(job, s)
      modifies this
      ensures Sized(job, s) && (s, ok) == RunCore(job, i, old(s))
      decreases |job.builders| - i, 0, 0
    {
      if !job.valid(s.muts[i].fields) {
        return false;
      }
      var spec := Some(s.muts[i].fields);
      s := s.(nodes := s.nodes[i := spec], specs := s.specs[i := spec]);
      if i + 1 < |job.builders| {
        ok := Mutate(i + 1, 0);
      } else {
        ok := job.accepts(|s.batches|);
        s := s.(batches := s.batches + [Attempt(s.specs, ok)], trace := s.trace + [Batch]);
      }
      if ok {
        s := s.(muts := s.muts[i := s.muts[i].(done := true)]);
      }
    }
  }

  // ---- Nesting ----

  /**
    Reads a trace with `open` wrappers open, numbered 0 to open - 1. Only the next number may
    be entered, only the last one left, and a batch only with all of them open.
  */
  function Scan(all: nat, open: int, trace: seq<Event>): Option<int> {
    if trace == [] then Some(open)
    else
      var before := Scan(all, open, trace[..|trace| - 1]);
      if before.None? then None
      else match trace[|trace| - 1]
           case Enter(d) => if before.value == d then Some(d + 1) else None
           case Leave(d) => if before.value == d + 1 then Some(d) else None
           case Batch => if before.value == all then before else None
  }

  lemma {:induction false} ScanAppend(all: nat, open: int, a: seq<Event>, b: seq<Event>)
    ensures Scan(all, open, a + b)
         == var middle := Scan(all, open, a); if middle.None? then None else Scan(all, middle.value, b)
  {
    if b == [] {
      assert a + b == a;
    } else {
      var front := b[..|b| - 1];
      ScanAppend(all, open, a, front);
      assert (a + b)[..|a + b| - 1] == a + front;
    }
  }

  /** The run appended well-nested events and came back to the depth it started at. */
  ghost predicate Nested(job: Job, depth: nat, s: State, s': State) {
    s.trace <= s'.trace && Scan(Depth(job.builders, |job.builders|, 0), depth, s'.trace[|s.trace|..]) == Some(depth)
  }

  lemma NestedTwice(job: Job, depth: nat, a: State, b: State, c: State)
    requires Nested(job, depth, a, b) && Nested(job, depth, b, c)
    ensures Nested(job, depth, a, c)
  {
    ScanAppend(Depth(job.builders, |job.builders|, 0), depth, b.trace[|a.trace|..], c.trace[|b.trace|..]);
    assert c.trace[|a.trace|..] == b.trace[|a.trace|..] + c.trace[|b.trace|..];
  }

  lemma NestedWrap(job: Job, depth: nat, s: State, entered: State, inner: State, left: State)
    requires entered.trace == s.trace + [Enter(depth)] && left.trace == inner.trace + [Leave(depth)]
    requires Nested(job, depth + 1, entered, inner)
    ensures Nested(job, depth, s, left)
  {
    var all := Depth(job.builders, |job.builders|, 0);
    var middle := inner.trace[|entered.trace|..];
    ScanAppend(all, depth, [Enter(depth)], middle);
    ScanAppend(all, depth, [Enter(depth)] + middle, [Leave(depth)]);
    assert left.trace[|s.trace|..] == [Enter(depth)] + middle + [Leave(depth)];
    OneEvent(all, depth, Enter(depth));
    OneEvent(all, depth + 1, Leave(depth));
  }

  lemma OneEvent(all: nat, open: int, e: Event)
    ensures Scan(all, open, [e])
         == match e
            case Enter(d) => if open == d then Some(d + 1) else None
            case Leave(d) => if open == d + 1 then Some(d) else None
            case Batch => if open == all then Some(open) else None
  {
    assert [e][..0] == [];
  }

  /**
    Whatever the hooks do: hook 0 of builder 0 is outermost, each builder encloses the next,
    the batch is innermost.
  */
  lemma {:induction false} RunNests(job: Job, i: nat, h: nat, s: State)
    requires At(job, i, h) && Sized(job, s)
    ensures Nested(job, Depth(job.builders, i, h), s, Run(job, i, h, s).0)
    decreases |job.builders| - i, |job.builders[i].hooks| - h, 3
  {
    var depth := Depth(job.builders, i, h);
    var entered := s.(trace := s.trace + [Enter(depth)]);
    if h < |job.builders[i].hooks| {
      var hook := job.builders[i].hooks[h];
      var inner := RunHook(job, i, h, entered).0;
      if hook.before {
        assert inner.trace[|entered.trace|..] == [];
      } else {
        var edited :=
          entered.(muts := entered.muts[i := entered.muts[i].(fields := hook.edit(entered.muts[i].fields))]);
        CallsNest(job, i, h, hook.calls, edited);
        assert Nested(job, depth + 1, edited, inner);
      }
      NestedWrap(job, depth, s, entered, inner, Run(job, i, h, s).0);
    } else {
      CoreNests(job, i, entered);
      NestedWrap(job, depth, s, entered, RunCore(job, i, entered).0, Run(job, i, h, s).0);
    }
  }

  lemma {:induction false} CallsNest(job: Job, i: nat, h: nat, k: nat, s: State)
    requires At(job, i, h + 1) && Sized(job, s)
    ensures Nested(job, Depth(job.builders, i, h + 1), s, RunCalls(job, i, h, k, s).0)
    decreases |job.builders| - i, |job.builders[i].hooks| - h, 1, k
  {
    if k == 0 {
      assert s.trace[|s.trace|..] == [];
    } else {
      RunNests(job, i, h + 1, s);
      var (once, ok) := Run(job, i, h + 1, s);
      if ok || job.builders[i].hooks[h].swallows {
        CallsNest(job, i, h, k - 1, once);
        NestedTwice(job, Depth(job.builders, i, h + 1), s, once, RunCalls(job, i, h, k, s).0);
      }
    }
  }

  lemma {:induction false} CoreNests(job: Job, i: nat, s: State)
    requires i < |job.builders| && Sized(job, s)
    ensures Nested(job, Depth(job.builders, i, |job.builders[i].hooks|) + 1, s, RunCore(job, i, s).0)
    decreases |job.builders| - i, 0, 0
  {
    if !job.valid(s.muts[i].fields) {
      assert s.trace[|s.trace|..] == [];
    } else {
      var spec := Some(s.muts[i].fields);
      var created := s.(nodes := s.nodes[i := spec], specs := s.specs[i := spec]);
      assert Depth(job.builders, i + 1, 0) == Depth(job.builders, i, |job.builders[i].hooks|) + 1;
      if i + 1 < |job.builders| {
        RunNests(job, i + 1, 0, created);
      } else {
        var all := Depth(job.builders, |job.builders|, 0);
        assert Write(job, created).0.trace[|s.trace|..] == [Batch];
        OneEvent(all, all, Batch);
      }
    }
  }

  /** The whole trace of a bulk create is properly nested. */
  lemma TraceIsNested(job: Job)
    ensures Scan(Depth(job.builders, |job.builders|, 0), 0, Outcome(job).0.trace) == Some(0)
  {
    if job.builders != [] {
      RunNests(job, 0, 0, Start(job));
      var trace := Outcome(job).0.trace;
      assert trace[0..] == trace;
    }
  }

  // ---- All or nothing ----

  function Edited(hooks: seq<Hook>, h: nat, f: Fields): Fields
    decreases |hooks| - h
  {
    if h >= |hooks| then f else Edited(hooks, h + 1, hooks[h].edit(f))
  }

  /** The mutation a builder ends with when each of its hooks edits it once. */
  function Final(b: Builder): Fields {
    Edited(b.hooks, 0, b.fields)
  }

  predicate CallOn(hooks: seq<Hook>, h: nat) {
    forall k | h <= k < |hooks| :: !hooks[k].before && hooks[k].calls == 1
  }

  /** Every hook of the builder lets it through and its check passes. */
  predicate Accepted(job: Job, i: nat)
    requires i < |job.builders|
  {
    CallOn(job.builders[i].hooks, 0) && job.valid(Final(job.builders[i]))
  }

  /** No hook calls on more than once. */
  predicate CallsAtMostOnce(job: Job) {
    forall i, h | 0 <= i < |job.builders| && 0 <= h < |job.builders[i].hooks| :: job.builders[i].hooks[h].calls <= 1
  }

  predicate Untouched(job: Job, i: nat, s: State)
    requires Sized(job, s)
  {
    forall j | i < j < |job.builders| :: s.muts[j].fields == job.builders[j].fields
  }

  predicate Reaches(job: Job, i: nat, h: nat, f: Fields)
    requires At(job, i, h)
  {
    && CallOn(job.builders[i].hooks, h) && job.valid(Edited(job.builders[i].hooks, h, f))
    && forall j | i < j < |job.builders| :: Accepted(job, j)
  }

  lemma ReachesNext(job: Job, i: nat, f: Fields)
    requires i + 1 < |job.builders| && job.valid(f)
    ensures Reaches(job, i + 1, 0, job.builders[i + 1].fields) <==> Reaches(job, i, |job.builders[i].hooks|, f)
  {
    assert Edited(job.builders[i].hooks, |job.builders[i].hooks|, f) == f;
    assert Accepted(job, i + 1) <==> CallOn(job.builders[i + 1].hooks, 0) && job.valid(Final(job.builders[i + 1]));
  }

  /** What the batch will hold when builder i is at hook h with fields f. */
  function BatchSpecs(job: Job, i: nat, h: nat, f: Fields, specs: seq<Option<Fields>>): seq<Option<Fields>>
    requires At(job, i, h) && |specs| == |job.builders|
  {
    seq(|specs|, j requires 0 <= j < |specs| =>
      if j < i then specs[j]
      else if j == i then Some(Edited(job.builders[i].hooks, h, f))
      else Some(Final(job.builders[j])))
  }

  function Written(job: Job, i: nat, h: nat, s: State): seq<Attempt>
    requires At(job, i, h) && Sized(job, s)
  {
    if Reaches(job, i, h, s.muts[i].fields)
    then [Attempt(BatchSpecs(job, i, h, s.muts[i].fields, s.specs), job.accepts(|s.batches|))] else []
  }

  lemma {:induction false} RunWrites(job: Job, i: nat, h: nat, s: State)
    requires At(job, i, h) && Sized(job, s) && CallsAtMostOnce(job) && Untouched(job, i, s)
    ensures Run(job, i, h, s).0.batches == s.batches + Written(job, i, h, s)
    decreases |job.builders| - i, |job.builders[i].hooks| - h, 1
  {
    var b := job.builders[i];
    var entered := s.(trace := s.trace + [Enter(Depth(job.builders, i, h))]);
    assert s.batches + [] == s.batches;
    if h < |b.hooks| {
      var hook := b.hooks[h];
      assert hook.calls <= 1;
      var edited := entered.(muts := entered.muts[i := entered.muts[i].(fields := hook.edit(entered.muts[i].fields))]);
      if hook.before || hook.calls == 0 {
        assert Written(job, i, h, s) == [];
        assert RunCalls(job, i, h, 0, edited) == (edited, true);
      } else {
        RunWrites(job, i, h + 1, edited);
        OneCall(job, i, h, edited);
        assert CallOn(b.hooks, h) <==> CallOn(b.hooks, h + 1);
        assert Written(job, i, h + 1, edited) == Written(job, i, h, s);
      }
    } else {
      CoreWrites(job, i, entered);
      assert Written(job, i, h, entered) == Written(job, i, h, s);
    }
  }

  lemma OneCall(job: Job, i: nat, h: nat, s: State)
    requires At(job, i, h + 1) && Sized(job, s)
    ensures RunCalls(job, i, h, 1, s).0 == Run(job, i, h + 1, s).0
    ensures RunCalls(job, i, h, 1, s).1 <==> Run(job, i, h + 1, s).1 || job.builders[i].hooks[h].swallows
  {
    var (once, ok) := Run(job, i, h + 1, s);
    assert RunCalls(job, i, h, 0, once) == (once, true);
  }

  lemma {:induction false} CoreWrites(job: Job, i: nat, s: State)
    requires i < |job.builders| && Sized(job, s) && CallsAtMostOnce(job) && Untouched(job, i, s)
    ensures RunCore(job, i, s).0.batches == s.batches + Written(job, i, |job.builders[i].hooks|, s)
    decreases |job.builders| - i, 0, 0
  {
    var f := s.muts[i].fields;
    var here := |job.builders[i].hooks|;
    assert Edited(job.builders[i].hooks, here, f) == f;
    assert s.batches + [] == s.batches;
    if job.valid(f) {
      var created := s.(nodes := s.nodes[i := Some(f)], specs := s.specs[i := Some(f)]);
      if i + 1 < |job.builders| {
        RunWrites(job, i + 1, 0, created);
        assert created.muts[i + 1].fields == job.builders[i + 1].fields;
        ReachesNext(job, i, f);
        assert BatchSpecs(job, i + 1, 0, created.muts[i + 1].fields, created.specs)
          == BatchSpecs(job, i, here, f, s.specs);
      } else {
        assert created.specs == BatchSpecs(job, i, here, f, s.specs);
      }
    }
  }

  /**
    When no hook calls on more than once, a bulk create issues one batch if every hook lets
    through and every check passes, and otherwise none at all. The batch holds every
    builder's final mutation, in builder order.
  */
  lemma AllOrNothing(job: Job)
    requires CallsAtMostOnce(job) && job.builders != []
    ensures Outcome(job).0.batches ==
      if forall i | 0 <= i < |job.builders| :: Accepted(job, i)
      then [Attempt(seq(|job.builders|, i requires 0 <= i < |job.builders| => Some(Final(job.builders[i]))),
        job.accepts(0))]
      else []
  {
    var s := Start(job);
    RunWrites(job, 0, 0, s);
    assert Accepted(job, 0)
      <==> CallOn(job.builders[0].hooks, 0) && job.valid(Edited(job.builders[0].hooks, 0, s.muts[0].fields));
    assert Reaches(job, 0, 0, s.muts[0].fields) <==> forall i | 0 <= i < |job.builders| :: Accepted(job, i);
    assert BatchSpecs(job, 0, 0, s.muts[0].fields, s.specs)
        == seq(|job.builders|, i requires 0 <= i < |job.builders| => Some(Final(job.builders[i])));
    assert s.batches + Written(job, 0, 0, s) == Written(job, 0, 0, s);
  }

  // ---- Success ----

  predicate Honest(hook: Hook) {
    hook.calls == 1 && !hook.swallows
  }

  predicate AllHonest(job: Job) {
    forall i, h | 0 <= i < |job.builders| && 0 <= h < |job.builders[i].hooks| :: Honest(job.builders[i].hooks[h])
  }

  predicate RejectsAfter(job: Job, i: nat, h: nat)
    requires At(job, i, h)
  {
    || (exists k :: h <= k < |job.builders[i].hooks| && job.builders[i].hooks[k].after)
    || (exists j, k :: i < j < |job.builders| && 0 <= k < |job.builders[j].hooks| && job.builders[j].hooks[k].after)
  }

  /** Builders from i on have their node and are marked done; the nodes before are as they were. */
  predicate Finished(job: Job, i: nat, h: nat, f: Fields, s: State, s': State)
    requires At(job, i, h) && Sized(job, s) && Sized(job, s')
  {
    && s'.nodes == BatchSpecs(job, i, h, f, s.nodes)
    && forall j | i <= j < |job.builders| :: s'.muts[j].done
  }

  lemma {:induction false} HonestRun(job: Job, i: nat, h: nat, s: State)
    requires At(job, i, h) && Sized(job, s) && AllHonest(job) && Untouched(job, i, s)
    ensures var (s', ok) := Run(job, i, h, s);
            && (ok <==> Reaches(job, i, h, s.muts[i].fields) && job.accepts(|s.batches|) && !RejectsAfter(job, i, h))
            && (ok ==> Finished(job, i, h, s.muts[i].fields, s, s'))
    decreases |job.builders| - i, |job.builders[i].hooks| - h, 1
  {
    var b := job.builders[i];
    var entered := s.(trace := s.trace + [Enter(Depth(job.builders, i, h))]);
    if h < |b.hooks| {
      var hook := b.hooks[h];
      assert Honest(hook);
      if hook.before {
        assert !CallOn(b.hooks, h);
      } else {
        var edited :=
          entered.(muts := entered.muts[i := entered.muts[i].(fields := hook.edit(entered.muts[i].fields))]);
        HonestRun(job, i, h + 1, edited);
        OneCall(job, i, h, edited);
        assert CallOn(b.hooks, h) <==> CallOn(b.hooks, h + 1);
        assert RejectsAfter(job, i, h) <==> hook.after || RejectsAfter(job, i, h + 1) by {
          if RejectsAfter(job, i, h + 1) {
            assert RejectsAfter(job, i, h);
          }
        }
        assert BatchSpecs(job, i, h + 1, edited.muts[i].fields, edited.nodes)
          == BatchSpecs(job, i, h, s.muts[i].fields, s.nodes);
      }
    } else {
      HonestCore(job, i, entered);
    }
  }

  lemma {:induction false} HonestCore(job: Job, i: nat, s: State)
    requires i < |job.builders| && Sized(job, s) && AllHonest(job) && Untouched(job, i, s)
    ensures var (s', ok) := RunCore(job, i, s);
            var h := |job.builders[i].hooks|;
            && (ok <==> Reaches(job, i, h, s.muts[i].fields) && job.accepts(|s.batches|) && !RejectsAfter(job, i, h))
            && (ok ==> Finished(job, i, h, s.muts[i].fields, s, s'))
    decreases |job.builders| - i, 0, 0
  {
    var f := s.muts[i].fields;
    var here := |job.builders[i].hooks|;
    assert Edited(job.builders[i].hooks, here, f) == f;
    if job.valid(f) {
      var created := s.(nodes := s.nodes[i := Some(f)], specs := s.specs[i := Some(f)]);
      if i + 1 < |job.builders| {
        HonestRun(job, i + 1, 0, created);
        assert created.muts[i + 1].fields == job.builders[i + 1].fields;
        ReachesNext(job, i, f);
        AfterNext(job, i);
        assert BatchSpecs(job, i + 1, 0, created.muts[i + 1].fields, created.nodes)
          == BatchSpecs(job, i, here, f, s.nodes);
      } else {
        assert created.nodes == BatchSpecs(job, i, here, f, s.nodes);
      }
    }
  }

  lemma AfterNext(job: Job, i: nat)
    requires i + 1 < |job.builders|
    ensures RejectsAfter(job, i + 1, 0) <==> RejectsAfter(job, i, |job.builders[i].hooks|)
  {
    if j, k :| i < j < |job.builders| && 0 <= k < |job.builders[j].hooks| && job.builders[j].hooks[k].after {
      assert j == i + 1 || i + 1 < j;
    }
    var next := job.builders[i + 1];
    if k :| 0 <= k < |next.hooks| && next.hooks[k].after {
      assert job.builders[i + 1].hooks[k].after;
    }
  }

  /**
    With hooks that call on once and pass errors on, success means everything was written
    and every position is filled: node i is builder i's final mutation, and every mutation
    is done. The save succeeds exactly when nothing rejects before, nothing after, and the
    store takes the batch.
  */
  lemma SuccessIsPositional(job: Job)
    requires AllHonest(job) && job.builders != []
    ensures var (s, ok) := Outcome(job);
            && (ok
                <==> (&& (forall i | 0 <= i < |job.builders| :: Accepted(job, i))
                      && job.accepts(0) && !RejectsAfter(job, 0, 0)))
            && (ok ==>
                  forall i | 0 <= i < |job.builders| :: s.nodes[i] == Some(Final(job.builders[i])) && s.muts[i].done)
  {
    var s := Start(job);
    HonestRun(job, 0, 0, s);
    assert Accepted(job, 0)
      <==> CallOn(job.builders[0].hooks, 0) && job.valid(Edited(job.builders[0].hooks, 0, s.muts[0].fields));
    assert Reaches(job, 0, 0, s.muts[0].fields) <==> forall i | 0 <= i < |job.builders| :: Accepted(job, i);
  }

  /**
    An error does not mean nothing was written: a hook that rejects after calling on reports a
    failure over a written batch.
  */
  lemma FailedButWrittenIff(job: Job)
    requires AllHonest(job) && job.builders != []
    ensures var (s, ok) := Outcome(job);
            (!ok && exists k :: 0 <= k < |s.batches| && s.batches[k].accepted)
            <==> (forall i | 0 <= i < |job.builders| :: Accepted(job, i)) && job.accepts(0) && RejectsAfter(job, 0, 0)
  {
    SuccessIsPositional(job);
    assert CallsAtMostOnce(job) by {
      assert forall i, h | 0 <= i < |job.builders| && 0 <= h < |job.builders[i].hooks| ::
        Honest(job.builders[i].hooks[h]);
    }
    AllOrNothing(job);
    var batches := Outcome(job).0.batches;
    assert batches != [] ==> batches[0].accepted == job.accepts(0);
  }

  // ---- Hooks that do not call on exactly once ----

  predicate NobodySwallows(job: Job) {
    forall i, h | 0 <= i < |job.builders| && 0 <= h < |job.builders[i].hooks| :: !job.builders[i].hooks[h].swallows
  }

  predicate AllCallFrom(job: Job, i: nat, h: nat)
    requires At(job, i, h)
  {
    && (forall k | h <= k < |job.builders[i].hooks| :: job.builders[i].hooks[k].calls == 1)
    && (forall j, k | i < j < |job.builders| && 0 <= k < |job.builders[j].hooks| :: job.builders[j].hooks[k].calls == 1)
  }

  /** Success over a run that wrote nothing happens exactly when some hook did not call on. */
  lemma SuccessWritesIff(job: Job)
    requires CallsAtMostOnce(job) && NobodySwallows(job) && job.builders != [] && Outcome(job).1
    ensures Outcome(job).0.batches != [] <==> AllCallFrom(job, 0, 0)
  {
    WritesIfAllCall(job, 0, 0, Start(job));
  }

  lemma {:induction false} WritesIfAllCall(job: Job, i: nat, h: nat, s: State)
    requires At(job, i, h) && Sized(job, s) && CallsAtMostOnce(job) && NobodySwallows(job) && Run(job, i, h, s).1
    ensures |Run(job, i, h, s).0.batches| == |s.batches| + if AllCallFrom(job, i, h) then 1 else 0
    decreases |job.builders| - i, |job.builders[i].hooks| - h
  {
    var b := job.builders[i];
    var entered := s.(trace := s.trace + [Enter(Depth(job.builders, i, h))]);
    if h < |b.hooks| {
      var hook := b.hooks[h];
      assert hook.calls <= 1 && !hook.swallows;
      var edited := entered.(muts := entered.muts[i := entered.muts[i].(fields := hook.edit(entered.muts[i].fields))]);
      if hook.calls == 1 {
        OneCall(job, i, h, edited);
        WritesIfAllCall(job, i, h + 1, edited);
      } else {
        assert RunCalls(job, i, h, 0, edited) == (edited, true);
      }
      assert AllCallFrom(job, i, h) <==> b.hooks[h].calls == 1 && AllCallFrom(job, i, h + 1);
    } else {
      var f := s.muts[i].fields;
      var created := entered.(nodes := s.nodes[i := Some(f)], specs := s.specs[i := Some(f)]);
      if i + 1 < |job.builders| {
        WritesIfAllCall(job, i + 1, 0, created);
        AllCallNext(job, i);
      }
    }
  }

  lemma AllCallNext(job: Job, i: nat)
    requires i + 1 < |job.builders|
    ensures AllCallFrom(job, i, |job.builders[i].hooks|) <==> AllCallFrom(job, i + 1, 0)
  {
  }

  /** How many batches a run issues when nothing stops it. */
  function Product(job: Job, i: nat, h: nat): nat
    requires At(job, i, h)
    decreases |job.builders| - i, |job.builders[i].hooks| - h
  {
    if h < |job.builders[i].hooks| then job.builders[i].hooks[h].calls * Product(job, i, h + 1)
    else if i + 1 < |job.builders| then Product(job, i + 1, 0)
    else 1
  }

  /** Nothing rejects and the store takes everything. */
  ghost predicate Unopposed(job: Job) {
    && (forall f :: job.valid(f)) && (forall k :: job.accepts(k))
    && forall i, h | 0 <= i < |job.builders| && 0 <= h < |job.builders[i].hooks| ::
         !job.builders[i].hooks[h].before && !job.builders[i].hooks[h].after
  }

  lemma {:induction false} BatchesMultiply(job: Job, i: nat, h: nat, s: State)
    requires At(job, i, h) && Sized(job, s) && Unopposed(job)
    ensures Run(job, i, h, s).1 && |Run(job, i, h, s).0.batches| == |s.batches| + Product(job, i, h)
    decreases |job.builders| - i, |job.builders[i].hooks| - h, 1
  {
    var b := job.builders[i];
    var entered := s.(trace := s.trace + [Enter(Depth(job.builders, i, h))]);
    if h < |b.hooks| {
      var hook := b.hooks[h];
      assert !hook.before && !hook.after;
      var edited := entered.(muts := entered.muts[i := entered.muts[i].(fields := hook.edit(entered.muts[i].fields))]);
      CallsMultiply(job, i, h, hook.calls, edited);
    } else if i + 1 < |job.builders| {
      var f := s.muts[i].fields;
      BatchesMultiply(job, i + 1, 0, entered.(nodes := s.nodes[i := Some(f)], specs := s.specs[i := Some(f)]));
    }
  }

  lemma {:induction false} CallsMultiply(job: Job, i: nat, h: nat, k: nat, s: State)
    requires At(job, i, h + 1) && Sized(job, s) && Unopposed(job)
    ensures RunCalls(job, i, h, k, s).1
    ensures |RunCalls(job, i, h, k, s).0.batches| == |s.batches| + k * Product(job, i, h + 1)
    decreases |job.builders| - i, |job.builders[i].hooks| - h, 0, k
  {
    if k > 0 {
      BatchesMultiply(job, i, h + 1, s);
      CallsMultiply(job, i, h, k - 1, Run(job, i, h + 1, s).0);
      assert k * Product(job, i, h + 1) == Product(job, i, h + 1) + (k - 1) * Product(job, i, h + 1);
    }
  }

  /**
    Unopposed, the batch is issued once for every way through the hooks: at most once exactly
    when the calls multiply to at most one.
  */
  lemma BatchesAreTheProduct(job: Job)
    requires Unopposed(job) && job.builders != []
    ensures |Outcome(job).0.batches| == Product(job, 0, 0)
  {
    BatchesMultiply(job, 0, 0, Start(job));
  }
}
