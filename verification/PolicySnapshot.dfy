/**
  Saving and restoring the approval policies around a test run that may be killed at any
  point. The snapshot file is written only when there is none, and removed only after every
  policy was posted again. Writing or removing the file is one step; the JSON in it is
  taken to read back as written.

  Policies are compared as the API lists them, so without their ids. `outcome` arguments say
  how the server answers a call.
*/
module PolicySnapshot {
  import opened Common
  import opened Policies

  /** The server, one listed policy per scope: what the two unique indexes allow. */
  type Server = map<Scope, Policy>

  predicate Listable(s: Server) {
    forall scope | scope in s :: s[scope].scope == scope && WellFormed(s[scope])
  }

  /** What the server lists after accepting a listed policy's body. */
  function Reposted(p: Policy): Policy
    requires WellScoped(PostBody(p))
  {
    Rendered(Built(PostBody(p)))
  }

  lemma RepostedIsListed(p: Policy)
    requires WellFormed(p)
    ensures WellScoped(PostBody(p)) && Reposted(p) == p
  {
    assert Rendered(p) == p;
    ListThenPost(p);
  }

  function AsServer(saved: seq<Policy>): Server {
    if saved == [] then map[] else AsServer(saved[..|saved| - 1])[saved[|saved| - 1].scope := saved[|saved| - 1]]
  }

  predicate DistinctScopes(saved: seq<Policy>) {
    forall i, j | 0 <= i < j < |saved| :: saved[i].scope != saved[j].scope
  }

  /** A listing of the server, in whatever order it comes. */
  predicate Lists(saved: seq<Policy>, s: Server) {
    DistinctScopes(saved) && AsServer(saved) == s
  }

  /** Where the process is. `left` records which policies a restore failed to delete. */
  datatype Phase =
    | Idle
    | Testing
    | Clearing(todo: set<Scope>, left: set<Scope>)
    | Posting(next: nat, left: set<Scope>)

  datatype World = World(server: Server, file: Option<seq<Policy>>, phase: Phase)

  datatype Step =
    | Save(listing: seq<Policy>, outcome: bool)
    | Test(server: Server)
    | Restore(outcome: bool)
    | Delete(scope: Scope, outcome: bool)
    | Post(outcome: bool)
    | Unlink
    | Kill

  /** A listing the server returns is a listing of the server; what tests leave there is something it can hold. */
  ghost predicate Possible(w: World, s: Step) {
    match s
    case Save(listing, outcome) => outcome ==> Lists(listing, w.server)
    case Test(server) => Listable(server)
    case _ => true
  }

  function Next(w: World, s: Step): World {
    match s
    case Save(listing, outcome) =>
      if !w.phase.Idle? then w
      else if w.file.Some? then w.(phase := Testing)
      else World(w.server, Some(if outcome then listing else []), Testing)
    case Test(server) => if w.phase.Testing? || w.phase.Idle? then w.(server := server) else w
    case Restore(outcome) =>
      if !w.phase.Testing? || w.file.None? then w
      else w.(phase := Clearing(if outcome then w.server.Keys else {}, if outcome then {} else w.server.Keys))
    case Delete(scope, outcome) =>
      if !w.phase.Clearing? || scope !in w.phase.todo then w
      else if outcome then w.(server := w.server - {scope}, phase := w.phase.(todo := w.phase.todo - {scope}))
      else w.(phase := Clearing(w.phase.todo - {scope}, w.phase.left + {scope}))
    case Post(outcome) =>
      if w.file.None? then w
      else if w.phase.Clearing? && w.phase.todo == {} then w.(phase := Posting(0, w.phase.left))
      else if !w.phase.Posting? || w.phase.next >= |w.file.value| then w
      else
        var p := w.file.value[w.phase.next];
        if outcome && p.scope !in w.server && WellScoped(PostBody(p))
        then w.(server := w.server[p.scope := Reposted(p)], phase := w.phase.(next := w.phase.next + 1))
        else w.(phase := Idle)
    case Unlink =>
      if !w.phase.Posting? || w.file.None? || w.phase.next < |w.file.value| then w
      else World(w.server, None, Idle)
    case Kill => w.(phase := Idle)
  }

  ghost predicate Runs(w: World, steps: seq<Step>)
    decreases |steps|
  {
    steps == [] || (Possible(w, steps[0]) && Runs(Next(w, steps[0]), steps[1..]))
  }

  function After(w: World, steps: seq<Step>): World
    decreases |steps|
  {
    if steps == [] then w else After(Next(w, steps[0]), steps[1..])
  }

  // ---- The invariant ----

  /** During a restore, the server holds what was not deleted and what was posted so far, and no scope twice. */
  ghost predicate Consistent(w: World) {
    && Listable(w.server)
    && (w.file.Some? ==> DistinctScopes(w.file.value))
    && (w.file.Some? ==> forall k | 0 <= k < |w.file.value| :: WellFormed(w.file.value[k]))
    && (!w.phase.Idle? ==> w.file.Some?)
    && (w.phase.Clearing? ==> w.server.Keys == w.phase.todo + w.phase.left && w.phase.todo !! w.phase.left)
    && (w.phase.Posting? ==>
      w.phase.next <= |w.file.value| && PostedSoFar(w.server, w.phase.left, w.file.value, w.phase.next))
  }

  ghost predicate PostedSoFar(s: Server, left: set<Scope>, saved: seq<Policy>, n: nat)
    requires n <= |saved|
  {
    && s.Keys == left + AsServer(saved[..n]).Keys && left !! AsServer(saved[..n]).Keys
    && forall k | 0 <= k < n :: saved[k].scope in s && s[saved[k].scope] == saved[k]
  }

  lemma PostedOneMore(s: Server, left: set<Scope>, saved: seq<Policy>, n: nat)
    requires n < |saved| && DistinctScopes(saved) && PostedSoFar(s, left, saved, n) && saved[n].scope !in s
    ensures PostedSoFar(s[saved[n].scope := saved[n]], left, saved, n + 1)
  {
    var longer := saved[..n + 1];
    assert longer[..n] == saved[..n];
    assert AsServer(longer) == AsServer(saved[..n])[saved[n].scope := saved[n]];
  }

  lemma {:induction false} ScopesOf(saved: seq<Policy>, scope: Scope)
    requires DistinctScopes(saved)
    ensures scope in AsServer(saved) <==> exists k :: 0 <= k < |saved| && saved[k].scope == scope
    ensures forall k | 0 <= k < |saved| ::
      saved[k].scope in AsServer(saved) && AsServer(saved)[saved[k].scope] == saved[k]
  {
    if saved != [] {
      var n := |saved| - 1;
      var front := saved[..n];
      ScopesOf(front, scope);
      assert forall k | 0 <= k < n :: front[k] == saved[k];
    }
  }

  lemma StartPostingConsistent(w: World, outcome: bool)
    requires Consistent(w) && w.phase.Clearing? && w.phase.todo == {}
    ensures Consistent(Next(w, Post(outcome)))
  {
    assert w.file.value[..0] == [];
  }

  lemma PostOneConsistent(w: World, outcome: bool)
    requires Consistent(w) && w.phase.Posting? && w.phase.next < |w.file.value|
    ensures Consistent(Next(w, Post(outcome)))
  {
    var saved, n := w.file.value, w.phase.next;
    RepostedIsListed(saved[n]);
    if saved[n].scope !in w.server {
      PostedOneMore(w.server, w.phase.left, saved, n);
    }
  }

  lemma NextConsistent(w: World, s: Step)
    requires Consistent(w) && Possible(w, s)
    ensures Consistent(Next(w, s))
  {
    if s.Post? && w.phase.Clearing? && w.phase.todo == {} {
      StartPostingConsistent(w, s.outcome);
    } else if s.Post? && w.phase.Posting? && w.phase.next < |w.file.value| {
      PostOneConsistent(w, s.outcome);
    } else if s.Save? && s.outcome {
      forall k | 0 <= k < |s.listing|
        ensures WellFormed(s.listing[k])
      {
        ScopesOf(s.listing, s.listing[k].scope);
      }
    }
  }

  lemma {:induction false} RunConsistent(w: World, steps: seq<Step>)
    requires Consistent(w) && Runs(w, steps)
    ensures Consistent(After(w, steps))
    decreases |steps|
  {
    if steps != [] {
      NextConsistent(w, steps[0]);
      RunConsistent(Next(w, steps[0]), steps[1..]);
    }
  }

  function Fresh(server: Server): World {
    World(server, None, Idle)
  }

  /** The step writes the file: a save that finds none. */
  predicate Writes(w: World, s: Step) {
    s.Save? && w.phase.Idle? && w.file.None?
  }

  /** The step removes the file: the end of a restore that posted everything. */
  predicate Removes(w: World, s: Step) {
    s.Unlink? && w.phase.Posting? && w.file.Some? && w.phase.next >= |w.file.value|
  }

  predicate NeverRemoves(w: World, steps: seq<Step>)
    decreases |steps|
  {
    steps == [] || (!Removes(w, steps[0]) && NeverRemoves(Next(w, steps[0]), steps[1..]))
  }

  /** Until a restore finishes, no run changes the file, however many are started and killed. */
  lemma {:induction false} FileStays(w: World, steps: seq<Step>)
    requires w.file.Some? && NeverRemoves(w, steps)
    ensures After(w, steps).file == w.file
    decreases |steps|
  {
    if steps != [] {
      FileStays(Next(w, steps[0]), steps[1..]);
    }
  }

  /** Step k wrote the file that is there now: it found none, and nothing has removed it since. */
  predicate WroteTheFile(w: World, steps: seq<Step>, k: int) {
    0 <= k < |steps| && Writes(After(w, steps[..k]), steps[k])
    && NeverRemoves(After(w, steps[..k + 1]), steps[k + 1..])
  }

  lemma AfterPrefix(w: World, steps: seq<Step>, k: nat)
    requires 0 < k <= |steps|
    ensures After(w, steps[..k]) == After(Next(w, steps[0]), steps[1..][..k - 1])
  {
    assert steps[..k][1..] == steps[1..][..k - 1];
  }

  /** A file that is there was written by some step of the run, or was there before it. */
  lemma {:induction false} SomebodyWrote(w: World, steps: seq<Step>) returns (k: int)
    requires After(w, steps).file.Some?
    ensures k == -1 || WroteTheFile(w, steps, k)
    ensures k == -1 ==> w.file.Some? && NeverRemoves(w, steps)
    decreases |steps|
  {
    k := -1;
    if steps != [] {
      var next := Next(w, steps[0]);
      var later := SomebodyWrote(next, steps[1..]);
      if later >= 0 {
        k := later + 1;
        AfterPrefix(w, steps, k);
        AfterPrefix(w, steps, k + 1);
        assert steps[1..][later + 1..] == steps[k + 1..];
      } else if !(w.file.Some? && !Removes(w, steps[0])) {
        k := 0;
        assert steps[..0] == [];
        AfterPrefix(w, steps, 1);
        assert steps[1..][..0] == [];
      }
    }
  }

  lemma {:induction false} AfterSplit(w: World, steps: seq<Step>, k: nat)
    requires k <= |steps|
    ensures After(w, steps) == After(After(w, steps[..k]), steps[k..])
    decreases k
  {
    if k > 0 {
      AfterSplit(Next(w, steps[0]), steps[1..], k - 1);
      AfterPrefix(w, steps, k);
      assert steps[1..][k - 1..] == steps[k..];
    } else {
      assert steps[..0] == [] && steps[0..] == steps;
    }
  }

  lemma {:induction false} RunsPrefix(w: World, steps: seq<Step>, k: nat)
    requires k < |steps| && Runs(w, steps)
    ensures Runs(w, steps[..k]) && Possible(After(w, steps[..k]), steps[k])
    decreases k
  {
    if k > 0 {
      RunsPrefix(Next(w, steps[0]), steps[1..], k - 1);
      AfterPrefix(w, steps, k);
      assert steps[..k][1..] == steps[1..][..k - 1];
    } else {
      assert steps[..0] == [];
    }
  }

  /**
    Over any sequence of runs killed at any point: a file is there exactly when some run's
    save found none and no restore has finished since. It holds the policies the server had
    at that save exactly when the listing worked or there were none.
  */
  lemma FileHoldsTheBaselineIff(server: Server, steps: seq<Step>)
    requires Listable(server) && Runs(Fresh(server), steps)
    ensures After(Fresh(server), steps).file.Some? <==> exists k :: WroteTheFile(Fresh(server), steps, k)
    ensures forall k | WroteTheFile(Fresh(server), steps, k) ::
      && After(Fresh(server), steps).file.Some?
      && (Lists(After(Fresh(server), steps).file.value, After(Fresh(server), steps[..k]).server)
          <==> steps[k].outcome || After(Fresh(server), steps[..k]).server == map[])
  {
    var start := Fresh(server);
    if After(start, steps).file.Some? {
      var k := SomebodyWrote(start, steps);
    }
    forall k | WroteTheFile(start, steps, k)
      ensures After(start, steps).file.Some?
      ensures Lists(After(start, steps).file.value, After(start, steps[..k]).server)
         <==> steps[k].outcome || After(start, steps[..k]).server == map[]
    {
      WrittenFile(start, steps, k);
      RunsPrefix(start, steps, k);
    }
  }

  /** The file is as the step that wrote it left it. */
  lemma WrittenFile(w: World, steps: seq<Step>, k: nat)
    requires WroteTheFile(w, steps, k)
    ensures After(w, steps).file == Some(if steps[k].outcome then steps[k].listing else [])
  {
    AfterSplit(w, steps, k);
    var before := After(w, steps[..k]);
    assert steps[k..][0] == steps[k] && steps[k..][1..] == steps[k + 1..];
    AfterSplit(w, steps[..k + 1], k);
    assert steps[..k + 1][..k] == steps[..k] && steps[..k + 1][k..] == [steps[k]];
    assert [steps[k]][1..] == [];
    assert After(before, [steps[k]]) == Next(before, steps[k]);
    FileStays(Next(before, steps[k]), steps[k + 1..]);
  }

  /** The restore that is about to return: everything posted, the file about to go. */
  predicate Returning(w: World) {
    w.phase.Posting? && w.file.Some? && w.phase.next == |w.file.value|
  }

  /** A restore that returns leaves exactly the policies in the file exactly when nothing escaped deletion. */
  lemma RestoreIsExactIff(w: World)
    requires Consistent(w) && Returning(w)
    ensures Next(w, Unlink).file == None
    ensures Next(w, Unlink).server == AsServer(w.file.value) <==> w.phase.left == {}
  {
    var saved := w.file.value;
    assert saved[..|saved|] == saved;
    if w.phase.left == {} {
      forall scope | scope in w.server
        ensures scope in AsServer(saved) && AsServer(saved)[scope] == w.server[scope]
      {
        ScopesOf(saved, scope);
      }
      assert w.server == AsServer(saved);
    }
  }

  /**
    From the first unfinished run to the restore that returns, over every sequence of runs
    killed in between: the server ends with exactly the policies it had at that run's save,
    up to ids, exactly when nothing escaped deletion, given that the listing at the save worked.
  */
  lemma RestoreReturnsToTheStartIff(server: Server, steps: seq<Step>, k: int)
    requires Listable(server) && Runs(Fresh(server), steps) && WroteTheFile(Fresh(server), steps, k)
    requires steps[k].outcome && Returning(After(Fresh(server), steps))
    ensures Next(After(Fresh(server), steps), Unlink).server == After(Fresh(server), steps[..k]).server
       <==> After(Fresh(server), steps).phase.left == {}
  {
    RunConsistent(Fresh(server), steps);
    FileHoldsTheBaselineIff(server, steps);
    RestoreIsExactIff(After(Fresh(server), steps));
  }

  predicate OnlyPosts(steps: seq<Step>) {
    forall k | 0 <= k < |steps| :: steps[k].Post?
  }

  /** Posting neither touches the file nor forgets what escaped deletion, and once given up stays so. */
  lemma {:induction false} PostsKeep(w: World, steps: seq<Step>)
    requires w.file.Some? && (w.phase.Posting? || w.phase.Idle?) && OnlyPosts(steps)
    ensures var end := After(w, steps);
            && end.file == w.file
            && (end.phase.Posting? ==> w.phase.Posting? && end.phase.left == w.phase.left)
    decreases |steps|
  {
    if steps != [] {
      assert forall k | 0 <= k < |steps| - 1 :: steps[1..][k] == steps[k + 1];
      PostsKeep(Next(w, steps[0]), steps[1..]);
    }
  }

  lemma {:induction false} PostsAreRuns(w: World, steps: seq<Step>)
    requires OnlyPosts(steps)
    ensures Runs(w, steps)
    decreases |steps|
  {
    if steps != [] {
      assert forall k | 0 <= k < |steps| - 1 :: steps[1..][k] == steps[k + 1];
      PostsAreRuns(Next(w, steps[0]), steps[1..]);
    }
  }

  /** With a server that accepts every post, nothing escaped stands in the way of the rest of the file. */
  lemma {:induction false} PostTheRest(w: World) returns (steps: seq<Step>)
    requires Consistent(w) && w.phase.Posting? && w.phase.left !! AsServer(w.file.value).Keys
    ensures OnlyPosts(steps) && Returning(After(w, steps))
    decreases |w.file.value| - w.phase.next
  {
    var saved, n := w.file.value, w.phase.next;
    if n == |saved| {
      steps := [];
    } else {
      ScopesOf(saved, saved[n].scope);
      ScopesOf(saved[..n], saved[n].scope);
      RepostedIsListed(saved[n]);
      NextConsistent(w, Post(true));
      var rest := PostTheRest(Next(w, Post(true)));
      steps := [Post(true)] + rest;
      assert steps[1..] == rest;
    }
  }

  /**
    A restore that has begun to post can return, if the server accepts what it can, exactly
    when no policy that escaped deletion is also in the file. Otherwise every try ends with
    the file still there.
  */
  lemma RestoreCanReturnIff(w: World)
    requires Consistent(w) && w.phase.Posting?
    ensures (exists steps :: OnlyPosts(steps) && Returning(After(w, steps)))
       <==> w.phase.left !! AsServer(w.file.value).Keys
    ensures forall steps | OnlyPosts(steps) :: After(w, steps).file == w.file
  {
    var saved := w.file.value;
    forall steps | OnlyPosts(steps)
      ensures After(w, steps).file == w.file
      ensures Returning(After(w, steps)) ==> w.phase.left !! AsServer(saved).Keys
    {
      PostsKeep(w, steps);
      PostsAreRuns(w, steps);
      RunConsistent(w, steps);
      assert saved[..|saved|] == saved;
    }
    if w.phase.left !! AsServer(saved).Keys {
      var steps := PostTheRest(w);
    }
  }

  // ---- A restore that is not killed ----

  method ClearPolicies(s: Server, listing: bool, deletes: set<Scope>) returns (rest: Server)
    ensures rest == if listing then s - deletes else s
  {
    rest := s;
    if !listing { return; }
    var todo := s.Keys;
    while todo != {}
      invariant todo <= s.Keys
      invariant rest == map scope | scope in s && (scope in todo || scope !in deletes) :: s[scope]
      decreases todo
    {
      var scope :| scope in todo;
      if scope in deletes {
        rest := rest - {scope};
      }
      todo := todo - {scope};
    }
    assert rest == s - deletes;
  }

  /**
    The whole restore. It succeeds exactly when no saved scope was left undeleted and every
    post is accepted; then the server holds the saved policies over what was left, and the
    file is gone. Otherwise the file is as it was.
  */
  method RestorePolicies(s: Server, file: seq<Policy>, listing: bool, deletes: set<Scope>, posts: nat -> bool)
    returns (after: Server, file': Option<seq<Policy>>)
    requires DistinctScopes(file) && forall k | 0 <= k < |file| :: WellFormed(file[k])
    ensures file' == None || file' == Some(file)
    ensures var rest := if listing then s - deletes else s;
            && (file' == None <==> forall k | 0 <= k < |file| :: posts(k) && file[k].scope !in rest)
            && (file' == None ==> after == rest + AsServer(file))
  {
    after := ClearPolicies(s, listing, deletes);
    ghost var rest := after;
    for k := 0 to |file|
      invariant forall j | 0 <= j < k :: posts(j) && file[j].scope !in rest
      invariant after == rest + AsServer(file[..k])
    {
      assert file[..k + 1][..k] == file[..k];
      ScopesOf(file[..k], file[k].scope);
      RepostedIsListed(file[k]);
      if !posts(k) || file[k].scope in after {
        return after, Some(file);
      }
      after := after[file[k].scope := Reposted(file[k])];
    }
    assert file[..|file|] == file;
    return after, None;
  }

  // ---- The steps of a restore, put together ----

  lemma {:induction false} AfterBoth(w: World, a: seq<Step>, b: seq<Step>)
    ensures After(w, a + b) == After(After(w, a), b)
    ensures Runs(w, a) && Runs(After(w, a), b) ==> Runs(w, a + b)
    decreases |a|
  {
    if a == [] {
      assert a + b == b;
    } else {
      assert (a + b)[0] == a[0] && (a + b)[1..] == a[1..] + b;
      AfterBoth(Next(w, a[0]), a[1..], b);
    }
  }

  lemma OneStep(w: World, s: Step)
    ensures After(w, [s]) == Next(w, s)
    ensures Possible(w, s) ==> Runs(w, [s])
  {
    assert [s][1..] == [];
  }

  /** Whatever answers the deletes get: what was deleted is gone, what was not is remembered. */
  function Cleared(w: World, deletes: set<Scope>): World
    requires w.phase.Clearing?
  {
    World(w.server - (w.phase.todo * deletes), w.file, Clearing({}, w.phase.left + (w.phase.todo - deletes)))
  }

  lemma {:induction false} ClearingSteps(w: World, deletes: set<Scope>) returns (steps: seq<Step>)
    requires w.phase.Clearing? && w.phase.todo <= w.server.Keys
    ensures Runs(w, steps) && After(w, steps) == Cleared(w, deletes)
    decreases |w.phase.todo|
  {
    if w.phase.todo == {} {
      NothingToClear(w, deletes);
      steps := [];
    } else {
      var scope :| scope in w.phase.todo;
      var s := Delete(scope, scope in deletes);
      ClearOne(w, scope, deletes);
      var rest := ClearingSteps(Next(w, s), deletes);
      steps := [s] + rest;
      assert steps[1..] == rest;
    }
  }

  lemma NothingToClear(w: World, deletes: set<Scope>)
    requires w.phase.Clearing? && w.phase.todo == {}
    ensures Cleared(w, deletes) == w
  {
  }

  lemma ClearOne(w: World, scope: Scope, deletes: set<Scope>)
    requires w.phase.Clearing? && scope in w.phase.todo && w.phase.todo <= w.server.Keys
    ensures var next := Next(w, Delete(scope, scope in deletes));
            && next.phase.Clearing? && next.phase.todo <= next.server.Keys
            && |next.phase.todo| < |w.phase.todo|
            && Cleared(next, deletes) == Cleared(w, deletes)
  {
    var next := Next(w, Delete(scope, scope in deletes));
    assert next.phase.todo == w.phase.todo - {scope};
    if scope in deletes {
      assert w.phase.todo * deletes == next.phase.todo * deletes + {scope};
      assert w.phase.todo - deletes == next.phase.todo - deletes;
      assert w.server - (w.phase.todo * deletes) == next.server - (next.phase.todo * deletes);
    } else {
      assert w.phase.todo * deletes == next.phase.todo * deletes;
      assert w.phase.left + (w.phase.todo - deletes) == next.phase.left + (next.phase.todo - deletes);
    }
  }

  /** Posting all of the file, when the server accepts every post and nothing stands in the way. */
  lemma {:induction false} PostingSteps(w: World) returns (steps: seq<Step>)
    requires Consistent(w) && w.phase.Posting? && w.phase.left == {}
    ensures Runs(w, steps)
    ensures After(w, steps) == World(AsServer(w.file.value), w.file, Posting(|w.file.value|, {}))
    decreases |w.file.value| - w.phase.next
  {
    var saved, n := w.file.value, w.phase.next;
    if n == |saved| {
      steps := [];
      RestoreIsExactIff(w);
    } else {
      ScopesOf(saved[..n], saved[n].scope);
      RepostedIsListed(saved[n]);
      NextConsistent(w, Post(true));
      var rest := PostingSteps(Next(w, Post(true)));
      steps := [Post(true)] + rest;
      assert steps[1..] == rest;
    }
  }

  /**
    A restore that nothing disturbs, from tests that left anything at all: the server holds
    the file, and the file is gone.
  */
  lemma WholeRestore(w: World) returns (steps: seq<Step>)
    requires Consistent(w) && w.phase.Testing?
    ensures Runs(w, steps) && After(w, steps) == World(AsServer(w.file.value), None, Idle)
  {
    var cleared := Next(w, Restore(true));
    NextConsistent(w, Restore(true));
    OneStep(w, Restore(true));
    var deletes := ClearingSteps(cleared, cleared.phase.todo);
    var empty := After(cleared, deletes);
    RunConsistent(cleared, deletes);
    var posting := Next(empty, Post(true));
    NextConsistent(empty, Post(true));
    OneStep(empty, Post(true));
    var posts := PostingSteps(posting);
    var posted := After(posting, posts);
    OneStep(posted, Unlink);
    AfterBoth(posting, posts, [Unlink]);
    AfterBoth(empty, [Post(true)], posts + [Unlink]);
    AfterBoth(cleared, deletes, [Post(true)] + (posts + [Unlink]));
    AfterBoth(w, [Restore(true)], deletes + ([Post(true)] + (posts + [Unlink])));
    steps := [Restore(true)] + (deletes + ([Post(true)] + (posts + [Unlink])));
  }

  /**
    What the file is for. A run is killed anywhere, in its tests or half way through a
    restore; the next one saves, which does nothing, its tests leave anything, and it
    restores: the server ends with what the file holds, and the file is gone.
  */
  lemma NextRunFinishesTheRestore(w: World, other: seq<Policy>, outcome: bool, second: Server)
    returns (steps: seq<Step>)
    requires Consistent(w) && w.file.Some?
    requires Listable(second) && (outcome ==> Lists(other, w.server))
    ensures Runs(w, [Kill, Save(other, outcome), Test(second)] + steps)
    ensures After(w, [Kill, Save(other, outcome), Test(second)] + steps) == World(AsServer(w.file.value), None, Idle)
  {
    var front := [Kill, Save(other, outcome), Test(second)];
    assert front == [front[0]] + ([front[1]] + [front[2]]);
    var killed := World(w.server, w.file, Idle);
    var saved := World(w.server, w.file, Testing);
    var tested := World(second, w.file, Testing);
    OneStep(w, front[0]);
    OneStep(killed, front[1]);
    OneStep(saved, front[2]);
    AfterBoth(killed, [front[1]], [front[2]]);
    AfterBoth(w, [front[0]], [front[1]] + [front[2]]);
    assert After(w, front) == tested;
    RunConsistent(w, front);
    steps := WholeRestore(tested);
    AfterBoth(w, front, steps);
  }

  /** A post that is refused, or that meets a policy that is still there, gives the restore up and leaves the rest. */
  lemma GivesUpIff(w: World, outcome: bool)
    requires Consistent(w) && w.phase.Posting? && w.phase.next < |w.file.value|
    ensures var next := Next(w, Post(outcome));
            && next.file == w.file
            && (next.phase.Idle? <==> !outcome || w.file.value[w.phase.next].scope in w.server)
            && (next.phase.Idle? ==> next.server == w.server)
  {
    RepostedIsListed(w.file.value[w.phase.next]);
  }
}
