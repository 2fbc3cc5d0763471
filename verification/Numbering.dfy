/**
  Numbering change requests within one namespace: read the greatest number, insert the next
  one, and let the unique index decide; try again up to three times.
*/
module Numbering {
  type Caller(==, !new)

  const ATTEMPTS := 3

  /** `since` records how many numbers had been issued when the create began. */
  datatype Phase =
    | Reading(left: nat, since: nat)
    | Holding(next: nat, left: nat, since: nat)

  /** `issued` is every number ever given out, in order; `live` are the rows that exist. */
  datatype World = World(live: set<nat>, issued: seq<nat>, busy: map<Caller, Phase>)

  datatype Step = Begin(c: Caller) | Read(c: Caller, top: nat) | Insert(c: Caller) | Delete(n: nat)

  const START := World({}, [], map[])

  /** The greatest live number, or 0 when there is none. */
  predicate IsTop(live: set<nat>, top: nat) {
    (if live == {} then top == 0 else top in live) && forall n | n in live :: n <= top
  }

  predicate Possible(w: World, s: Step) {
    s.Read? ==> IsTop(w.live, s.top)
  }

  predicate Taken(w: World, s: Step) {
    s.Insert? && s.c in w.busy && w.busy[s.c].Holding? && w.busy[s.c].next in w.live
  }

  /** The create reports an error: its last attempt met a taken number. */
  predicate GivesUp(w: World, s: Step) {
    Taken(w, s) && w.busy[s.c].left <= 1
  }

  function Next(w: World, s: Step): World {
    match s
    case Begin(c) => if c in w.busy then w else w.(busy := w.busy[c := Reading(ATTEMPTS, |w.issued|)])
    case Read(c, top) =>
      if c !in w.busy || !w.busy[c].Reading? then w
      else w.(busy := w.busy[c := Holding(top + 1, w.busy[c].left, w.busy[c].since)])
    case Insert(c) =>
      if c !in w.busy || !w.busy[c].Holding? then w
      else
        var h := w.busy[c];
        if h.next !in w.live then World(w.live + {h.next}, w.issued + [h.next], w.busy - {c})
        else if h.left <= 1 then w.(busy := w.busy - {c})
        else w.(busy := w.busy[c := Reading(h.left - 1, h.since)])
    case Delete(n) => w.(live := w.live - {n})
  }

  /**
    One caller, step by step. A create begins with three attempts; reading makes it hold one
    more than the greatest number there is; inserting ends it when the number is free or the
    attempt was its last, and otherwise costs the attempt. Nobody else's step touches it.
  */
  lemma CallerMoves(w: World, s: Step, c: Caller)
    requires Possible(w, s)
    ensures var was := if c in w.busy then {w.busy[c]} else {};
            var is_ := if c in Next(w, s).busy then {Next(w, s).busy[c]} else {};
            is_ ==
            if c !in w.busy then (if s == Begin(c) then {Reading(3, |w.issued|)} else {})
            else if s.Read? && s.c == c && w.busy[c].Reading? then
              {Holding(s.top + 1, w.busy[c].left, w.busy[c].since)}
            else if s == Insert(c) && w.busy[c].Holding? then
              (if w.busy[c].next !in w.live || w.busy[c].left <= 1 then {}
               else {Reading(w.busy[c].left - 1, w.busy[c].since)})
            else was
  {
  }

  /** Which numbers exist and which were given out, step by step. */
  lemma NumbersMove(w: World, s: Step, n: nat)
    ensures var gives := s.Insert? && s.c in w.busy && w.busy[s.c].Holding? && w.busy[s.c].next !in w.live;
            && (n in Next(w, s).live
                <==> (n in w.live && s != Delete(n)) || (gives && n == w.busy[s.c].next))
            && Next(w, s).issued == if gives then w.issued + [w.busy[s.c].next] else w.issued
  {
  }

  predicate Runs(w: World, steps: seq<Step>)
    decreases |steps|
  {
    steps == [] || (Possible(w, steps[0]) && Runs(Next(w, steps[0]), steps[1..]))
  }

  function After(w: World, steps: seq<Step>): World
    decreases |steps|
  {
    if steps == [] then w else After(Next(w, steps[0]), steps[1..])
  }

  predicate NoDeletes(steps: seq<Step>) {
    forall i | 0 <= i < |steps| :: !steps[i].Delete?
  }

  /**
    Without deletes the numbers are 1, 2, 3, ... in order, all live; a caller holds at most
    the next one, and every retry it has spent was a number somebody else was given.
  */
  ghost predicate Gapless(w: World) {
    && (forall i | 0 <= i < |w.issued| :: w.issued[i] == i + 1)
    && (forall n :: n in w.live <==> 1 <= n <= |w.issued|)
    && (forall c | c in w.busy ::
      1 <= w.busy[c].left <= ATTEMPTS && w.busy[c].since + ATTEMPTS - w.busy[c].left <= |w.issued|)
    && (forall c | c in w.busy && w.busy[c].Holding? ::
          w.busy[c].since + ATTEMPTS - w.busy[c].left < w.busy[c].next <= |w.issued| + 1)
  }

  lemma GaplessStep(w: World, s: Step)
    requires Gapless(w) && Possible(w, s) && !s.Delete?
    ensures Gapless(Next(w, s))
    ensures GivesUp(w, s) ==> w.busy[s.c].since + ATTEMPTS <= |w.issued|
  {
    if s.Read? {
      assert w.live == {} || s.top in w.live;
      assert |w.issued| > 0 ==> |w.issued| in w.live;
    }
  }

  lemma {:induction false} GaplessRun(w: World, steps: seq<Step>)
    requires Gapless(w) && Runs(w, steps) && NoDeletes(steps)
    ensures Gapless(After(w, steps))
    decreases |steps|
  {
    if steps != [] {
      assert !steps[0].Delete?;
      GaplessStep(w, steps[0]);
      assert forall i | 0 <= i < |steps| - 1 :: steps[1..][i] == steps[i + 1];
      GaplessRun(Next(w, steps[0]), steps[1..]);
    }
  }

  /** Over every interleaving of creates, the numbers given out are exactly 1 to k, each once, in order. */
  lemma NumbersAreGapless(steps: seq<Step>)
    requires Runs(START, steps) && NoDeletes(steps)
    ensures forall i | 0 <= i < |After(START, steps).issued| :: After(START, steps).issued[i] == i + 1
  {
    GaplessRun(START, steps);
  }

  /** A create gives up only after at least as many others got a number while it was trying. */
  lemma GivingUpMeansOvertaken(steps: seq<Step>, s: Step)
    requires Runs(START, steps) && NoDeletes(steps) && Possible(After(START, steps), s)
    requires GivesUp(After(START, steps), s)
    ensures var w := After(START, steps); |w.issued| >= w.busy[s.c].since + ATTEMPTS
  {
    GaplessRun(START, steps);
    GaplessStep(After(START, steps), s);
  }

  // ---- One create ----

  lemma {:induction false} TopExists(live: set<nat>) returns (top: nat)
    ensures IsTop(live, top)
    decreases |live|
  {
    if live == {} {
      top := 0;
    } else {
      var n :| n in live;
      var rest := live - {n};
      assert live == rest + {n};
      var below := TopExists(rest);
      top := if below > n then below else n;
      assert rest == {} ==> below == 0;
    }
  }

  ghost function Top(live: set<nat>): (top: nat)
    ensures IsTop(live, top)
  {
    assert exists t :: IsTop(live, t) by {
      var t := TopExists(live);
    }
    var t :| IsTop(live, t);
    t
  }

  /** The rows of one namespace. */
  class NumberTable {
    var live: set<nat>

    constructor ()
      ensures live == {}
    {
      live := {};
    }

    method NextNumber() returns (next: nat)
      ensures next == Top(live) + 1
    {
      var todo, last := live, 0;
      while todo != {}
        invariant todo <= live
        invariant forall n | n in live && n !in todo :: n <= last
        invariant last == 0 || last in live
        decreases todo
      {
        var n :| n in todo;
        todo := todo - {n};
        if n > last {
          last := n;
        }
      }
      assert live != {} ==> Top(live) in live;
      return last + 1;
    }

    /**
      One create. `found` and `inserts` are the rows others have left at each attempt's read
      and at its insert, deletions included. It gives up exactly when every attempt finds the
      number it read next taken, and otherwise inserts at the first attempt that does not.
    */
    method CreateNumbered(found: seq<set<nat>>, inserts: seq<set<nat>>) returns (number: nat, ok: bool)
      requires |found| == ATTEMPTS && |inserts| == ATTEMPTS
      modifies this
      ensures !ok <==> forall k | 0 <= k < ATTEMPTS :: Top(found[k]) + 1 in inserts[k]
      ensures ok ==> exists k ::
        && 0 <= k < ATTEMPTS && (forall j | 0 <= j < k :: Top(found[j]) + 1 in inserts[j])
        && number == Top(found[k]) + 1 && number !in inserts[k] && live == inserts[k] + {number}
      ensures !ok ==> live == inserts[ATTEMPTS - 1]
    {
      for k := 0 to ATTEMPTS
        invariant forall j | 0 <= j < k :: Top(found[j]) + 1 in inserts[j]
        invariant k > 0 ==> live == inserts[k - 1]
      {
        live := found[k];
        var next := NextNumber();
        live := inserts[k];
        if next !in live {
          live := live + {next};
          return next, true;
        }
      }
      return 0, false;
    }
  }

  // ---- Reuse ----

  predicate NoReuse(w: World) {
    forall i, j | 0 <= i < j < |w.issued| :: w.issued[i] != w.issued[j]
  }

  lemma {:induction false} RunsThen(w: World, a: seq<Step>, b: seq<Step>)
    requires Runs(w, a) && Runs(After(w, a), b)
    ensures Runs(w, a + b) && After(w, a + b) == After(After(w, a), b)
    decreases |a|
  {
    if a == [] {
      assert a + b == b;
    } else {
      assert (a + b)[1..] == a[1..] + b;
      RunsThen(Next(w, a[0]), a[1..], b);
    }
  }

  lemma One(w: World, s: Step)
    requires Possible(w, s)
    ensures Runs(w, [s]) && After(w, [s]) == Next(w, s)
  {
    assert [s][1..] == [];
  }

  function Creation(c: Caller, top: nat): seq<Step> {
    [Begin(c), Read(c, top), Insert(c)]
  }

  /** An undisturbed create gives out the next number. */
  lemma CreateOne(w: World, c: Caller, top: nat)
    requires c !in w.busy && IsTop(w.live, top)
    ensures Runs(w, Creation(c, top))
    ensures After(w, Creation(c, top)) == World(w.live + {top + 1}, w.issued + [top + 1], w.busy)
  {
    var w1 := Next(w, Begin(c));
    var w2 := Next(w1, Read(c, top));
    var w3 := Next(w2, Insert(c));
    assert w3.busy == w.busy;
    One(w, Begin(c));
    One(w1, Read(c, top));
    One(w2, Insert(c));
    RunsThen(w, [Begin(c)], [Read(c, top)]);
    RunsThen(w, [Begin(c)] + [Read(c, top)], [Insert(c)]);
    assert [Begin(c)] + [Read(c, top)] + [Insert(c)] == Creation(c, top);
  }

  predicate Holds(w: World, c: Caller, n: nat) {
    c in w.busy && w.busy[c].Holding? && w.busy[c].next == n
  }

  /**
    A delete that can bring its number back: of the greatest number, or of one that some
    caller read as free before it was taken and has not tried to insert yet.
  */
  predicate Harmful(w: World, n: nat) {
    n in w.live && ((forall m | m in w.live :: m <= n) || exists c :: c in w.busy && Holds(w, c, n))
  }

  /** The run gives this number out. */
  predicate Issues(w: World, steps: seq<Step>, n: nat) {
    exists k :: |w.issued| <= k < |After(w, steps).issued| && After(w, steps).issued[k] == n
  }

  lemma {:induction false} IssuedStays(w: World, steps: seq<Step>)
    ensures w.issued <= After(w, steps).issued
    decreases |steps|
  {
    if steps != [] {
      IssuedStays(Next(w, steps[0]), steps[1..]);
    }
  }

  /** The number is out of reach: below a live one, and nobody holds it. */
  predicate OutOfReach(w: World, n: nat) {
    (exists m :: m in w.live && m > n) && forall c | c in w.busy :: !Holds(w, c, n)
  }

  lemma OutOfReachStep(w: World, s: Step, n: nat)
    requires OutOfReach(w, n) && Possible(w, s) && !s.Delete?
    ensures OutOfReach(Next(w, s), n)
    ensures |Next(w, s).issued| > |w.issued| ==> Next(w, s).issued[|w.issued|] != n
  {
    var m :| m in w.live && m > n;
    assert m in Next(w, s).live;
    if s.Insert? && s.c in w.busy && w.busy[s.c].Holding? {
      assert !Holds(w, s.c, n);
    }
  }

  lemma {:induction false} NeverIssued(w: World, steps: seq<Step>, n: nat)
    requires OutOfReach(w, n) && Runs(w, steps) && NoDeletes(steps)
    ensures !Issues(w, steps, n)
    decreases |steps|
  {
    if steps != [] {
      assert !steps[0].Delete?;
      var next := Next(w, steps[0]);
      OutOfReachStep(w, steps[0], n);
      assert forall i | 0 <= i < |steps| - 1 :: steps[1..][i] == steps[i + 1];
      NeverIssued(next, steps[1..], n);
      IssuedStays(next, steps[1..]);
      assert After(w, steps) == After(next, steps[1..]);
    }
  }

  /** With everything live below a number, one caller after another create reaches it. */
  lemma {:induction false} CreateUpTo(w: World, c: Caller, top: nat, n: nat) returns (steps: seq<Step>)
    requires c !in w.busy && IsTop(w.live, top) && top < n
    ensures Runs(w, steps) && NoDeletes(steps) && Issues(w, steps, n)
    decreases n - top
  {
    CreateOne(w, c, top);
    var created := After(w, Creation(c, top));
    if top + 1 == n {
      steps := Creation(c, top);
      assert created.issued[|w.issued|] == n;
    } else {
      var more := CreateUpTo(created, c, top + 1, n);
      RunsThen(w, Creation(c, top), more);
      steps := Creation(c, top) + more;
      var k :| |created.issued| <= k < |After(created, more).issued| && After(created, more).issued[k] == n;
      assert After(w, steps).issued[k] == n;
    }
  }

  /** Live numbers were given out, and are at least 1. */
  predicate Sound(w: World) {
    && (forall n | n in w.live :: n >= 1 && n in w.issued)
    && forall c | c in w.busy && w.busy[c].Holding? :: w.busy[c].next >= 1
  }

  lemma {:induction false} SoundRun(w: World, steps: seq<Step>)
    requires Sound(w)
    ensures Sound(After(w, steps))
    decreases |steps|
  {
    if steps != [] {
      SoundRun(Next(w, steps[0]), steps[1..]);
    }
  }

  /**
    In every reachable state with a caller free to create, and for every live number: after
    deleting its row, some run of creates gives the number to another request exactly when
    it was the greatest one, or a caller still held it.
  */
  lemma DeleteLeadsToReuseIff(before: seq<Step>, n: nat, c: Caller)
    requires Runs(START, before)
    requires var w := After(START, before); n in w.live && c !in w.busy
    ensures var w := After(START, before);
            && n in w.issued
            && ((exists later ::
                   Runs(Next(w, Delete(n)), later) && NoDeletes(later) && Issues(Next(w, Delete(n)), later, n))
                <==> Harmful(w, n))
  {
    SoundRun(START, before);
    var w := After(START, before);
    var gone := Next(w, Delete(n));
    if forall m | m in w.live :: m <= n {
      var top := TopExists(gone.live);
      assert top < n;
      var later := CreateUpTo(gone, c, top, n);
    } else if holder :| holder in w.busy && Holds(w, holder, n) {
      One(gone, Insert(holder));
      assert After(gone, [Insert(holder)]).issued[|gone.issued|] == n;
      assert NoDeletes([Insert(holder)]) && Issues(gone, [Insert(holder)], n);
    } else {
      var m :| m in w.live && m > n;
      assert m in gone.live;
      forall later | Runs(gone, later) && NoDeletes(later)
        ensures !Issues(gone, later, n)
      {
        NeverIssued(gone, later, n);
      }
    }
  }

  predicate HarmlessDeletes(w: World, steps: seq<Step>)
    decreases |steps|
  {
    steps == [] || ((steps[0].Delete? ==> !Harmful(w, steps[0].n)) && HarmlessDeletes(Next(w, steps[0]), steps[1..]))
  }

  /** No number given out is above the greatest live one, and nobody holds one whose row is gone. */
  ghost predicate Tight(w: World, top: nat) {
    && NoReuse(w) && IsTop(w.live, top)
    && (forall n | n in w.live :: n in w.issued)
    && (forall n | n in w.issued :: n <= top)
    && (forall n, c | n in w.issued && c in w.busy && Holds(w, c, n) :: n in w.live)
  }

  lemma TightInsert(w: World, c: Caller, top: nat)
    requires Tight(w, top) && c in w.busy && w.busy[c].Holding? && w.busy[c].next !in w.live
    ensures Tight(Next(w, Insert(c)), if w.busy[c].next > top then w.busy[c].next else top)
  {
    var n, w' := w.busy[c].next, Next(w, Insert(c));
    assert n !in w.issued by {
      assert Holds(w, c, n);
    }
    assert forall m :: m in w'.issued <==> m in w.issued || m == n;
    forall m, d | m in w'.issued && d in w'.busy && Holds(w', d, m)
      ensures m in w'.live
    {
      assert Holds(w, d, m);
    }
  }

  lemma TightDelete(w: World, n: nat, top: nat)
    requires Tight(w, top) && !Harmful(w, n)
    ensures Tight(Next(w, Delete(n)), top)
  {
    var w' := Next(w, Delete(n));
    if n in w.live {
      var above :| above in w.live && above > n;
      assert top in w'.live;
    } else {
      assert w.live - {n} == w.live;
    }
    forall m, d | m in w'.issued && d in w'.busy && Holds(w', d, m)
      ensures m in w'.live
    {
      assert Holds(w, d, m);
    }
  }

  lemma TightStep(w: World, s: Step, top: nat) returns (top': nat)
    requires Tight(w, top) && Possible(w, s) && (s.Delete? ==> !Harmful(w, s.n))
    ensures Tight(Next(w, s), top')
  {
    top' := top;
    if s.Delete? {
      TightDelete(w, s.n, top);
    } else if s.Insert? && s.c in w.busy && w.busy[s.c].Holding? && w.busy[s.c].next !in w.live {
      TightInsert(w, s.c, top);
      top' := if w.busy[s.c].next > top then w.busy[s.c].next else top;
    } else {
      FewerHold(w, Next(w, s), top);
    }
  }

  /** Steps that leave the rows can only make somebody hold a number above all given out. */
  lemma FewerHold(w: World, w': World, top: nat)
    requires Tight(w, top) && w'.live == w.live && w'.issued == w.issued
    requires forall c, n: nat | c in w'.busy && Holds(w', c, n) :: n > top || (c in w.busy && Holds(w, c, n))
    ensures Tight(w', top)
  {
  }

  lemma {:induction false} TightRun(w: World, steps: seq<Step>, top: nat)
    requires Tight(w, top) && Runs(w, steps) && HarmlessDeletes(w, steps)
    ensures NoReuse(After(w, steps))
    decreases |steps|
  {
    if steps != [] {
      var top' := TightStep(w, steps[0], top);
      TightRun(Next(w, steps[0]), steps[1..], top');
    }
  }

  /** Over every interleaving of creates and deletes, no number is given out twice as long as no delete is harmful. */
  lemma HarmlessDeletesNeverReuse(steps: seq<Step>)
    requires Runs(START, steps) && HarmlessDeletes(START, steps)
    ensures NoReuse(After(START, steps))
  {
    TightRun(START, steps, 0);
  }

  /** Deleting the only request and creating another gives the new one the old one's number. */
  lemma DeletedNumberComesBack(c: Caller) returns (steps: seq<Step>)
    ensures Runs(START, steps) && After(START, steps).issued == [1, 1]
  {
    CreateOne(START, c, 0);
    var once := World({1}, [1], map[]);
    assert [] + [1] == [1];
    assert After(START, Creation(c, 0)) == once;
    One(once, Delete(1));
    RunsThen(START, Creation(c, 0), [Delete(1)]);
    var none := World({}, [1], map[]);
    assert Next(once, Delete(1)) == none;
    CreateOne(none, c, 0);
    RunsThen(START, Creation(c, 0) + [Delete(1)], Creation(c, 0));
    steps := Creation(c, 0) + [Delete(1)] + Creation(c, 0);
  }

  /** A number is never given out twice, over every interleaving, exactly when requests are never deleted. */
  lemma NoReuseIff(deleting: bool, c: Caller)
    ensures (forall steps | Runs(START, steps) && (deleting || NoDeletes(steps)) :: NoReuse(After(START, steps)))
      <==> !deleting
  {
    if deleting {
      var steps := DeletedNumberComesBack(c);
      var issued := After(START, steps).issued;
      assert issued[0] == issued[1];
    } else {
      forall steps | Runs(START, steps) && NoDeletes(steps)
        ensures NoReuse(After(START, steps))
      {
        NumbersAreGapless(steps);
      }
    }
  }
}
