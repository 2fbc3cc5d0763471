/**
  What a merge does to the content of the graph, and what an interrupted merge leaves
  for the retry.
*/
module MergeProperties {
  import opened Common
  import opened Changesets
  import opened MergePlan

  /** The items a merge writes: narrowed only when an ancestor was recorded at all. */
  function MergeItems(snap: Snapshot, base: BaseValues, cs: seq<ChangeItem>): seq<ChangeItem> {
    if base == map[] then cs else Plan(snap, base, cs)
  }

  ghost predicate Refused(snap: Snapshot, base: BaseValues, cs: seq<ChangeItem>) {
    base != map[] && Conflicted(snap, base, cs)
  }

  function Merged(snap: Snapshot, base: BaseValues, cs: seq<ChangeItem>): Snapshot {
    Simulate(snap, MergeItems(snap, base, cs))
  }

  ghost predicate DeletesSomething(snap: Snapshot, cs: seq<ChangeItem>) {
    exists i :: 0 <= i < |cs| && cs[i].op.Delete? && cs[i].orbId in snap
  }

  // ---- One entity after a narrowed write ----

  /** Deletes are never in the plan: a narrowed delete has nothing to write. */
  lemma {:induction false} PlanUntouched(snap: Snapshot, base: BaseValues, cs: seq<ChangeItem>, id: OrbId)
    requires !Mentions(cs, id)
    ensures Lookup(Simulate(snap, Plan(snap, base, cs)), id) == Lookup(snap, id)
  {
    if cs != [] {
      var front, last := cs[..|cs| - 1], cs[|cs| - 1];
      assert !Mentions(front, id);
      PlanUntouched(snap, base, front, id);
      PlanStep(snap, base, cs);
      assert last.orbId != id;
    }
  }

  lemma PlanStep(snap: Snapshot, base: BaseValues, cs: seq<ChangeItem>)
    requires cs != []
    ensures Simulate(snap, Plan(snap, base, cs))
         == (var done := Simulate(snap, Plan(snap, base, cs[..|cs| - 1]));
             var narrowed := Narrow(snap, base, cs[|cs| - 1]);
             if WritesNothing(narrowed) then done else SimulateItem(done, narrowed))
  {
    var front := Plan(snap, base, cs[..|cs| - 1]);
    var narrowed := Narrow(snap, base, cs[|cs| - 1]);
    assert front + [] == front;
    assert (front + [narrowed])[..|front|] == front;
  }

  /** Dropping satisfied fields changes nothing: the narrow write has the wide write's result. */
  lemma NarrowWriteIsFullWrite(snap: Snapshot, base: BaseValues, item: ChangeItem)
    requires ValidItem(item) && !item.op.Delete?
    requires forall p | item.Writes(p) :: !OutcomeAt(snap, base, item, p).Conflict?
    ensures var narrowed := Narrow(snap, base, item);
            && Write(FieldsOf(snap, item.orbId), narrowed) == Write(FieldsOf(snap, item.orbId), item)
            && (WritesNothing(narrowed) ==> item.orbId in snap)
  {
    var fields := FieldsOf(snap, item.orbId);
    var narrowed := Narrow(snap, base, item);
    forall p
      ensures Lookup(Write(fields, narrowed), p) == Lookup(Write(fields, item), p)
    {
      if item.Writes(p) && OutcomeAt(snap, base, item, p).Satisfied? {
        assert Lookup(fields, p) == item.Proposed(p);
      }
    }
    SameFields(Write(fields, narrowed), Write(fields, item));
    if WritesNothing(narrowed) {
      assert item.sets.Keys + item.clears != {};
      var p :| p in item.sets.Keys + item.clears;
      assert item.Writes(p);
      assert p !in narrowed.sets && p !in narrowed.clears;
    }
  }

  lemma SameFields(a: Fields, b: Fields)
    requires forall p :: Lookup(a, p) == Lookup(b, p)
    ensures a == b
  {
    forall p
      ensures p in a <==> p in b
      ensures p in a ==> a[p] == b[p]
    {
      assert Lookup(a, p) == Lookup(b, p);
    }
  }

  lemma {:induction false} PlanNamed(snap: Snapshot, base: BaseValues, cs: seq<ChangeItem>, i: nat)
    requires ValidChangeset(cs) && i < |cs|
    requires forall p | cs[i].Writes(p) :: !OutcomeAt(snap, base, cs[i], p).Conflict?
    ensures var after := Lookup(Simulate(snap, Plan(snap, base, cs)), cs[i].orbId);
            after == if cs[i].op.Delete? then Lookup(snap, cs[i].orbId)
                     else Some(Write(FieldsOf(snap, cs[i].orbId), cs[i]))
  {
    var front, last := cs[..|cs| - 1], cs[|cs| - 1];
    PlanStep(snap, base, cs);
    if i < |front| {
      PlanNamed(snap, base, front, i);
      assert last.orbId != cs[i].orbId;
    } else {
      assert !Mentions(front, last.orbId);
      PlanUntouched(snap, base, front, last.orbId);
      var narrowed := Narrow(snap, base, last);
      if last.op.Delete? {
        assert WritesNothing(narrowed);
      } else {
        NarrowWriteIsFullWrite(snap, base, last);
        assert FieldsOf(Simulate(snap, Plan(snap, base, front)), last.orbId) == FieldsOf(snap, last.orbId);
        assert WritesNothing(narrowed) ==> Write(FieldsOf(snap, last.orbId), narrowed) == FieldsOf(snap, last.orbId);
      }
    }
  }

  lemma SameSnapshot(a: Snapshot, b: Snapshot)
    requires forall id :: Lookup(a, id) == Lookup(b, id)
    ensures a == b
  {
    forall id
      ensures id in a <==> id in b
      ensures id in a ==> a[id] == b[id]
    {
      assert Lookup(a, id) == Lookup(b, id);
    }
  }

  // ---- Main results on content ----

  /** After an accepted merge, entity by entity. Also what a merge leaves alone. */
  lemma MergedAt(snap: Snapshot, base: BaseValues, cs: seq<ChangeItem>, id: OrbId)
    requires ValidChangeset(cs) && !Refused(snap, base, cs)
    ensures !Mentions(cs, id) ==> Lookup(Merged(snap, base, cs), id) == Lookup(snap, id)
    ensures forall i :: 0 <= i < |cs| && cs[i].orbId == id && !cs[i].op.Delete? ==>
      Lookup(Merged(snap, base, cs), id) == Some(Write(FieldsOf(snap, id), cs[i]))
    ensures forall i :: 0 <= i < |cs| && cs[i].orbId == id && cs[i].op.Delete? ==>
      Lookup(Merged(snap, base, cs), id) == if base == map[] then None else Lookup(snap, id)
  {
    if !Mentions(cs, id) {
      if base == map[] {
        SimulateUntouched(snap, cs, id);
      } else {
        PlanUntouched(snap, base, cs, id);
      }
    }
    forall i | 0 <= i < |cs| && cs[i].orbId == id
      ensures Lookup(Merged(snap, base, cs), id)
           == if !cs[i].op.Delete? then Some(Write(FieldsOf(snap, id), cs[i]))
              else if base == map[] then None
              else Lookup(snap, id)
    {
      if base == map[] {
        SimulateNamed(snap, cs, i);
      } else {
        PlanNamed(snap, base, cs, i);
      }
    }
  }

  /**
    An accepted merge makes every set field its proposal, every cleared field absent, and no
    other change to the entity.
  */
  lemma MergeWritesTheProposal(snap: Snapshot, base: BaseValues, cs: seq<ChangeItem>, i: nat, p: Pred)
    requires ValidChangeset(cs) && !Refused(snap, base, cs)
    requires i < |cs| && !cs[i].op.Delete?
    ensures var id := cs[i].orbId;
            && id in Merged(snap, base, cs)
            && Lookup(Merged(snap, base, cs)[id], p)
            == if cs[i].Writes(p) then cs[i].Proposed(p) else Lookup(FieldsOf(snap, id), p)
  {
    MergedAt(snap, base, cs, cs[i].orbId);
  }

  /**
    The merge does what the preview showed exactly when no recorded ancestor routes a
    delete of a live entity through `planMerge`, which drops it.
  */
  lemma MergeMatchesPreviewIff(snap: Snapshot, base: BaseValues, cs: seq<ChangeItem>)
    requires ValidChangeset(cs) && !Refused(snap, base, cs)
    ensures Merged(snap, base, cs) == Simulate(snap, cs) <==> base == map[] || !DeletesSomething(snap, cs)
  {
    if base != map[] {
      if DeletesSomething(snap, cs) {
        var i :| 0 <= i < |cs| && cs[i].op.Delete? && cs[i].orbId in snap;
        MergedAt(snap, base, cs, cs[i].orbId);
        SimulateNamed(snap, cs, i);
      } else {
        forall id
          ensures Lookup(Merged(snap, base, cs), id) == Lookup(Simulate(snap, cs), id)
        {
          MergedAt(snap, base, cs, id);
          if Mentions(cs, id) {
            var i :| 0 <= i < |cs| && cs[i].orbId == id;
            SimulateNamed(snap, cs, i);
          } else {
            SimulateUntouched(snap, cs, id);
          }
        }
        SameSnapshot(Merged(snap, base, cs), Simulate(snap, cs));
      }
    }
  }

  /** The failing case: an update and a delete together. The delete is dropped, and nothing refuses. */
  lemma DroppedDelete(x: OrbId, y: OrbId, f: Pred)
    requires x != y
    ensures var snap: Snapshot := map[x := map[f := Scalar("old")], y := map[]];
            var cs := [ChangeItem(x, Update, map[f := Scalar("new")], {}, None),
              ChangeItem(y, Delete, map[], {}, None)];
            var base: BaseValues := map[x := map[f := Some(Scalar("old"))]];
            && ValidChangeset(cs) && !Refused(snap, base, cs)
            && y in Merged(snap, base, cs) && y !in Simulate(snap, cs)
  {
    var snap: Snapshot := map[x := map[f := Scalar("old")], y := map[]];
    var cs := [ChangeItem(x, Update, map[f := Scalar("new")], {}, None), ChangeItem(y, Delete, map[], {}, None)];
    var base: BaseValues := map[x := map[f := Some(Scalar("old"))]];
    assert cs[0].sets != map[] by {
      assert f in cs[0].sets;
    }
    assert cs[1].orbId == y && x in base;
    MergedAt(snap, base, cs, y);
    SimulateNamed(snap, cs, 1);
  }

  /**
    Classifying again after an accepted merge: a field of an entity with a recorded
    ancestor is satisfied; a field of an entity without one still reads as applying.
  */
  lemma ReclassifyAfterMerge(snap: Snapshot, base: BaseValues, cs: seq<ChangeItem>, i: nat, p: Pred)
    requires ValidChangeset(cs) && !Refused(snap, base, cs)
    requires i < |cs| && cs[i].Writes(p)
    ensures OutcomeAt(Merged(snap, base, cs), base, cs[i], p).Satisfied? <==> AncestorOf(base, cs[i].orbId) != map[]
    ensures !OutcomeAt(Merged(snap, base, cs), base, cs[i], p).Conflict?
  {
    MergeWritesTheProposal(snap, base, cs, i, p);
  }

  // ---- What a plan writes ----

  /** The field is at its proposal already, on an entity that lives and has an ancestor: nothing to write. */
  predicate AlreadyThere(now: Snapshot, base: BaseValues, item: ChangeItem, p: Pred) {
    && item.orbId in base && base[item.orbId] != map[]
    && item.orbId in now && Lookup(now[item.orbId], p) == Lookup(item.sets, p)
  }

  /**
    The write is narrow: of an item's fields, in a plan without conflicts, exactly those are
    written that are not there already, with the values proposed; so an item of which nothing
    is left is not in the plan.
  */
  lemma {:induction false} PlanWritesIff(now: Snapshot, base: BaseValues, cs: seq<ChangeItem>, i: nat, p: Pred)
    requires ValidChangeset(cs) && i < |cs| && !Conflicted(now, base, cs)
    ensures PlanWrites(now, base, cs, cs[i].orbId, p) <==> cs[i].Writes(p) && !AlreadyThere(now, base, cs[i], p)
    ensures forall j | 0 <= j < |Plan(now, base, cs)| && Plan(now, base, cs)[j].orbId == cs[i].orbId ::
      Plan(now, base, cs)[j].Writes(p) ==> Lookup(Plan(now, base, cs)[j].sets, p) == Lookup(cs[i].sets, p)
  {
    var front, last := cs[..|cs| - 1], cs[|cs| - 1];
    var before := Plan(now, base, front);
    if i < |front| {
      forall k, q | 0 <= k < |front| && front[k].Writes(q)
        ensures !OutcomeAt(now, base, front[k], q).Conflict?
      {
        assert cs[k] == front[k];
      }
      PlanWritesIff(now, base, front, i, p);
      assert last.orbId != cs[i].orbId;
      assert PlanWrites(now, base, front, cs[i].orbId, p) ==> PlanWrites(now, base, cs, cs[i].orbId, p) by {
        if j :| 0 <= j < |before| && before[j].orbId == cs[i].orbId && before[j].Writes(p) {
          assert Plan(now, base, cs)[j] == before[j];
        }
      }
    } else {
      PlanNamesOnly(now, base, front, last.orbId);
      assert last.Writes(p) ==> !OutcomeAt(now, base, last, p).Conflict?;
      NarrowWritesIff(now, base, last, p);
      if Narrow(now, base, last).Writes(p) {
        assert Plan(now, base, cs)[|before|] == Narrow(now, base, last);
      }
    }
  }

  lemma NarrowWritesIff(now: Snapshot, base: BaseValues, item: ChangeItem, p: Pred)
    requires ValidItem(item) && (item.Writes(p) ==> !OutcomeAt(now, base, item, p).Conflict?)
    ensures Narrow(now, base, item).Writes(p) <==> item.Writes(p) && !AlreadyThere(now, base, item, p)
    ensures Narrow(now, base, item).Writes(p) ==> Lookup(Narrow(now, base, item).sets, p) == Lookup(item.sets, p)
  {
  }

  predicate PlanWrites(now: Snapshot, base: BaseValues, cs: seq<ChangeItem>, id: OrbId, p: Pred) {
    exists j :: 0 <= j < |Plan(now, base, cs)| && Plan(now, base, cs)[j].orbId == id && Plan(now, base, cs)[j].Writes(p)
  }

  lemma {:induction false} PlanNamesOnly(now: Snapshot, base: BaseValues, cs: seq<ChangeItem>, id: OrbId)
    requires forall k | 0 <= k < |cs| :: cs[k].orbId != id
    ensures forall j | 0 <= j < |Plan(now, base, cs)| :: Plan(now, base, cs)[j].orbId != id
  {
    if cs != [] {
      PlanNamesOnly(now, base, cs[..|cs| - 1], id);
    }
  }

  // ---- Interruption and retry ----

  /** Stopping after k planned items is planning a prefix of the changeset. */
  lemma {:induction false} PlanPrefix(snap: Snapshot, base: BaseValues, cs: seq<ChangeItem>, k: nat) returns (m: nat)
    requires k <= |Plan(snap, base, cs)|
    ensures m <= |cs| && Plan(snap, base, cs)[..k] == Plan(snap, base, cs[..m])
  {
    if k == |Plan(snap, base, cs)| {
      m := |cs|;
      assert cs[..m] == cs;
    } else {
      var front := cs[..|cs| - 1];
      assert k <= |Plan(snap, base, front)|;
      assert Plan(snap, base, cs)[..k] == Plan(snap, base, front)[..k];
      m := PlanPrefix(snap, base, front, k);
      assert front[..m] == cs[..m];
    }
  }

  /** The content after the first k items of an accepted merge were written. */
  function MergedUpTo(snap: Snapshot, base: BaseValues, cs: seq<ChangeItem>, k: nat): Snapshot
    requires k <= |MergeItems(snap, base, cs)|
  {
    Simulate(snap, MergeItems(snap, base, cs)[..k])
  }

  lemma InterruptedAt(snap: Snapshot, base: BaseValues, cs: seq<ChangeItem>, k: nat, id: OrbId)
    requires ValidChangeset(cs) && !Refused(snap, base, cs)
    requires k <= |MergeItems(snap, base, cs)|
    ensures var now := Lookup(MergedUpTo(snap, base, cs, k), id);
            now == Lookup(snap, id) || now == Lookup(Merged(snap, base, cs), id)
  {
    MergedAt(snap, base, cs, id);
    if base == map[] {
      PrefixAt(snap, cs, k, id);
    } else {
      var m := PlanPrefix(snap, base, cs, k);
      var front := cs[..m];
      if Mentions(front, id) {
        var i :| 0 <= i < |front| && front[i].orbId == id;
        assert cs[i] == front[i];
        PlanNamed(snap, base, front, i);
      } else {
        PlanUntouched(snap, base, front, id);
      }
    }
  }

  lemma PrefixAt(snap: Snapshot, cs: seq<ChangeItem>, k: nat, id: OrbId)
    requires ValidChangeset(cs) && k <= |cs|
    ensures var now := Lookup(Simulate(snap, cs[..k]), id);
            now == Lookup(snap, id) || now == Lookup(Simulate(snap, cs), id)
  {
    var front := cs[..k];
    if Mentions(front, id) {
      var i :| 0 <= i < |front| && front[i].orbId == id;
      assert cs[i] == front[i];
      SimulateNamed(snap, front, i);
      SimulateNamed(snap, cs, i);
    } else {
      SimulateUntouched(snap, front, id);
    }
  }

  /**
    With no foreign write, a merge interrupted after any number of items can be run again:
    it meets no conflict, and it ends in the content of the uninterrupted merge.
  */
  lemma RetryCompletesTheMerge(snap: Snapshot, base: BaseValues, cs: seq<ChangeItem>, k: nat)
    requires ValidChangeset(cs) && !Refused(snap, base, cs)
    requires k <= |MergeItems(snap, base, cs)|
    ensures !Refused(MergedUpTo(snap, base, cs, k), base, cs)
    ensures Merged(MergedUpTo(snap, base, cs, k), base, cs) == Merged(snap, base, cs)
  {
    var now := MergedUpTo(snap, base, cs, k);
    forall i, p | 0 <= i < |cs| && cs[i].Writes(p) && base != map[]
      ensures !OutcomeAt(now, base, cs[i], p).Conflict?
    {
      InterruptedAt(snap, base, cs, k, cs[i].orbId);
      ReclassifyAfterMerge(snap, base, cs, i, p);
      assert !OutcomeAt(snap, base, cs[i], p).Conflict?;
    }
    forall id
      ensures Lookup(Merged(now, base, cs), id) == Lookup(Merged(snap, base, cs), id)
    {
      InterruptedAt(snap, base, cs, k, id);
      MergedAt(snap, base, cs, id);
      MergedAt(now, base, cs, id);
      if Mentions(cs, id) {
        var i :| 0 <= i < |cs| && cs[i].orbId == id;
        WriteTwice(FieldsOf(snap, id), cs[i]);
      }
    }
    SameSnapshot(Merged(now, base, cs), Merged(snap, base, cs));
  }

  lemma WriteTwice(fields: Fields, item: ChangeItem)
    ensures Write(Write(fields, item), item) == Write(fields, item)
  {
  }
}
