/**
  The field-level merge guard: `classifyChangeset` gives every written field one of three
  outcomes, `planMerge` refuses on a conflict and otherwise narrows the write.
*/
module MergePlan {
  import opened Common
  import opened Changesets

  /** The recorded ancestor: per entity, per written predicate, its value at review time. */
  type Ancestor = map<Pred, Option<Value>>
  type BaseValues = map<OrbId, Ancestor>

  datatype Outcome = Applies | Satisfied | Conflict

  function AncestorOf(base: BaseValues, id: OrbId): Ancestor {
    if id in base then base[id] else map[]
  }

  // ---- The reference: a three-way comparison of one field ----

  function LocalOutcome(current: Option<Fields>, ancestor: Ancestor, item: ChangeItem, p: Pred): Outcome {
    var now := if current.Some? then Lookup(current.value, p) else None;
    if ancestor == map[] || item.op.Delete? then Applies
    else if current.Some? && now == item.Proposed(p) then Satisfied
    else if p in ancestor && ancestor[p] != now then Conflict
    else Applies
  }

  function OutcomeAt(snap: Snapshot, base: BaseValues, item: ChangeItem, p: Pred): Outcome {
    LocalOutcome(Lookup(snap, item.orbId), AncestorOf(base, item.orbId), item, p)
  }

  predicate IsConflict(snap: Snapshot, base: BaseValues, cs: seq<ChangeItem>, id: OrbId, p: Pred) {
    exists i :: 0 <= i < |cs| && cs[i].orbId == id && cs[i].Writes(p) && OutcomeAt(snap, base, cs[i], p).Conflict?
  }

  ghost predicate Conflicted(snap: Snapshot, base: BaseValues, cs: seq<ChangeItem>) {
    exists i, p :: 0 <= i < |cs| && cs[i].Writes(p) && OutcomeAt(snap, base, cs[i], p).Conflict?
  }

  /** The item, reduced to the fields a merge still has to write. */
  function Narrow(snap: Snapshot, base: BaseValues, item: ChangeItem): ChangeItem {
    item.(sets := map p | p in item.sets && OutcomeAt(snap, base, item, p).Applies? :: item.sets[p],
          clears := set p | p in item.clears && OutcomeAt(snap, base, item, p).Applies?)
  }

  predicate WritesNothing(item: ChangeItem) {
    item.sets == map[] && item.clears == {}
  }

  /** The items `planMerge` leaves to be written. Items with nothing left are dropped. */
  function Plan(snap: Snapshot, base: BaseValues, cs: seq<ChangeItem>): seq<ChangeItem> {
    if cs == [] then []
    else
      var narrowed := Narrow(snap, base, cs[|cs| - 1]);
      Plan(snap, base, cs[..|cs| - 1]) + if WritesNothing(narrowed) then [] else [narrowed]
  }

  // ---- The code's route to "satisfied": absence from a computed diff ----

  /** `satisfiedItems` for one item, given the predicates the diff reports for its entity. */
  function SatisfiedFrom(changed: set<Pred>, current: Option<Fields>, item: ChangeItem): set<Pred> {
    if item.op.Delete? || current.None? then {}
    else
      (set p | p in item.sets && p !in changed && p in current.value)
      + (set p | p in item.clears && p !in changed && p !in current.value)
  }

  /** Absence from the whole-changeset diff means exactly "already at the proposed value". */
  lemma SatisfiedMeansUnchanged(snap: Snapshot, cs: seq<ChangeItem>, i: nat, p: Pred)
    requires ValidChangeset(cs) && i < |cs| && cs[i].Writes(p)
    ensures var item := cs[i];
            var changed := DiffPreds(snap, Simulate(snap, cs), item.orbId);
            p in SatisfiedFrom(changed, Lookup(snap, item.orbId), item)
            <==> !item.op.Delete? && item.orbId in snap && Lookup(snap[item.orbId], p) == item.Proposed(p)
  {
    if !cs[i].op.Delete? {
      SimulateEffect(snap, cs, i, p);
    }
  }

  /**
    The review table: one outcome per field the changeset writes, and none for any other.
    Keyed by entity and field, which is what the code sorts its rows by.
  */
  method ClassifyChangeset(snap: Snapshot, cs: seq<ChangeItem>, base: BaseValues)
    returns (table: map<(OrbId, Pred), Outcome>)
    requires ValidChangeset(cs)
    ensures forall id, p :: (id, p) in table <==> IsWritten(cs, id, p)
    ensures forall i, p :: 0 <= i < |cs| && cs[i].Writes(p) ==>
      (cs[i].orbId, p) in table && table[(cs[i].orbId, p)] == OutcomeAt(snap, base, cs[i], p)
  {
    var target := ApplyChangesetTo(snap, cs);
    table := map[];
    for i := 0 to |cs|
      invariant forall id, p :: (id, p) in table <==> IsWritten(cs[..i], id, p)
      invariant forall k, p :: 0 <= k < i && cs[k].Writes(p) ==>
        (cs[k].orbId, p) in table && table[(cs[k].orbId, p)] == OutcomeAt(snap, base, cs[k], p)
    {
      var item := cs[i];
      var row := ClassifyItem(snap, cs, base, i, target);
      IsWrittenStep(cs, i);
      table := table + (map k | k in (set p | p in row :: (item.orbId, p)) :: row[k.1]);
    }
    assert cs[..|cs|] == cs;
  }

  predicate IsWritten(cs: seq<ChangeItem>, id: OrbId, p: Pred) {
    exists i :: 0 <= i < |cs| && cs[i].orbId == id && cs[i].Writes(p)
  }

  lemma IsWrittenStep(cs: seq<ChangeItem>, i: nat)
    requires i < |cs|
    ensures forall id, p :: IsWritten(cs[..i + 1], id, p) <==>
      IsWritten(cs[..i], id, p) || (cs[i].orbId == id && cs[i].Writes(p))
  {
    assert cs[..i + 1] == cs[..i] + [cs[i]];
    forall id, p | IsWritten(cs[..i], id, p)
      ensures IsWritten(cs[..i + 1], id, p)
    {
      var k :| 0 <= k < i && cs[..i][k].orbId == id && cs[..i][k].Writes(p);
      assert cs[..i + 1][k] == cs[..i][k];
    }
    assert cs[..i + 1][i] == cs[i];
  }

  method ClassifyItem(snap: Snapshot, cs: seq<ChangeItem>, base: BaseValues, i: nat, target: Snapshot)
    returns (row: map<Pred, Outcome>)
    requires ValidChangeset(cs) && i < |cs| && target == Simulate(snap, cs)
    ensures forall p :: p in row <==> cs[i].Writes(p)
    ensures forall p :: p in row ==> row[p] == OutcomeAt(snap, base, cs[i], p)
  {
    var item := cs[i];
    var changed := DiffPreds(snap, target, item.orbId);
    var satisfied := SatisfiedFrom(changed, Lookup(snap, item.orbId), item);
    row := ResolveAll(FieldsOf(snap, item.orbId), satisfied, AncestorOf(base, item.orbId), item);
    forall p | p in row
      ensures row[p] == OutcomeAt(snap, base, item, p)
    {
      SatisfiedMeansUnchanged(snap, cs, i, p);
    }
  }

  method ResolveAll(now: Fields, satisfied: set<Pred>, ancestor: Ancestor, item: ChangeItem)
    returns (row: map<Pred, Outcome>)
    ensures forall p :: p in row <==> item.Writes(p)
    ensures forall p :: p in row ==> row[p] == Resolve(now, satisfied, ancestor, item, p)
  {
    row := map[];
    var todo := item.sets.Keys;
    while todo != {}
      invariant todo <= item.sets.Keys && row.Keys == item.sets.Keys - todo
      invariant forall p :: p in row ==> row[p] == Resolve(now, satisfied, ancestor, item, p)
      decreases todo
    {
      var p :| p in todo;
      todo := todo - {p};
      row := row[p := Resolve(now, satisfied, ancestor, item, p)];
    }
    todo := item.clears;
    while todo != {}
      invariant todo <= item.clears && row.Keys == item.sets.Keys + (item.clears - todo)
      invariant forall p :: p in row ==> row[p] == Resolve(now, satisfied, ancestor, item, p)
      decreases todo
    {
      var p :| p in todo;
      todo := todo - {p};
      row := row[p := Resolve(now, satisfied, ancestor, item, p)];
    }
  }

  /** The switch of `classifyChangeset`, branch by branch. */
  function Resolve(now: Fields, satisfied: set<Pred>, ancestor: Ancestor, item: ChangeItem, p: Pred): Outcome {
    if ancestor == map[] || item.op.Delete? then Applies
    else if p in satisfied then Satisfied
    else if p in ancestor && ancestor[p] != Lookup(now, p) then Conflict
    else Applies
  }

  /**
    The merge decision. `conflicts` names exactly the conflicting fields, so a merge is
    refused exactly when some written field conflicts; `planned` is the narrowed write.
  */
  method PlanMerge(snap: Snapshot, cs: seq<ChangeItem>, base: BaseValues)
    returns (planned: seq<ChangeItem>, conflicts: set<(OrbId, Pred)>)
    requires ValidChangeset(cs)
    ensures planned == Plan(snap, base, cs)
    ensures forall k :: k in conflicts <==> IsConflict(snap, base, cs, k.0, k.1)
    ensures conflicts == {} <==> !Conflicted(snap, base, cs)
  {
    var table := ClassifyChangeset(snap, cs, base);
    planned, conflicts := [], {};
    for i := 0 to |cs|
      invariant planned == Plan(snap, base, cs[..i])
      invariant forall k :: k in conflicts <==> IsConflict(snap, base, cs[..i], k.0, k.1)
    {
      var item := cs[i];
      var row := map p | p in item.sets.Keys + item.clears :: table[(item.orbId, p)];
      var narrowed, found := NarrowItem(snap, item, base, row);
      assert cs[..i + 1][..i] == cs[..i];
      IsConflictStep(snap, base, cs, i);
      conflicts := conflicts + (set p | p in found :: (item.orbId, p));
      if !(narrowed.sets == map[] && narrowed.clears == {}) {
        planned := planned + [narrowed];
      }
    }
    assert cs[..|cs|] == cs;
    if conflicts != {} {
      var k :| k in conflicts;
    }
    if Conflicted(snap, base, cs) {
      var i, p :| 0 <= i < |cs| && cs[i].Writes(p) && OutcomeAt(snap, base, cs[i], p).Conflict?;
      assert IsConflict(snap, base, cs, cs[i].orbId, p);
      assert (cs[i].orbId, p) in conflicts;
    }
  }

  lemma IsConflictStep(snap: Snapshot, base: BaseValues, cs: seq<ChangeItem>, i: nat)
    requires i < |cs|
    ensures forall id, p :: IsConflict(snap, base, cs[..i + 1], id, p) <==>
      IsConflict(snap, base, cs[..i], id, p)
      || (cs[i].orbId == id && cs[i].Writes(p) && OutcomeAt(snap, base, cs[i], p).Conflict?)
  {
    var longer, shorter := cs[..i + 1], cs[..i];
    assert forall k | 0 <= k < i :: longer[k] == shorter[k];
    forall id, p
      ensures IsConflict(snap, base, longer, id, p) <==>
        IsConflict(snap, base, shorter, id, p)
        || (cs[i].orbId == id && cs[i].Writes(p) && OutcomeAt(snap, base, cs[i], p).Conflict?)
    {
      if IsConflict(snap, base, shorter, id, p) {
        var k :| 0 <= k < i && shorter[k].orbId == id && shorter[k].Writes(p)
                 && OutcomeAt(snap, base, shorter[k], p).Conflict?;
        assert longer[k] == shorter[k];
      }
      assert longer[i] == cs[i];
    }
  }

  /** The two loops of `planMerge` over one item, reading the review table's row for it. */
  method NarrowItem(ghost snap: Snapshot, item: ChangeItem, ghost base: BaseValues, row: map<Pred, Outcome>)
    returns (narrowed: ChangeItem, found: set<Pred>)
    requires forall p :: p in row <==> item.Writes(p)
    requires forall p :: p in row ==> row[p] == OutcomeAt(snap, base, item, p)
    ensures narrowed == Narrow(snap, base, item)
    ensures forall p :: p in found <==> item.Writes(p) && OutcomeAt(snap, base, item, p).Conflict?
  {
    var sets, found0 := SplitSets(item.sets, row);
    var clears, found1 := SplitClears(item.clears, row);
    assert sets == Narrow(snap, base, item).sets;
    assert clears == Narrow(snap, base, item).clears;
    narrowed, found := item.(sets := sets, clears := clears), found0 + found1;
  }

  method SplitSets(all: Fields, row: map<Pred, Outcome>) returns (sets: Fields, found: set<Pred>)
    requires all.Keys <= row.Keys
    ensures sets == map p | p in all && row[p].Applies? :: all[p]
    ensures found == set p | p in all && row[p].Conflict?
  {
    sets, found := map[], {};
    var todo := all.Keys;
    while todo != {}
      invariant todo <= all.Keys
      invariant sets == map p | p in all && p !in todo && row[p].Applies? :: all[p]
      invariant found == set p | p in all && p !in todo && row[p].Conflict?
      decreases todo
    {
      var p :| p in todo;
      todo := todo - {p};
      match row[p]
      case Satisfied =>
      case Conflict => found := found + {p};
      case Applies => sets := sets[p := all[p]];
    }
  }

  method SplitClears(all: set<Pred>, row: map<Pred, Outcome>) returns (clears: set<Pred>, found: set<Pred>)
    requires all <= row.Keys
    ensures clears == set p | p in all && row[p].Applies?
    ensures found == set p | p in all && row[p].Conflict?
  {
    clears, found := {}, {};
    var todo := all;
    while todo != {}
      invariant todo <= all
      invariant clears == set p | p in all && p !in todo && row[p].Applies?
      invariant found == set p | p in all && p !in todo && row[p].Conflict?
      decreases todo
    {
      var p :| p in todo;
      todo := todo - {p};
      match row[p]
      case Satisfied =>
      case Conflict => found := found + {p};
      case Applies => clears := clears + {p};
    }
  }
}
