/**
  A change request's payload and what applying it means.

  A predicate of an entity is a scalar or an edge, never both, so the two maps of a
  snapshot node are one map here. Every graph write is taken to have the effect the
  preview simulates for it (`applyChangesetTo`).
*/
module Changesets {
  import opened Common

  type OrbId(==, !new)
  type Pred(==, !new)

  datatype Value = Scalar(text: string) | Refs(targets: seq<OrbId>)

  type Fields = map<Pred, Value>
  type Snapshot = map<OrbId, Fields>

  datatype Op = Upsert | Update | Delete

  /**
    One entity's target end-state. The order and repetition of cleared fields have no effect,
    so they are a set. `version` is the optional entity-level precondition.
  */
  datatype ChangeItem = ChangeItem(orbId: OrbId, op: Op, sets: Fields, clears: set<Pred>, version: Option<nat>)
  {
    predicate Writes(p: Pred) {
      p in sets || p in clears
    }

    /** The value a written predicate should end up with; `None` means absent. */
    function Proposed(p: Pred): Option<Value> {
      Lookup(sets, p)
    }
  }

  /** What validation guarantees of one stored item. */
  predicate ValidItem(item: ChangeItem) {
    && (item.op.Delete? ==> item.sets == map[] && item.clears == {})
    && (!item.op.Delete? ==> item.sets != map[] || item.clears != {})
    && item.clears !! item.sets.Keys
  }

  /** What validation guarantees of a stored changeset: above all, one item per entity. */
  predicate ValidChangeset(cs: seq<ChangeItem>) {
    && (forall i | 0 <= i < |cs| :: ValidItem(cs[i]))
    && (forall i, j | 0 <= i < j < |cs| :: cs[i].orbId != cs[j].orbId)
  }

  /** The fields of an entity after an item's sets and clears. */
  function Write(current: Fields, item: ChangeItem): Fields {
    (current + item.sets) - item.clears
  }

  function FieldsOf(snap: Snapshot, id: OrbId): Fields {
    if id in snap then snap[id] else map[]
  }

  function SimulateItem(snap: Snapshot, item: ChangeItem): Snapshot {
    if item.op.Delete? then snap - {item.orbId}
    else snap[item.orbId := Write(FieldsOf(snap, item.orbId), item)]
  }

  /** The graph content after the items are applied in order. */
  function Simulate(snap: Snapshot, cs: seq<ChangeItem>): Snapshot {
    if cs == [] then snap
    else SimulateItem(Simulate(snap, cs[..|cs| - 1]), cs[|cs| - 1])
  }

  /** The preview: a loop over the items that edits a copy of the snapshot. */
  method ApplyChangesetTo(current: Snapshot, cs: seq<ChangeItem>) returns (target: Snapshot)
    ensures target == Simulate(current, cs)
  {
    target := current;
    for i := 0 to |cs|
      invariant target == Simulate(current, cs[..i])
    {
      assert cs[..i + 1][..i] == cs[..i];
      var item := cs[i];
      if item.op.Delete? {
        target := target - {item.orbId};
      } else {
        var node := if item.orbId in target then target[item.orbId] else map[];
        node := node + item.sets;
        node := node - item.clears;
        target := target[item.orbId := node];
      }
    }
    assert cs[..|cs|] == cs;
  }

  predicate Mentions(cs: seq<ChangeItem>, id: OrbId) {
    exists i :: 0 <= i < |cs| && cs[i].orbId == id
  }

  /** Entities the changeset does not name keep their content. */
  lemma {:induction false} SimulateUntouched(snap: Snapshot, cs: seq<ChangeItem>, id: OrbId)
    requires !Mentions(cs, id)
    ensures Lookup(Simulate(snap, cs), id) == Lookup(snap, id)
  {
    if cs != [] {
      var front := cs[..|cs| - 1];
      assert !Mentions(front, id);
      SimulateUntouched(snap, front, id);
      assert cs[|cs| - 1].orbId != id;
    }
  }

  /** An entity the changeset names ends as its own item says, whatever the other items do. */
  lemma {:induction false} SimulateNamed(snap: Snapshot, cs: seq<ChangeItem>, i: nat)
    requires ValidChangeset(cs) && i < |cs|
    ensures cs[i].op.Delete? ==> cs[i].orbId !in Simulate(snap, cs)
    ensures !cs[i].op.Delete? ==>
      && cs[i].orbId in Simulate(snap, cs)
      && Simulate(snap, cs)[cs[i].orbId] == Write(FieldsOf(snap, cs[i].orbId), cs[i])
  {
    var front := cs[..|cs| - 1];
    if i == |cs| - 1 {
      assert !Mentions(front, cs[i].orbId);
      SimulateUntouched(snap, front, cs[i].orbId);
    } else {
      SimulateNamed(snap, front, i);
    }
  }

  /**
    A previewed changeset does exactly what it says: every set field holds its proposal,
    every cleared field is absent, every other field and every other entity is as before.
  */
  lemma SimulateEffect(snap: Snapshot, cs: seq<ChangeItem>, i: nat, p: Pred)
    requires ValidChangeset(cs) && i < |cs| && !cs[i].op.Delete?
    ensures cs[i].orbId in Simulate(snap, cs)
    ensures Lookup(Simulate(snap, cs)[cs[i].orbId], p)
         == if cs[i].Writes(p) then cs[i].Proposed(p) else Lookup(FieldsOf(snap, cs[i].orbId), p)
  {
    SimulateNamed(snap, cs, i);
  }

  /** The predicates a before/after comparison reports for one entity. */
  function DiffPreds(before: Snapshot, after: Snapshot, id: OrbId): set<Pred> {
    set p | p in FieldsOf(before, id).Keys + FieldsOf(after, id).Keys
         && Lookup(FieldsOf(before, id), p) != Lookup(FieldsOf(after, id), p)
  }
}
