/**
  Eager loading: the children of many parents, or the parents of many children, fetched
  with one extra query and joined through a map. Rows are read in database order; ordering
  options are not modelled. Approvals stand for decisions and merge attempts too.
*/
module EagerLoad {
  import opened Common

  type Name(==, !new)
  type Datum(==, !new)

  datatype Column = Id | Fk | Other(name: Name)

  /** A row; a column that was not selected reads as its zero value. */
  datatype Row = Row(id: int, fk: int, others: map<Name, Datum>)

  class Request {
    const id: int
    var approvals: seq<Approval>

    constructor (id: int)
      ensures this.id == id
    {
      this.id, approvals := id, [];
    }
  }

  class Approval {
    const row: Row
    var request: Request?

    constructor (row: Row)
      ensures this.row == row && request == null
    {
      this.row, request := row, null;
    }
  }

  // ---- Queries ----

  datatype Test = Given(holds: Row -> bool) | FkIn(keys: set<int>) | FkIs(key: int) | IdIn(keys: set<int>)

  predicate Passes(t: Test, r: Row) {
    match t
    case Given(holds) => holds(r)
    case FkIn(keys) => r.fk in keys
    case FkIs(key) => r.fk == key
    case IdIn(keys) => r.id in keys
  }

  predicate PassesAll(tests: seq<Test>, r: Row) {
    forall i | 0 <= i < |tests| :: Passes(tests[i], r)
  }

  function Select(rows: seq<Row>, tests: seq<Test>): seq<Row> {
    if rows == [] then []
    else Select(rows[..|rows| - 1], tests) + if PassesAll(tests, rows[|rows| - 1]) then [rows[|rows| - 1]] else []
  }

  function Page(rows: seq<Row>, offset: nat, limit: Option<nat>): seq<Row> {
    var rest := if offset <= |rows| then rows[offset..] else [];
    if limit.Some? && limit.value <= |rest| then rest[..limit.value] else rest
  }

  /** The id is always fetched; other columns when nothing was selected or they were. */
  function Project(r: Row, fields: set<Column>): Row {
    if fields == {} then r
    else Row(r.id, if Fk in fields then r.fk else 0, map n | n in r.others && Other(n) in fields :: r.others[n])
  }

  function ProjectAll(rows: seq<Row>, fields: set<Column>): (projected: seq<Row>)
    ensures |projected| == |rows|
    ensures forall j | 0 <= j < |rows| :: projected[j] == Project(rows[j], fields)
  {
    if rows == [] then [] else ProjectAll(rows[..|rows| - 1], fields) + [Project(rows[|rows| - 1], fields)]
  }

  /** What the loader adds to a selection: the foreign key, and only to a selection. */
  function WithKey(fields: set<Column>): set<Column> {
    if fields == {} then {} else fields + {Fk}
  }

  datatype Query = Query(tests: seq<Test>, fields: set<Column>, offset: nat, limit: Option<nat>)

  function Result(table: seq<Row>, q: Query): seq<Row> {
    ProjectAll(Page(Select(table, q.tests), q.offset, q.limit), q.fields)
  }

  lemma {:induction false} SelectedPass(rows: seq<Row>, tests: seq<Test>)
    ensures forall j | 0 <= j < |Select(rows, tests)| ::
      PassesAll(tests, Select(rows, tests)[j]) && Select(rows, tests)[j] in rows
  {
    if rows != [] {
      SelectedPass(rows[..|rows| - 1], tests);
    }
  }

  /** Conditions added to a query narrow its result: selecting twice is selecting by both. */
  lemma {:induction false} SelectTwice(rows: seq<Row>, ps: seq<Test>, qs: seq<Test>)
    ensures Select(Select(rows, ps), qs) == Select(rows, ps + qs)
  {
    if rows != [] {
      var front, last := rows[..|rows| - 1], rows[|rows| - 1];
      SelectTwice(front, ps, qs);
      PassesBoth(ps, qs, last);
      var kept := Select(front, ps);
      assert kept + [] == kept;
      assert (kept + [last])[..|kept|] == kept;
    }
  }

  lemma PassesBoth(ps: seq<Test>, qs: seq<Test>, r: Row)
    ensures PassesAll(ps + qs, r) <==> PassesAll(ps, r) && PassesAll(qs, r)
  {
    var both := ps + qs;
    assert forall i | 0 <= i < |ps| :: both[i] == ps[i];
    assert forall i | 0 <= i < |qs| :: both[|ps| + i] == qs[i];
  }

  function RowsOf(nodes: seq<Approval>): (rows: seq<Row>)
    ensures |rows| == |nodes|
    ensures forall i | 0 <= i < |rows| :: rows[i] == nodes[i].row
  {
    if nodes == [] then [] else RowsOf(nodes[..|nodes| - 1]) + [nodes[|nodes| - 1].row]
  }

  /** Why the loader adds the key to a selection: without it no row says whose it is. */
  lemma UnselectedKeyIsLost(table: seq<Row>, q: Query, r: Row)
    requires q.fields != {} && Fk !in q.fields && r in Result(table, q)
    ensures r.fk == 0
  {
    var page := Page(Select(table, q.tests), q.offset, q.limit);
    var j :| 0 <= j < |Result(table, q)| && Result(table, q)[j] == r;
    assert r == Project(page[j], q.fields);
  }

  // ---- What a loaded row holds ----

  /** The loaded row is this row of the table: its id and key, and every column that was asked for, with its value. */
  ghost predicate IsLoadOf(r: Row, whole: Row, fields: set<Column>) {
    && r.id == whole.id && r.fk == whole.fk
    && (forall n :: n in r.others <==> n in whole.others && (fields == {} || Other(n) in fields))
    && (forall n | n in r.others :: r.others[n] == whole.others[n])
  }

  /** The query would return this row of the table, limits aside. */
  predicate Asked(table: seq<Row>, q: Query, whole: Row) {
    whole in table && forall i | 0 <= i < |q.tests| :: Passes(q.tests[i], whole)
  }

  /** The row was loaded for the key: from a row of the table that the query asked for. */
  ghost predicate LoadedFor(r: Row, table: seq<Row>, q: Query, key: int) {
    exists whole :: Asked(table, q, whole) && whole.fk == key && IsLoadOf(r, whole, q.fields)
  }

  ghost predicate HoldLoads(nodes: seq<Request>, table: seq<Row>, q: Query)
    reads set i | 0 <= i < |nodes| :: nodes[i]
  {
    forall i | 0 <= i < |nodes| :: forall r | r in RowsOf(nodes[i].approvals) :: LoadedFor(r, table, q, nodes[i].id)
  }

  lemma LoadedHold(nodes: seq<Request>, table: seq<Row>, q: Query)
    requires AllLoaded(nodes, table, q)
    ensures HoldLoads(nodes, table, q)
  {
    forall i, r | 0 <= i < |nodes| && r in RowsOf(nodes[i].approvals)
      ensures LoadedFor(r, table, q, nodes[i].id)
    {
      LoadedIsLoadOf(table, q, IdsOf(nodes), nodes[i].id, r);
    }
  }

  lemma ProjectIsLoadOf(whole: Row, fields: set<Column>)
    ensures IsLoadOf(Project(whole, WithKey(fields)), whole, fields)
  {
  }

  lemma LoadedIsLoadOf(table: seq<Row>, q: Query, ids: set<int>, id: int, r: Row)
    requires r in Loaded(table, q, ids, id)
    ensures LoadedFor(r, table, q, id)
  {
    var restricted := Restricted(q, ids);
    var rows := Result(table, restricted);
    SelectedPass(rows, [FkIs(id)]);
    assert Passes([FkIs(id)][0], r);
    var page := Page(Select(table, restricted.tests), q.offset, q.limit);
    var j :| 0 <= j < |rows| && rows[j] == r;
    assert r == Project(page[j], WithKey(q.fields));
    SelectedPass(table, restricted.tests);
    assert page[j] in Select(table, restricted.tests);
    PassesBoth(q.tests, [FkIn(ids)], page[j]);
    ProjectIsLoadOf(page[j], q.fields);
    assert Asked(table, q, page[j]);
  }

  /** Unpaged, the other way round: every row that was asked for is among the loaded ones of its key. */
  lemma AskedIsLoaded(table: seq<Row>, q: Query, ids: set<int>, id: int, whole: Row)
    requires q.offset == 0 && q.limit == None && id in ids
    requires Asked(table, q, whole) && whole.fk == id
    ensures exists r :: r in Loaded(table, q, ids, id) && IsLoadOf(r, whole, q.fields)
  {
    UnpagedIsNestedLoop(table, q, ids, id);
    PassesBoth(q.tests, [FkIs(id)], whole);
    var j :| 0 <= j < |table| && table[j] == whole;
    SelectKeeps(table, q.tests + [FkIs(id)], j);
    var selected := Select(table, q.tests + [FkIs(id)]);
    var k :| 0 <= k < |selected| && selected[k] == whole;
    assert NestedLoop(table, q, id)[k] == Project(whole, WithKey(q.fields));
    ProjectIsLoadOf(whole, q.fields);
  }

  /** A query builder: loading adds conditions and columns to it for good. */
  class QueryBuilder {
    var q: Query

    constructor ()
      ensures q == Query([], {}, 0, None)
    {
      q := Query([], {}, 0, None);
    }

    method Where(t: Test)
      modifies this
      ensures q == old(q).(tests := old(q).tests + [t])
    {
      q := q.(tests := q.tests + [t]);
    }

    method AppendField(c: Column)
      modifies this
      ensures q == old(q).(fields := old(q).fields + {c})
    {
      q := q.(fields := q.fields + {c});
    }

    /** One fresh node per row, in order, not joined yet. */
    method FetchApprovals(table: seq<Row>) returns (nodes: seq<Approval>)
      ensures RowsOf(nodes) == Result(table, q)
      ensures forall i | 0 <= i < |nodes| :: fresh(nodes[i]) && nodes[i].request == null
      ensures DistinctChildren(nodes)
    {
      var rows := Result(table, q);
      nodes := [];
      for i := 0 to |rows|
        invariant RowsOf(nodes) == rows[..i]
        invariant forall k | 0 <= k < |nodes| :: fresh(nodes[k]) && nodes[k].request == null
        invariant DistinctChildren(nodes)
      {
        var node := new Approval(rows[i]);
        nodes := nodes + [node];
        assert rows[..i + 1] == rows[..i] + [rows[i]];
      }
      assert rows[..|rows|] == rows;
    }

    /** The neighbours of a one-to-many load, of which only the rows matter. */
    method FetchNeighbors(table: seq<Row>) returns (nodes: seq<Approval>)
      ensures RowsOf(nodes) == Result(table, q)
    {
      nodes := FetchApprovals(table);
    }

    method FetchRequests(table: seq<Row>) returns (nodes: seq<Request>)
      ensures |nodes| == |Result(table, q)|
      ensures forall i | 0 <= i < |nodes| :: nodes[i].id == Result(table, q)[i].id && fresh(nodes[i])
      ensures forall i, j | 0 <= i < j < |nodes| :: nodes[i] != nodes[j]
    {
      var rows := Result(table, q);
      nodes := [];
      for i := 0 to |rows|
        invariant |nodes| == i
        invariant forall k | 0 <= k < i :: nodes[k].id == rows[k].id && fresh(nodes[k])
        invariant forall j, k | 0 <= j < k < i :: nodes[j] != nodes[k]
      {
        var node := new Request(rows[i].id);
        nodes := nodes + [node];
      }
    }
  }

  // ---- One parent, many children ----

  function IdsOf(nodes: seq<Request>): set<int> {
    set i | 0 <= i < |nodes| :: nodes[i].id
  }

  /** The nodes whose foreign key is `id`, in the order the database returned them. */
  function Children(nodes: seq<Approval>, id: int): seq<Approval> {
    if nodes == [] then []
    else Children(nodes[..|nodes| - 1], id) + if nodes[|nodes| - 1].row.fk == id then [nodes[|nodes| - 1]] else []
  }

  lemma {:induction false} ChildrenRows(nodes: seq<Approval>, id: int)
    ensures RowsOf(Children(nodes, id)) == Select(RowsOf(nodes), [FkIs(id)])
  {
    if nodes != [] {
      var front, last := nodes[..|nodes| - 1], nodes[|nodes| - 1];
      ChildrenRows(front, id);
      assert RowsOf(nodes)[..|nodes| - 1] == RowsOf(front);
      var kept := Children(front, id);
      assert (kept + [last])[..|kept|] == kept;
      assert PassesAll([FkIs(id)], last.row) <==> Passes([FkIs(id)][0], last.row);
    }
  }

  /** The last request with an id, which is the one an assignment per request leaves in place. */
  function LastRequest(neighbors: seq<Request>, id: int): (r: Request?)
    ensures r == null <==> id !in IdsOf(neighbors)
    ensures r != null ==> r in neighbors && r.id == id
  {
    if neighbors == [] then null
    else if neighbors[|neighbors| - 1].id == id then neighbors[|neighbors| - 1]
    else
      assert IdsOf(neighbors) == IdsOf(neighbors[..|neighbors| - 1]) + {neighbors[|neighbors| - 1].id};
      LastRequest(neighbors[..|neighbors| - 1], id)
  }

  /** Which parents get filled: all of them exactly when no id repeats after them. */
  lemma {:induction false} FilledIff(nodes: seq<Request>, i: nat)
    requires i < |nodes| && forall j, k | 0 <= j < k < |nodes| :: nodes[j] != nodes[k]
    ensures LastRequest(nodes, nodes[i].id) == nodes[i] <==> forall j | i < j < |nodes| :: nodes[j].id != nodes[i].id
  {
    var front, last := nodes[..|nodes| - 1], nodes[|nodes| - 1];
    if i < |front| {
      assert nodes[i] != last;
      if last.id != nodes[i].id {
        FilledIff(front, i);
      }
    }
  }

  /** The map from an id to the last node that has it. */
  predicate Indexes(nodes: seq<Request>, nodeids: map<int, Request>) {
    nodeids.Keys == IdsOf(nodes) && forall id | id in nodeids :: nodeids[id] == LastRequest(nodes, id)
  }

  /** Every indexed parent holds its children among the neighbours so far, and the others nothing. */
  predicate Holding(nodes: seq<Request>, nodeids: map<int, Request>, neighbors: seq<Approval>)
    reads nodeids.Values, set i | 0 <= i < |nodes| :: nodes[i]
  {
    && (forall id | id in nodeids :: nodeids[id].approvals == Children(neighbors, id))
    && (forall i | 0 <= i < |nodes| && nodes[i] !in nodeids.Values :: nodes[i].approvals == [])
  }

  method Index(nodes: seq<Request>) returns (nodeids: map<int, Request>)
    modifies set i | 0 <= i < |nodes| :: nodes[i]
    ensures Indexes(nodes, nodeids) && Holding(nodes, nodeids, [])
  {
    nodeids := map[];
    ghost var before := [];
    for i := 0 to |nodes|
      invariant forall k | 0 <= k < i :: nodes[k].approvals == []
      invariant before == nodes[..i] && Indexes(before, nodeids)
    {
      assert (before + [nodes[i]])[..|before|] == before;
      nodeids := nodeids[nodes[i].id := nodes[i]];
      nodes[i].approvals := [];
      assert IdsOf(before + [nodes[i]]) == IdsOf(before) + {nodes[i].id} by {
        IdsOfSnoc(before, nodes[i]);
      }
      before := before + [nodes[i]];
    }
    assert before == nodes;
  }

  lemma IdsOfSnoc(nodes: seq<Request>, n: Request)
    ensures IdsOf(nodes + [n]) == IdsOf(nodes) + {n.id}
  {
    var more := nodes + [n];
    assert more[|nodes|] == n;
    assert forall i | 0 <= i < |nodes| :: more[i] == nodes[i];
  }

  /**
    The join, for whatever the store returned. It fails exactly when some returned row
    belongs to none of the parents. Otherwise every parent holds exactly its children in
    database order, except that of parents with one id only the last is filled.
  */
  method JoinApprovals(nodes: seq<Request>, nodeids: map<int, Request>, neighbors: seq<Approval>) returns (ok: bool)
    requires (forall id | id in nodeids :: nodeids[id].id == id) && Holding(nodes, nodeids, [])
    modifies nodeids.Values
    ensures ok <==> forall j | 0 <= j < |neighbors| :: neighbors[j].row.fk in nodeids
    ensures ok ==> Holding(nodes, nodeids, neighbors)
  {
    assert neighbors[..0] == [];
    for j := 0 to |neighbors|
      invariant forall k | 0 <= k < j :: neighbors[k].row.fk in nodeids
      invariant Holding(nodes, nodeids, neighbors[..j])
    {
      if neighbors[j].row.fk !in nodeids {
        return false;
      }
      Assign(nodes, nodeids, neighbors, j);
    }
    assert neighbors[..|neighbors|] == neighbors;
    return true;
  }

  /** One neighbour goes to the end of its parent's list. */
  method Assign(ghost nodes: seq<Request>, nodeids: map<int, Request>, neighbors: seq<Approval>, j: nat)
    requires forall id | id in nodeids :: nodeids[id].id == id
    requires j < |neighbors| && neighbors[j].row.fk in nodeids && Holding(nodes, nodeids, neighbors[..j])
    modifies nodeids.Values
    ensures Holding(nodes, nodeids, neighbors[..j + 1])
  {
    var n := neighbors[j];
    var parent := nodeids[n.row.fk];
    parent.approvals := parent.approvals + [n];
    assert neighbors[..j + 1][..j] == neighbors[..j];
    assert forall id | id in nodeids && id != n.row.fk :: nodeids[id] != parent;
  }

  /** The query as the loader leaves it: restricted to the parents, foreign key included. */
  function Restricted(q: Query, ids: set<int>): Query {
    q.(tests := q.tests + [FkIn(ids)], fields := WithKey(q.fields))
  }

  /** Adds the foreign key to a selection, restricts the query to the parents, and runs it. */
  method FetchFor(query: QueryBuilder, ids: set<int>, table: seq<Row>) returns (neighbors: seq<Approval>)
    modifies query
    ensures query.q == Restricted(old(query.q), ids)
    ensures RowsOf(neighbors) == Result(table, query.q)
  {
    if query.q.fields != {} {
      query.AppendField(Fk);
    }
    query.Where(FkIn(ids));
    assert query.q == Restricted(old(query.q), ids);
    neighbors := query.FetchNeighbors(table);
  }

  /** The loader: fetch the children of all parents, then join. */
  method LoadApprovals(nodes: seq<Request>, query: QueryBuilder, table: seq<Row>) returns (ok: bool)
    modifies query, set i | 0 <= i < |nodes| :: nodes[i]
    ensures ok
    ensures query.q == Restricted(old(query.q), IdsOf(nodes))
    ensures AllLoaded(nodes, table, old(query.q))
    ensures HoldLoads(nodes, table, old(query.q))
  {
    var nodeids := Index(nodes);
    var neighbors := FetchFor(query, nodeids.Keys, table);
    HonestNeighbors(neighbors, table, old(query.q), nodeids);
    ok := JoinApprovals(nodes, nodeids, neighbors);
    HeldIsLoaded(nodes, nodeids, neighbors, table, old(query.q));
    LoadedHold(nodes, table, old(query.q));
  }

  /** The last parent with each id holds the rows loaded for it; any other holds none. */
  predicate AllLoaded(nodes: seq<Request>, table: seq<Row>, q: Query)
    reads set i | 0 <= i < |nodes| :: nodes[i]
  {
    forall i | 0 <= i < |nodes| ::
      RowsOf(nodes[i].approvals)
      == (if LastRequest(nodes, nodes[i].id) == nodes[i] then Loaded(table, q, IdsOf(nodes), nodes[i].id) else [])
  }

  lemma HeldIsLoaded(nodes: seq<Request>, nodeids: map<int, Request>, neighbors: seq<Approval>, table: seq<Row>,
    q: Query)
    requires Indexes(nodes, nodeids) && Holding(nodes, nodeids, neighbors)
    requires RowsOf(neighbors) == Result(table, Restricted(q, IdsOf(nodes)))
    ensures AllLoaded(nodes, table, q)
  {
    forall i | 0 <= i < |nodes|
      ensures RowsOf(nodes[i].approvals)
           == if LastRequest(nodes, nodes[i].id) == nodes[i] then Loaded(table, q, IdsOf(nodes), nodes[i].id) else []
    {
      HeldBy(nodes, nodeids, neighbors, i);
      ChildrenRows(neighbors, nodes[i].id);
    }
  }

  lemma HeldBy(nodes: seq<Request>, nodeids: map<int, Request>, neighbors: seq<Approval>, i: nat)
    requires Indexes(nodes, nodeids) && Holding(nodes, nodeids, neighbors) && i < |nodes|
    ensures nodes[i].approvals
         == if LastRequest(nodes, nodes[i].id) == nodes[i] then Children(neighbors, nodes[i].id) else []
  {
    assert nodes[i].id in IdsOf(nodes);
    if nodes[i] in nodeids.Values {
      var id :| id in nodeids && nodeids[id] == nodes[i];
    }
  }

  /** The rows the last parent with an id ends with. */
  function Loaded(table: seq<Row>, q: Query, ids: set<int>, id: int): seq<Row> {
    Select(Result(table, Restricted(q, ids)), [FkIs(id)])
  }

  /** A store that honours the condition returns no foreign key the join could miss. */
  lemma HonestStore(table: seq<Row>, q: Query, ids: set<int>)
    ensures var rows := Result(table, Restricted(q, ids)); forall j | 0 <= j < |rows| :: rows[j].fk in ids
  {
    var tests := Restricted(q, ids).tests;
    SelectedPass(table, tests);
    var page := Page(Select(table, tests), q.offset, q.limit);
    forall j | 0 <= j < |page|
      ensures page[j].fk in ids
    {
      assert page[j] in Select(table, tests);
      assert PassesAll(tests, page[j]) && Passes(tests[|q.tests|], page[j]);
    }
  }

  lemma HonestNeighbors(neighbors: seq<Approval>, table: seq<Row>, q: Query, nodeids: map<int, Request>)
    requires RowsOf(neighbors) == Result(table, Restricted(q, nodeids.Keys))
    ensures forall j | 0 <= j < |neighbors| :: neighbors[j].row.fk in nodeids
  {
    HonestStore(table, q, nodeids.Keys);
    forall j | 0 <= j < |neighbors|
      ensures neighbors[j].row.fk in nodeids
    {
      assert RowsOf(neighbors)[j].fk in nodeids.Keys;
    }
  }

  // ---- Agreement with a nested loop ----

  /** The independent definition: scan the whole table once per parent, then project what was asked for. */
  function NestedLoop(table: seq<Row>, q: Query, id: int): seq<Row> {
    ProjectAll(Select(table, q.tests + [FkIs(id)]), WithKey(q.fields))
  }

  /** Joining projected rows is projecting the joined rows, because the key is always among the columns. */
  lemma {:induction false} JoinCommutesWithProjection(rows: seq<Row>, fields: set<Column>, id: int)
    ensures Select(ProjectAll(rows, WithKey(fields)), [FkIs(id)])
      == ProjectAll(Select(rows, [FkIs(id)]), WithKey(fields))
  {
    if rows != [] {
      var front, last := rows[..|rows| - 1], rows[|rows| - 1];
      JoinCommutesWithProjection(front, fields, id);
      var projected := ProjectAll(front, WithKey(fields));
      assert (projected + [Project(last, WithKey(fields))])[..|projected|] == projected;
      var kept := Select(front, [FkIs(id)]);
      assert kept + [] == kept;
      assert (kept + [last])[..|kept|] == kept;
      assert Passes([FkIs(id)][0], last) <==> Passes([FkIs(id)][0], Project(last, WithKey(fields)));
      assert PassesAll([FkIs(id)], last) <==> PassesAll([FkIs(id)], Project(last, WithKey(fields)));
    }
  }

  /** Restricting to a set of parents first does not change what one of them gets. */
  lemma RestrictThenPick(table: seq<Row>, tests: seq<Test>, ids: set<int>, id: int)
    requires id in ids
    ensures Select(Select(table, tests + [FkIn(ids)]), [FkIs(id)]) == Select(table, tests + [FkIs(id)])
  {
    SelectTwice(table, tests + [FkIn(ids)], [FkIs(id)]);
    SameTests(table, tests + [FkIn(ids)] + [FkIs(id)], tests + [FkIs(id)], tests, ids, id);
  }

  lemma {:induction false} SameTests(rows: seq<Row>, ps: seq<Test>, qs: seq<Test>, tests: seq<Test>, ids: set<int>,
    id: int)
    requires ps == tests + [FkIn(ids)] + [FkIs(id)] && qs == tests + [FkIs(id)] && id in ids
    ensures Select(rows, ps) == Select(rows, qs)
  {
    if rows != [] {
      SameTests(rows[..|rows| - 1], ps, qs, tests, ids, id);
      var r := rows[|rows| - 1];
      PassesBoth(tests + [FkIn(ids)], [FkIs(id)], r);
      PassesBoth(tests, [FkIn(ids)], r);
      PassesBoth(tests, [FkIs(id)], r);
      assert PassesAll([FkIs(id)], r) <==> Passes([FkIs(id)][0], r);
      assert PassesAll([FkIn(ids)], r) <==> Passes([FkIn(ids)][0], r);
    }
  }

  /** Unpaged, a parent gets exactly what the nested loop gives it, whatever columns were selected. */
  lemma UnpagedIsNestedLoop(table: seq<Row>, q: Query, ids: set<int>, id: int)
    requires q.offset == 0 && q.limit == None && id in ids
    ensures Loaded(table, q, ids, id) == NestedLoop(table, q, id)
  {
    var selected := Select(table, Restricted(q, ids).tests);
    assert Page(selected, 0, None) == selected;
    JoinCommutesWithProjection(selected, q.fields, id);
    RestrictThenPick(table, q.tests, ids, id);
  }

  // ---- Conservation ----

  function TotalLength(rows: seq<Row>, ids: seq<int>): nat {
    if ids == [] then 0 else TotalLength(rows, ids[..|ids| - 1]) + |Select(rows, [FkIs(ids[|ids| - 1])])|
  }

  predicate NoRepeats(ids: seq<int>) {
    forall i, j | 0 <= i < j < |ids| :: ids[i] != ids[j]
  }

  lemma {:induction false} OneMoreRow(rows: seq<Row>, r: Row, ids: seq<int>)
    requires NoRepeats(ids)
    ensures TotalLength(rows + [r], ids) == TotalLength(rows, ids) + if r.fk in ids then 1 else 0
  {
    if ids != [] {
      var front, last := ids[..|ids| - 1], ids[|ids| - 1];
      OneMoreRow(rows, r, front);
      assert (rows + [r])[..|rows|] == rows;
      assert PassesAll([FkIs(last)], r) <==> Passes([FkIs(last)][0], r);
      assert r.fk in ids <==> r.fk in front || r.fk == last;
    }
  }

  /** Every returned row lands in exactly one list: the lists' lengths add up to the rows returned. */
  lemma {:induction false} JoinConservesRows(rows: seq<Row>, ids: seq<int>)
    requires NoRepeats(ids) && forall j | 0 <= j < |rows| :: rows[j].fk in ids
    ensures TotalLength(rows, ids) == |rows|
  {
    if rows == [] {
      NothingToJoin(ids);
    } else {
      var front, last := rows[..|rows| - 1], rows[|rows| - 1];
      JoinConservesRows(front, ids);
      OneMoreRow(front, last, ids);
      assert front + [last] == rows;
    }
  }

  lemma {:induction false} NothingToJoin(ids: seq<int>)
    ensures TotalLength([], ids) == 0
  {
    if ids != [] {
      NothingToJoin(ids[..|ids| - 1]);
    }
  }

  lemma {:induction false} FewerEach(some: seq<Row>, all: seq<Row>, ids: seq<int>)
    requires forall i | 0 <= i < |ids| :: |Select(some, [FkIs(ids[i])])| == |Select(all, [FkIs(ids[i])])|
    ensures TotalLength(some, ids) == TotalLength(all, ids)
  {
    if ids != [] {
      assert forall i | 0 <= i < |ids| - 1 :: ids[..|ids| - 1][i] == ids[i];
      FewerEach(some, all, ids[..|ids| - 1]);
    }
  }

  function ParentSet(ids: seq<int>): set<int> {
    set i | 0 <= i < |ids| :: ids[i]
  }

  /** Every child of every parent, before paging. */
  function Matching(table: seq<Row>, q: Query, ids: seq<int>): seq<Row> {
    Select(table, q.tests + [FkIn(ParentSet(ids))])
  }

  lemma BothFromMatching(table: seq<Row>, q: Query, ids: seq<int>, i: nat)
    requires i < |ids|
    ensures Loaded(table, q, ParentSet(ids), ids[i])
         == ProjectAll(Select(Page(Matching(table, q, ids), q.offset, q.limit), [FkIs(ids[i])]), WithKey(q.fields))
    ensures NestedLoop(table, q, ids[i])
      == ProjectAll(Select(Matching(table, q, ids), [FkIs(ids[i])]), WithKey(q.fields))
  {
    JoinCommutesWithProjection(Page(Matching(table, q, ids), q.offset, q.limit), q.fields, ids[i]);
    RestrictThenPick(table, q.tests, ParentSet(ids), ids[i]);
  }

  predicate JoinsAsNestedLoop(table: seq<Row>, q: Query, ids: seq<int>) {
    forall i | 0 <= i < |ids| :: Loaded(table, q, ParentSet(ids), ids[i]) == NestedLoop(table, q, ids[i])
  }

  /**
    A limit or an offset on the edge pages the children of all parents together. Every
    parent still gets its full list exactly when the page holds every child of every parent.
  */
  lemma PagedIsNestedLoopIff(table: seq<Row>, q: Query, ids: seq<int>)
    requires NoRepeats(ids)
    ensures JoinsAsNestedLoop(table, q, ids)
       <==> |Page(Matching(table, q, ids), q.offset, q.limit)| == |Matching(table, q, ids)|
  {
    var matching := Matching(table, q, ids);
    var page := Page(matching, q.offset, q.limit);
    if |page| == |matching| {
      assert page == matching;
      forall i | 0 <= i < |ids|
        ensures Loaded(table, q, ParentSet(ids), ids[i]) == NestedLoop(table, q, ids[i])
      {
        BothFromMatching(table, q, ids, i);
      }
    }
    if JoinsAsNestedLoop(table, q, ids) {
      SameTotals(table, q, ids);
      KeysAreParents(table, q.tests, ParentSet(ids));
      assert matching == Select(table, q.tests + [FkIn(ParentSet(ids))]);
      AmongParents(matching, page, ids);
      JoinConservesRows(page, ids);
      JoinConservesRows(matching, ids);
    }
  }

  lemma SameTotals(table: seq<Row>, q: Query, ids: seq<int>)
    requires JoinsAsNestedLoop(table, q, ids)
    ensures TotalLength(Page(Matching(table, q, ids), q.offset, q.limit), ids)
      == TotalLength(Matching(table, q, ids), ids)
  {
    var matching := Matching(table, q, ids);
    var page := Page(matching, q.offset, q.limit);
    forall i | 0 <= i < |ids|
      ensures |Select(page, [FkIs(ids[i])])| == |Select(matching, [FkIs(ids[i])])|
    {
      BothFromMatching(table, q, ids, i);
      assert |Loaded(table, q, ParentSet(ids), ids[i])| == |NestedLoop(table, q, ids[i])|;
    }
    FewerEach(page, matching, ids);
  }

  lemma AmongParents(matching: seq<Row>, page: seq<Row>, ids: seq<int>)
    requires forall j | 0 <= j < |matching| :: matching[j].fk in ParentSet(ids)
    requires exists offset, limit :: page == Page(matching, offset, limit)
    ensures forall j | 0 <= j < |matching| :: matching[j].fk in ids
    ensures forall j | 0 <= j < |page| :: page[j].fk in ids
  {
    forall j | 0 <= j < |page|
      ensures page[j].fk in ids
    {
      assert page[j] in matching;
    }
  }

  lemma KeysAreParents(table: seq<Row>, tests: seq<Test>, parents: set<int>)
    ensures var rows := Select(table, tests + [FkIn(parents)]); forall j | 0 <= j < |rows| :: rows[j].fk in parents
  {
    var all := tests + [FkIn(parents)];
    SelectedPass(table, all);
    forall j | 0 <= j < |Select(table, all)|
      ensures Select(table, all)[j].fk in parents
    {
      assert Passes(all[|tests|], Select(table, all)[j]);
    }
  }

  // ---- Many children, one parent each ----

  function KeysOf(nodes: seq<Approval>): set<int> {
    set i | 0 <= i < |nodes| :: nodes[i].row.fk
  }

  /** The children that carry a key, by position. */
  function Positions(nodes: seq<Approval>, key: int): set<nat> {
    set i | 0 <= i < |nodes| && nodes[i].row.fk == key
  }

  /** The grouping loop: each key once, in order of first appearance, with all its children. */
  method Group(nodes: seq<Approval>) returns (ids: seq<int>, nodeids: map<int, set<nat>>)
    ensures NoRepeats(ids) && ParentSet(ids) == KeysOf(nodes) && nodeids.Keys == KeysOf(nodes)
    ensures forall key | key in nodeids :: nodeids[key] == Positions(nodes, key)
  {
    ids, nodeids := [], map[];
    for i := 0 to |nodes|
      invariant NoRepeats(ids)
      invariant forall k | 0 <= k < |ids| :: ids[k] in nodeids
      invariant forall key | key in nodeids :: key in ids
      invariant forall k | 0 <= k < i :: nodes[k].row.fk in nodeids
      invariant forall key | key in nodeids ::
        nodeids[key] != {} && nodeids[key] == set k | 0 <= k < i && nodes[k].row.fk == key
    {
      var fk := nodes[i].row.fk;
      if fk !in nodeids {
        ids := ids + [fk];
        nodeids := nodeids[fk := {i}];
      } else {
        nodeids := nodeids[fk := nodeids[fk] + {i}];
      }
    }
    forall key | key in nodeids
      ensures key in KeysOf(nodes)
    {
      var k :| k in nodeids[key];
    }
    assert nodeids.Keys == KeysOf(nodes);
    assert ParentSet(ids) == KeysOf(nodes);
  }

  predicate DistinctChildren(nodes: seq<Approval>) {
    forall i, j | 0 <= i < j < |nodes| :: nodes[i] != nodes[j]
  }

  predicate Joined(nodes: seq<Approval>, neighbors: seq<Request>)
    reads set i | 0 <= i < |nodes| :: nodes[i]
  {
    forall i | 0 <= i < |nodes| :: nodes[i].request == LastRequest(neighbors, nodes[i].row.fk)
  }

  /**
    The join, for whatever the store returned. It fails exactly when some returned request
    is nobody's parent. Otherwise every child, repeated keys included, gets the request with
    its key, and none when that request was not returned.
  */
  method JoinRequests(nodes: seq<Approval>, nodeids: map<int, set<nat>>, neighbors: seq<Request>) returns (ok: bool)
    requires DistinctChildren(nodes)
    requires nodeids.Keys == KeysOf(nodes) && forall key | key in nodeids :: nodeids[key] == Positions(nodes, key)
    requires forall i | 0 <= i < |nodes| :: nodes[i].request == null
    modifies set i | 0 <= i < |nodes| :: nodes[i]
    ensures ok <==> IdsOf(neighbors) <= KeysOf(nodes)
    ensures ok ==> Joined(nodes, neighbors)
  {
    ghost var before := [];
    for j := 0 to |neighbors|
      invariant before == neighbors[..j] && IdsOf(before) <= KeysOf(nodes) && Joined(nodes, before)
    {
      var n := neighbors[j];
      assert n.id in IdsOf(neighbors);
      if n.id !in nodeids {
        return false;
      }
      AssignAll(nodes, nodeids[n.id], before, n);
      before := before + [n];
    }
    assert before == neighbors;
    return true;
  }

  method AssignAll(nodes: seq<Approval>, group: set<nat>, ghost before: seq<Request>, n: Request)
    requires DistinctChildren(nodes) && group == Positions(nodes, n.id) && Joined(nodes, before)
    modifies set i | 0 <= i < |nodes| :: nodes[i]
    ensures Joined(nodes, before + [n])
  {
    assert (before + [n])[..|before|] == before;
    var todo := group;
    while todo != {}
      invariant todo <= group
      invariant forall i | 0 <= i < |nodes| ::
        nodes[i].request == if i in group && i !in todo then n else LastRequest(before, nodes[i].row.fk)
      decreases todo
    {
      var i :| i in todo;
      nodes[i].request := n;
      todo := todo - {i};
    }
  }

  /** The loader: each key asked for once, and only those. */
  method LoadRequest(nodes: seq<Approval>, query: QueryBuilder, table: seq<Row>) returns (ok: bool)
    requires forall i | 0 <= i < |nodes| :: nodes[i].request == null
    requires DistinctChildren(nodes)
    modifies query, set i | 0 <= i < |nodes| :: nodes[i]
    ensures ok
    ensures query.q
         == if nodes == [] then old(query.q) else old(query.q).(tests := old(query.q).tests + [IdIn(KeysOf(nodes))])
    ensures forall i | 0 <= i < |nodes| ::
      && (nodes[i].request == null <==> !Finds(table, query.q, nodes[i].row.fk))
      && (nodes[i].request != null ==> nodes[i].request.id == nodes[i].row.fk)
  {
    var ids, nodeids := Group(nodes);
    assert nodes != [] ==> nodes[0].row.fk in ParentSet(ids);
    assert ids != [] ==> ids[0] in KeysOf(nodes);
    if ids == [] {
      return true;
    }
    query.Where(IdIn(ParentSet(ids)));
    var neighbors := query.FetchRequests(table);
    HonestRequests(table, query.q, KeysOf(nodes));
    ok := JoinRequests(nodes, nodeids, neighbors);
    forall i | 0 <= i < |nodes|
      ensures nodes[i].request == null <==> !Finds(table, query.q, nodes[i].row.fk)
    {
      FindsIff(table, query.q, neighbors, nodes[i].row.fk);
    }
  }

  /** The query returns a row with this id. */
  predicate Finds(table: seq<Row>, q: Query, id: int) {
    exists j :: 0 <= j < |Result(table, q)| && Result(table, q)[j].id == id
  }

  lemma FindsIff(table: seq<Row>, q: Query, neighbors: seq<Request>, id: int)
    requires |neighbors| == |Result(table, q)|
    requires forall i | 0 <= i < |neighbors| :: neighbors[i].id == Result(table, q)[i].id
    ensures Finds(table, q, id) <==> id in IdsOf(neighbors)
  {
    if id in IdsOf(neighbors) {
      var i :| 0 <= i < |neighbors| && neighbors[i].id == id;
      assert Result(table, q)[i].id == id;
    }
    if Finds(table, q, id) {
      var j :| 0 <= j < |Result(table, q)| && Result(table, q)[j].id == id;
      assert neighbors[j].id == id;
    }
  }

  lemma HonestRequests(table: seq<Row>, q: Query, keys: set<int>)
    requires q.tests != [] && q.tests[|q.tests| - 1] == IdIn(keys)
    ensures forall j | 0 <= j < |Result(table, q)| :: Result(table, q)[j].id in keys
  {
    SelectedPass(table, q.tests);
    var page := Page(Select(table, q.tests), q.offset, q.limit);
    forall j | 0 <= j < |page|
      ensures page[j].id in keys
    {
      assert page[j] in Select(table, q.tests);
      assert Passes(q.tests[|q.tests| - 1], page[j]);
    }
  }

  // ---- Selecting columns on either side ----

  /** The page of whole rows behind a result. */
  function WholeRows(table: seq<Row>, q: Query): seq<Row> {
    Page(Select(table, q.tests), q.offset, q.limit)
  }

  /**
    Loading children together with their requests, whatever columns were selected on either
    side: every child gets the request of its whole row's key, because the key is added to
    the child's columns and the id to the request's.
  */
  method LoadWithRequests(children: QueryBuilder, childTable: seq<Row>, requests: QueryBuilder, requestTable: seq<Row>)
    returns (nodes: seq<Approval>, ok: bool)
    requires children != requests
    modifies requests
    ensures ok
    ensures RowsOf(nodes) == ProjectAll(WholeRows(childTable, children.q), WithKey(children.q.fields))
    ensures forall i | 0 <= i < |nodes| ::
      && IsLoadOf(nodes[i].row, WholeRows(childTable, children.q)[i], children.q.fields)
      && Asked(childTable, children.q, WholeRows(childTable, children.q)[i])
      && (nodes[i].request == null
          <==> !Finds(requestTable, requests.q.(fields := {}), WholeRows(childTable, children.q)[i].fk))
      && (nodes[i].request != null ==> nodes[i].request.id == WholeRows(childTable, children.q)[i].fk)
  {
    var spec := new QueryBuilder();
    spec.q := children.q.(fields := WithKey(children.q.fields));
    nodes := spec.FetchApprovals(childTable);
    ghost var whole := WholeRows(childTable, children.q);
    KeysSurvive(nodes, whole, children.q.fields);
    WholeRowsAreAsked(childTable, children.q);
    ok := LoadRequest(nodes, requests, requestTable);
    forall i | 0 <= i < |nodes|
      ensures Finds(requestTable, requests.q, nodes[i].row.fk)
        <==> Finds(requestTable, requests.q.(fields := {}), whole[i].fk)
    {
      FindsWhateverSelected(requestTable, requests.q, whole[i].fk);
    }
  }

  lemma KeysSurvive(nodes: seq<Approval>, whole: seq<Row>, fields: set<Column>)
    requires RowsOf(nodes) == ProjectAll(whole, WithKey(fields))
    ensures |nodes| == |whole| && forall i | 0 <= i < |nodes| :: IsLoadOf(nodes[i].row, whole[i], fields)
  {
    forall i | 0 <= i < |nodes|
      ensures IsLoadOf(nodes[i].row, whole[i], fields)
    {
      assert RowsOf(nodes)[i] == Project(whole[i], WithKey(fields));
      ProjectIsLoadOf(whole[i], fields);
    }
  }

  lemma WholeRowsAreAsked(table: seq<Row>, q: Query)
    ensures forall i | 0 <= i < |WholeRows(table, q)| :: Asked(table, q, WholeRows(table, q)[i])
  {
    SelectedPass(table, q.tests);
    forall i | 0 <= i < |WholeRows(table, q)|
      ensures Asked(table, q, WholeRows(table, q)[i])
    {
      assert WholeRows(table, q)[i] in Select(table, q.tests);
    }
  }

  /** A query finds the same ids whatever columns it selects. */
  lemma FindsWhateverSelected(table: seq<Row>, q: Query, id: int)
    ensures Finds(table, q, id) <==> Finds(table, q.(fields := {}), id)
  {
    var some, all := Result(table, q), Result(table, q.(fields := {}));
    assert |some| == |all| && forall j | 0 <= j < |some| :: some[j].id == all[j].id;
    if Finds(table, q, id) {
      var j :| 0 <= j < |some| && some[j].id == id;
      assert all[j].id == id;
    }
    if Finds(table, q.(fields := {}), id) {
      var j :| 0 <= j < |all| && all[j].id == id;
      assert some[j].id == id;
    }
  }

  // ---- Running one query object again ----

  /** The query after loading for each group of keys in turn: `Where` only ever adds. */
  function AfterLoads(q: Query, runs: seq<set<int>>): (later: Query)
    ensures later == q.(tests := later.tests)
  {
    if runs == [] then q
    else
      var before := AfterLoads(q, runs[..|runs| - 1]);
      before.(tests := before.tests + [IdIn(runs[|runs| - 1])])
  }

  lemma {:induction false} PassesAfterLoads(q: Query, runs: seq<set<int>>, r: Row)
    ensures PassesAll(AfterLoads(q, runs).tests, r)
       <==> PassesAll(q.tests, r) && forall k | 0 <= k < |runs| :: r.id in runs[k]
  {
    if runs != [] {
      var front, last := runs[..|runs| - 1], runs[|runs| - 1];
      PassesAfterLoads(q, front, r);
      PassesBoth(AfterLoads(q, front).tests, [IdIn(last)], r);
      assert PassesAll([IdIn(last)], r) <==> Passes([IdIn(last)][0], r);
      assert forall k | 0 <= k < |front| :: front[k] == runs[k];
    }
  }

  /** The rows named in every run, in order. */
  function Named(rows: seq<Row>, runs: seq<set<int>>): seq<Row> {
    if rows == [] then []
    else
      var last := rows[|rows| - 1];
      Named(rows[..|rows| - 1], runs) + if forall k | 0 <= k < |runs| :: last.id in runs[k] then [last] else []
  }

  lemma {:induction false} RerunSelects(table: seq<Row>, q: Query, runs: seq<set<int>>)
    ensures Select(table, AfterLoads(q, runs).tests) == Named(Select(table, q.tests), runs)
  {
    if table != [] {
      var front, last := table[..|table| - 1], table[|table| - 1];
      RerunSelects(front, q, runs);
      PassesAfterLoads(q, runs, last);
      var kept := Select(front, q.tests);
      assert kept + [] == kept;
      assert (kept + [last])[..|kept|] == kept;
    }
  }

  predicate OnPage(position: int, offset: nat, limit: Option<nat>) {
    offset <= position && (limit.Some? ==> position < offset + limit.value)
  }

  /**
    A query object that has loaded before finds a parent exactly when, among the rows that
    satisfy the original conditions and were asked for in every run so far, the parent is on
    the query's page: re-running it for new children loses every parent an earlier run did
    not name, and a limit or offset counts only what is left.
  */
  lemma RerunNarrowsIff(table: seq<Row>, q: Query, runs: seq<set<int>>, id: int)
    ensures Finds(table, AfterLoads(q, runs), id)
       <==> (var left := Named(Select(table, q.tests), runs);
             exists k :: 0 <= k < |left| && OnPage(k, q.offset, q.limit) && left[k].id == id)
  {
    RerunSelects(table, q, runs);
    FoundOnPageIff(table, AfterLoads(q, runs), id);
  }

  /** A query finds an id exactly when a selected row on its page has it. */
  lemma FoundOnPageIff(table: seq<Row>, q: Query, id: int)
    ensures Finds(table, q, id)
       <==> (var rows := Select(table, q.tests);
             exists k :: 0 <= k < |rows| && OnPage(k, q.offset, q.limit) && rows[k].id == id)
  {
    var rows := Select(table, q.tests);
    var page := Page(rows, q.offset, q.limit);
    if Finds(table, q, id) {
      var j :| 0 <= j < |Result(table, q)| && Result(table, q)[j].id == id;
      PageAt(rows, q.offset, q.limit, j);
      assert rows[q.offset + j].id == id;
    }
    if k :| 0 <= k < |rows| && OnPage(k, q.offset, q.limit) && rows[k].id == id {
      PageHas(rows, q.offset, q.limit, k);
      assert Result(table, q)[k - q.offset].id == id;
    }
  }

  lemma PageAt(rows: seq<Row>, offset: nat, limit: Option<nat>, j: nat)
    requires j < |Page(rows, offset, limit)|
    ensures offset + j < |rows| && OnPage(offset + j, offset, limit) && Page(rows, offset, limit)[j] == rows[offset + j]
  {
  }

  lemma PageHas(rows: seq<Row>, offset: nat, limit: Option<nat>, k: nat)
    requires k < |rows| && OnPage(k, offset, limit)
    ensures k - offset < |Page(rows, offset, limit)| && Page(rows, offset, limit)[k - offset] == rows[k]
  {
  }

  /** Without limit and offset: exactly when the query found it at first, and every run named it. */
  lemma UnpagedRerunNarrowsIff(table: seq<Row>, q: Query, runs: seq<set<int>>, id: int)
    requires q.offset == 0 && q.limit == None
    ensures Finds(table, AfterLoads(q, runs), id)
       <==> Finds(table, q, id) && forall k | 0 <= k < |runs| :: id in runs[k]
  {
    var later := AfterLoads(q, runs);
    FoundIff(table, q, id);
    FoundIff(table, later, id);
    forall r: Row
      ensures PassesAll(later.tests, r) <==> PassesAll(q.tests, r) && forall k | 0 <= k < |runs| :: r.id in runs[k]
    {
      PassesAfterLoads(q, runs, r);
    }
  }

  lemma FoundIff(table: seq<Row>, q: Query, id: int)
    requires q.offset == 0 && q.limit == None
    ensures Finds(table, q, id) <==> exists j :: 0 <= j < |table| && table[j].id == id && PassesAll(q.tests, table[j])
  {
    var selected := Select(table, q.tests);
    assert Page(selected, 0, None) == selected;
    SelectedPass(table, q.tests);
    if Finds(table, q, id) {
      var j :| 0 <= j < |Result(table, q)| && Result(table, q)[j].id == id;
      var k :| 0 <= k < |table| && table[k] == selected[j];
      assert table[k].id == id && PassesAll(q.tests, table[k]);
    }
    if j :| 0 <= j < |table| && table[j].id == id && PassesAll(q.tests, table[j]) {
      SelectKeeps(table, q.tests, j);
      var k :| 0 <= k < |selected| && selected[k] == table[j];
      assert Result(table, q)[k].id == id;
    }
  }

  lemma {:induction false} SelectKeeps(rows: seq<Row>, tests: seq<Test>, j: nat)
    requires j < |rows| && PassesAll(tests, rows[j])
    ensures rows[j] in Select(rows, tests)
  {
    if j < |rows| - 1 {
      SelectKeeps(rows[..|rows| - 1], tests, j);
    }
  }

  // ---- Both directions ----

  predicate Unpaged(q: Query) {
    q.offset == 0 && q.limit == None
  }

  lemma {:induction false} ProjectedFrom(rows: seq<Row>, fields: set<Column>, r: Row)
    ensures r in ProjectAll(rows, fields) <==> exists k :: 0 <= k < |rows| && r == Project(rows[k], fields)
  {
    var projected := ProjectAll(rows, fields);
    if r in projected {
      var k :| 0 <= k < |projected| && projected[k] == r;
      assert r == Project(rows[k], fields);
    }
    if k :| 0 <= k < |rows| && r == Project(rows[k], fields) {
      assert projected[k] == r;
    }
  }

  /** A returned child's row is in the scan for a key exactly when it carries the key. */
  lemma InNestedLoop(table: seq<Row>, q: Query, id: int, r: Row)
    requires r in ProjectAll(Select(table, q.tests), WithKey(q.fields))
    ensures r in NestedLoop(table, q, id) <==> r.fk == id
  {
    var selected := Select(table, q.tests);
    SelectTwice(table, q.tests, [FkIs(id)]);
    ProjectedFrom(selected, WithKey(q.fields), r);
    ProjectedFrom(Select(selected, [FkIs(id)]), WithKey(q.fields), r);
    SelectedPass(selected, [FkIs(id)]);
    if r in NestedLoop(table, q, id) {
      var k :| 0 <= k < |Select(selected, [FkIs(id)])|
               && r == Project(Select(selected, [FkIs(id)])[k], WithKey(q.fields));
      assert Passes([FkIs(id)][0], Select(selected, [FkIs(id)])[k]);
    }
    if r.fk == id {
      var k :| 0 <= k < |selected| && r == Project(selected[k], WithKey(q.fields));
      assert PassesAll([FkIs(id)], selected[k]);
      SelectKeeps(selected, [FkIs(id)], k);
    }
  }

  /**
    Loading in the two directions is inverse, on rows and ids. A child that its query returns
    is among the rows loaded for a parent that the other query returns, exactly when that
    query, restricted to the children's keys, finds the child's key and it is that parent's.
  */
  lemma DirectionsAgree(
    childTable: seq<Row>, children: Query, requestTable: seq<Row>, requests: Query, ids: set<int>, keys: set<int>,
    r: Row, id: int)
    requires Unpaged(children) && Unpaged(requests)
    requires r in ProjectAll(Select(childTable, children.tests), WithKey(children.fields)) && r.fk in keys
    requires Finds(requestTable, requests, id) && id in ids
    ensures r in Loaded(childTable, children, ids, id)
       <==> Finds(requestTable, AfterLoads(requests, [keys]), r.fk) && r.fk == id
  {
    UnpagedIsNestedLoop(childTable, children, ids, id);
    InNestedLoop(childTable, children, id, r);
    UnpagedRerunNarrowsIff(requestTable, requests, [keys], r.fk);
  }

  /**
    A loaded parent's list holds a returned child's row exactly when it has its key and no
    later parent took the list.
  */
  lemma InListIff(
    parents: seq<Request>, childTable: seq<Row>, children: Query, requestTable: seq<Row>, requests: Query,
    keys: set<int>, r: Row, i: nat)
    requires Unpaged(children) && Unpaged(requests) && i < |parents|
    requires forall j, k | 0 <= j < k < |parents| :: parents[j] != parents[k]
    requires AllLoaded(parents, childTable, children)
    requires r in ProjectAll(Select(childTable, children.tests), WithKey(children.fields)) && r.fk in keys
    requires Finds(requestTable, requests, parents[i].id)
    ensures r in RowsOf(parents[i].approvals)
       <==> (&& Finds(requestTable, AfterLoads(requests, [keys]), r.fk) && r.fk == parents[i].id
             && forall k | i < k < |parents| :: parents[k].id != parents[i].id)
  {
    assert parents[i].id in IdsOf(parents);
    FilledIff(parents, i);
    DirectionsAgree(childTable, children, requestTable, requests, IdsOf(parents), keys, r, parents[i].id);
  }

  /** What a parent was given, the children's own query returns too. */
  lemma ListedIsReturned(parents: seq<Request>, childTable: seq<Row>, children: Query, i: nat, r: Row)
    requires Unpaged(children) && i < |parents| && AllLoaded(parents, childTable, children)
    requires r in RowsOf(parents[i].approvals)
    ensures r in ProjectAll(Select(childTable, children.tests), WithKey(children.fields))
  {
    var id := parents[i].id;
    assert id in IdsOf(parents);
    UnpagedIsNestedLoop(childTable, children, IdsOf(parents), id);
    SelectTwice(childTable, children.tests, [FkIs(id)]);
    var selected := Select(childTable, children.tests);
    SelectedPass(selected, [FkIs(id)]);
    ProjectedFrom(Select(selected, [FkIs(id)]), WithKey(children.fields), r);
    ProjectedFrom(selected, WithKey(children.fields), r);
    var k :| 0 <= k < |Select(selected, [FkIs(id)])|
             && r == Project(Select(selected, [FkIs(id)])[k], WithKey(children.fields));
    assert Select(selected, [FkIs(id)])[k] in selected;
  }

  /** A child that was given a request was given the one its row names. */
  predicate HasItsRequest(node: Approval, requestTable: seq<Row>, q: Query)
    reads node
  {
    && (node.request == null <==> !Finds(requestTable, q, node.row.fk))
    && (node.request != null ==> node.request.id == node.row.fk)
  }

  method FetchParents(childTable: seq<Row>, children: Query, requestTable: seq<Row>, requests: Query)
    returns (parents: seq<Request>)
    ensures |parents| == |Result(requestTable, requests)|
    ensures forall i | 0 <= i < |parents| :: parents[i].id == Result(requestTable, requests)[i].id && fresh(parents[i])
    ensures forall i, j | 0 <= i < j < |parents| :: parents[i] != parents[j]
    ensures AllLoaded(parents, childTable, children)
  {
    var query := new QueryBuilder();
    query.q := requests;
    parents := query.FetchRequests(requestTable);
    var own := new QueryBuilder();
    own.q := children;
    var _ := LoadApprovals(parents, own, childTable);
  }

  method FetchChildren(childTable: seq<Row>, children: Query, requestTable: seq<Row>, requests: Query)
    returns (nodes: seq<Approval>)
    requires Unpaged(children)
    ensures RowsOf(nodes) == ProjectAll(Select(childTable, children.tests), WithKey(children.fields))
    ensures forall j | 0 <= j < |nodes| ::
      fresh(nodes[j]) && HasItsRequest(nodes[j], requestTable, AfterLoads(requests, [KeysOf(nodes)]))
  {
    var query := new QueryBuilder();
    query.q := children.(fields := WithKey(children.fields));
    nodes := query.FetchApprovals(childTable);
    assert Page(Select(childTable, children.tests), 0, None) == Select(childTable, children.tests);
    var own := new QueryBuilder();
    own.q := requests;
    var _ := LoadRequest(nodes, own, requestTable);
    assert AfterLoads(requests, [KeysOf(nodes)]) == requests.(tests := requests.tests + [IdIn(KeysOf(nodes))]);
  }

  /**
    Both eager loads, each from its own queries and with its own nodes. A child's row is in
    a parent's list exactly when the child's request has the parent's id, and no later
    parent has taken the list; and no list has a row that is not a child's.
  */
  method LoadBothWays(childTable: seq<Row>, children: Query, requestTable: seq<Row>, requests: Query)
    returns (parents: seq<Request>, nodes: seq<Approval>)
    requires Unpaged(children) && Unpaged(requests)
    ensures |parents| == |Result(requestTable, requests)|
    ensures forall i | 0 <= i < |parents| :: parents[i].id == Result(requestTable, requests)[i].id
    ensures RowsOf(nodes) == ProjectAll(Select(childTable, children.tests), WithKey(children.fields))
    ensures forall i, j | 0 <= i < |parents| && 0 <= j < |nodes| ::
      nodes[j].row in RowsOf(parents[i].approvals)
      <==> (&& nodes[j].request != null && nodes[j].request.id == parents[i].id
            && forall k | i < k < |parents| :: parents[k].id != parents[i].id)
    ensures forall i, r | 0 <= i < |parents| && r in RowsOf(parents[i].approvals) :: r in RowsOf(nodes)
  {
    parents := FetchParents(childTable, children, requestTable, requests);
    nodes := FetchChildren(childTable, children, requestTable, requests);
    forall i, j | 0 <= i < |parents| && 0 <= j < |nodes|
      ensures nodes[j].row in RowsOf(parents[i].approvals)
         <==> (&& nodes[j].request != null && nodes[j].request.id == parents[i].id
               && forall k | i < k < |parents| :: parents[k].id != parents[i].id)
    {
      assert RowsOf(nodes)[j] == nodes[j].row;
      assert Result(requestTable, requests)[i].id == parents[i].id;
      assert HasItsRequest(nodes[j], requestTable, AfterLoads(requests, [KeysOf(nodes)]));
      InListIff(parents, childTable, children, requestTable, requests, KeysOf(nodes), nodes[j].row, i);
    }
    forall i, r | 0 <= i < |parents| && r in RowsOf(parents[i].approvals)
      ensures r in RowsOf(nodes)
    {
      ListedIsReturned(parents, childTable, children, i, r);
    }
  }
}
