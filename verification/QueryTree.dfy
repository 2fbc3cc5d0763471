/**
  Query builders: a tree of eager queries edited in place, and the copy `Clone` makes of it.

  A Go slice is an array and a length, and appending writes into the array when it has
  room, so two builders that shared a slice would overwrite each other. Interceptors and
  the third edge of a request query are copied by the same template and left out. The
  query context's own `Clone` is library code, taken to copy its fields.
*/
module QueryTree {
  import opened Common

  type Item(==, 0, !new)
  type Field(==, !new)

  // ---- Slices ----

  datatype Slice = Slice(arr: array<Item>, len: nat)
  {
    ghost predicate Valid()
      reads arr
    {
      len <= arr.Length
    }

    function View(): seq<Item>
      requires Valid()
      reads arr
    {
      arr[..len]
    }
  }

  method EmptySlice() returns (s: Slice)
    ensures fresh(s.arr) && s.Valid() && s.View() == []
  {
    var arr := new Item[0];
    s := Slice(arr, 0);
  }

  /** In place when there is room, in a grown array otherwise. */
  method Append(s: Slice, x: Item) returns (r: Slice)
    requires s.Valid()
    modifies s.arr
    ensures r.Valid() && r.View() == old(s.View()) + [x] && r.len == s.len + 1
    ensures s.View() == old(s.View())
    ensures if s.len < s.arr.Length then r.arr == s.arr else fresh(r.arr)
  {
    if s.len < s.arr.Length {
      s.arr[s.len] := x;
      r := Slice(s.arr, s.len + 1);
    } else {
      var grown := new Item[2 * s.len + 1];
      forall i | 0 <= i < s.len {
        grown[i] := s.arr[i];
      }
      grown[s.len] := x;
      r := Slice(grown, s.len + 1);
    }
  }

  /** Appending to a new empty slice. */
  method Copy(s: Slice) returns (r: Slice)
    requires s.Valid()
    ensures fresh(r.arr) && r.Valid() && r.View() == s.View()
  {
    var arr := new Item[s.len];
    forall i | 0 <= i < s.len {
      arr[i] := s.arr[i];
    }
    r := Slice(arr, s.len);
  }

  /** Why `Clone` copies: two holders of one slice keep their own last item exactly when the array has no room. */
  method AppendToShared(s: Slice, x: Item, y: Item) returns (a: Slice, b: Slice)
    requires s.Valid()
    modifies s.arr
    ensures a.Valid() && b.Valid()
    ensures b.View() == old(s.View()) + [y]
    ensures a.View() == old(s.View()) + [if s.len < s.arr.Length then y else x]
  {
    a := Append(s, x);
    label First:
    b := Append(s, y);
    if s.len < s.arr.Length {
      assert a == b;
    } else {
      assert a.View() == old@First(a.View());
    }
  }

  // ---- Builders ----

  datatype Settings = Settings(fields: seq<Field>, limit: Option<int>, offset: Option<int>, unique: Option<bool>)

  class Context {
    var settings: Settings

    constructor (settings: Settings)
      ensures this.settings == settings
    {
      this.settings := settings;
    }
  }

  /** Everything a tree of builders says, as a value. */
  datatype View = View(settings: Settings, predicates: seq<Item>, order: seq<Item>, first: Option<View>,
    second: Option<View>)

  const BLANK := View(Settings([], None, None, None), [], [], None, None)

  datatype Edge = First | Second

  /** An edit of a builder, or of a builder nested under one of its edges. */
  datatype Edit =
    | Where(p: Item)
    | Order(o: Item)
    | Limit(n: int)
    | Offset(n: int)
    | Unique(u: bool)
    | AppendFieldOnce(f: Field)
    | With(edge: Edge)
    | Within(edge: Edge, edit: Edit)

  function EditSettings(s: Settings, e: Edit): Settings {
    match e
    case Limit(n) => s.(limit := Some(n))
    case Offset(n) => s.(offset := Some(n))
    case Unique(u) => s.(unique := Some(u))
    case AppendFieldOnce(f) => if f in s.fields then s else s.(fields := s.fields + [f])
    case _ => s
  }

  function Edited(v: View, e: Edit): View
    decreases e
  {
    match e
    case Where(p) => v.(predicates := v.predicates + [p])
    case Order(o) => v.(order := v.order + [o])
    case With(First) => v.(first := Some(BLANK))
    case With(Second) => v.(second := Some(BLANK))
    case Within(First, inner) => if v.first.None? then v else v.(first := Some(Edited(v.first.value, inner)))
    case Within(Second, inner) => if v.second.None? then v else v.(second := Some(Edited(v.second.value, inner)))
    case _ => v.(settings := EditSettings(v.settings, e))
  }

  ghost function ReprOf(q: Query?): set<object>
    reads q
  {
    if q == null then {} else q.Repr
  }

  ghost function ViewOf(q: Query?): Option<View>
    requires q != null ==> q.Valid()
    reads q, if q == null then {} else q.Repr
  {
    if q == null then None else Some(q.AsView())
  }

  /** The subtree says this. */
  ghost predicate Cloned(q: Query?, view: Option<View>)
    reads q, if q == null then {} else q.Repr
  {
    (q != null ==> q.Valid()) && ViewOf(q) == view
  }

  class Query {
    var ctx: Context
    var predicates: Slice
    var order: Slice
    var first: Query?
    var second: Query?
    /** The builder an edge traversal started from; the closure that captures it is shared by copies. */
    var path: Query?
    ghost var Repr: set<object>

    ghost predicate Valid()
      reads this, Repr
      ensures Valid() ==> this in Repr
      decreases Repr
    {
      && this in Repr && ctx in Repr && predicates.arr in Repr && order.arr in Repr
      && predicates.arr != order.arr
      && predicates.Valid() && order.Valid()
      && (first != null ==>
            && first in Repr && first.Repr <= Repr && {this, ctx, predicates.arr, order.arr} !! first.Repr
              && first.Valid())
      && (second != null ==>
            && second in Repr && second.Repr <= Repr && {this, ctx, predicates.arr, order.arr} !! second.Repr
              && second.Valid())
      && (first != null && second != null ==> first.Repr !! second.Repr)
    }

    function AsView(): View
      requires Valid()
      reads this, Repr
      decreases Repr
    {
      View(ctx.settings, predicates.View(), order.View(),
           if first == null then None else Some(first.AsView()),
           if second == null then None else Some(second.AsView()))
    }

    constructor ()
      ensures Valid() && fresh(Repr) && AsView() == BLANK && path == null
    {
      var ps := EmptySlice();
      var os := EmptySlice();
      ctx := new Context(Settings([], None, None, None));
      predicates, order := ps, os;
      first, second, path := null, null, null;
      new;
      Repr := {this, ctx, predicates.arr, order.arr};
    }

    method SetFirst(q: Query)
      requires Valid() && q.Valid() && Repr !! q.Repr
      modifies this
      ensures Valid() && Repr == old(Repr) + q.Repr && path == old(path)
      ensures AsView() == old(AsView()).(first := Some(q.AsView()))
    {
      first := q;
      Repr := Repr + q.Repr;
    }

    method SetSecond(q: Query)
      requires Valid() && q.Valid() && Repr !! q.Repr
      modifies this
      ensures Valid() && Repr == old(Repr) + q.Repr && path == old(path)
      ensures AsView() == old(AsView()).(second := Some(q.AsView()))
    {
      second := q;
      Repr := Repr + q.Repr;
    }

    /** Cloning a nil query gives nil. */
    static method CloneEdge(q: Query?) returns (c: Query?)
      requires q != null ==> q.Valid()
      ensures c != null ==> c.Valid() && fresh(c.Repr)
      ensures ViewOf(c) == old(ViewOf(q))
      decreases ReprOf(q), 3
    {
      c := null;
      if q != null {
        c := q.Clone();
      }
    }

    /** Parts that share nothing and say what `view` says, put together. */
    constructor Of(ctx: Context, predicates: Slice, order: Slice, first: Query?, second: Query?, path: Query?,
                   ghost view: View, ghost parts: set<object>)
      requires predicates.Valid() && order.Valid() && predicates.arr != order.arr
      requires {ctx, predicates.arr, order.arr} !! parts
      requires ReprOf(first) !! ReprOf(second) && parts == ReprOf(first) + ReprOf(second)
      requires ctx.settings == view.settings && predicates.View() == view.predicates && order.View() == view.order
      requires Cloned(first, view.first) && Cloned(second, view.second)
      ensures Valid() && Repr == {this, ctx, predicates.arr, order.arr} + parts && this.path == path
      ensures AsView() == view
    {
      this.ctx, this.predicates, this.order, this.first, this.second, this.path := ctx, predicates, order, first,
        second, path;
      Repr := {this, ctx, predicates.arr, order.arr} + parts;
    }

    /** An equal tree, with no mutable object in common. Only the traversal closure is shared. */
    method Clone() returns (c: Query)
      requires Valid()
      ensures c.Valid() && fresh(c.Repr)
      ensures c.AsView() == old(AsView())
      ensures c.path == path
      decreases Repr, 2
    {
      ghost var view := AsView();
      var ctx', predicates', order', first', second', parts := CloneParts(view);
      c := new Query.Of(ctx', predicates', order', first', second', path, view, parts);
    }

    /** Everything a clone consists of, fresh and saying what `view` says. */
    method CloneParts(ghost view: View)
      returns (ctx': Context, predicates': Slice, order': Slice, first': Query?, second': Query?,
        ghost parts: set<object>)
      requires Valid() && view == AsView()
      ensures fresh(ctx') && fresh(predicates'.arr) && fresh(order'.arr) && fresh(parts)
      ensures predicates'.arr != order'.arr && {ctx', predicates'.arr, order'.arr} !! parts
      ensures predicates'.Valid() && order'.Valid()
      ensures ctx'.settings == view.settings && predicates'.View() == view.predicates && order'.View() == view.order
      ensures Cloned(first', view.first) && Cloned(second', view.second)
      ensures ReprOf(first') !! ReprOf(second') && parts == ReprOf(first') + ReprOf(second')
      decreases Repr, 1
    {
      ctx', predicates', order' := CopyOwn(view);
      first', second', parts := CloneEdges(view);
    }

    /** Clones of the two subtrees; `parts` are all their objects. */
    method CloneEdges(ghost view: View) returns (first': Query?, second': Query?, ghost parts: set<object>)
      requires Valid() && view == AsView()
      ensures Cloned(first', view.first) && Cloned(second', view.second)
      ensures ReprOf(first') !! ReprOf(second') && parts == ReprOf(first') + ReprOf(second') && fresh(parts)
      decreases Repr, 0
    {
      first' := CloneEdge(first);
      second' := CloneEdge(second);
      parts := ReprOf(first') + ReprOf(second');
    }

    /** The node's own context and slices. */
    method CopyOwn(ghost view: View) returns (ctx': Context, predicates': Slice, order': Slice)
      requires Valid() && view == AsView()
      ensures fresh(ctx') && fresh(predicates'.arr) && fresh(order'.arr) && predicates'.arr != order'.arr
      ensures predicates'.Valid() && order'.Valid()
      ensures ctx'.settings == view.settings && predicates'.View() == view.predicates && order'.View() == view.order
    {
      ctx' := new Context(ctx.settings);
      order' := Copy(order);
      predicates' := Copy(predicates);
    }

    method AddPredicate(p: Item)
      requires Valid()
      modifies Repr
      ensures Valid() && fresh(Repr - old(Repr))
      ensures AsView() == old(AsView()).(predicates := old(AsView()).predicates + [p])
    {
      var ps := Append(predicates, p);
      predicates := ps;
      Repr := Repr + {ps.arr};
    }

    method AddOrder(o: Item)
      requires Valid()
      modifies Repr
      ensures Valid() && fresh(Repr - old(Repr))
      ensures AsView() == old(AsView()).(order := old(AsView()).order + [o])
    {
      var os := Append(order, o);
      order := os;
      Repr := Repr + {os.arr};
    }

    method EditFirst(e: Edit)
      requires Valid() && first != null
      modifies Repr
      ensures Valid() && fresh(Repr - old(Repr))
      ensures AsView() == old(AsView()).(first := Some(Edited(old(first.AsView()), e)))
      decreases e, 1
    {
      first.Apply(e);
      Repr := Repr + first.Repr;
    }

    method EditSecond(e: Edit)
      requires Valid() && second != null
      modifies Repr
      ensures Valid() && fresh(Repr - old(Repr))
      ensures AsView() == old(AsView()).(second := Some(Edited(old(second.AsView()), e)))
      decreases e, 1
    {
      second.Apply(e);
      Repr := Repr + second.Repr;
    }

    method EditContext(e: Edit)
      requires Valid()
      modifies Repr
      ensures Valid() && Repr == old(Repr)
      ensures AsView() == old(AsView()).(settings := EditSettings(old(AsView()).settings, e))
    {
      ctx.settings := EditSettings(ctx.settings, e);
    }

    method AttachFirst()
      requires Valid()
      modifies this
      ensures Valid() && fresh(Repr - old(Repr))
      ensures AsView() == old(AsView()).(first := Some(BLANK))
    {
      var q := new Query();
      SetFirst(q);
    }

    method AttachSecond()
      requires Valid()
      modifies this
      ensures Valid() && fresh(Repr - old(Repr))
      ensures AsView() == old(AsView()).(second := Some(BLANK))
    {
      var q := new Query();
      SetSecond(q);
    }

    method ApplyWithin(edge: Edge, e: Edit)
      requires Valid()
      modifies Repr
      ensures Valid() && fresh(Repr - old(Repr))
      ensures AsView() == Edited(old(AsView()), Within(edge, e))
      decreases e, 2
    {
      match edge
      case First => if first != null { EditFirst(e); }
      case Second => if second != null { EditSecond(e); }
    }

    /** One edit, in place, here or in a nested builder. Nothing outside this tree changes. */
    method Apply(e: Edit)
      requires Valid()
      modifies Repr
      ensures Valid() && fresh(Repr - old(Repr))
      ensures AsView() == Edited(old(AsView()), e)
      decreases e, 0
    {
      match e
      case Where(p) => AddPredicate(p);
      case Order(o) => AddOrder(o);
      case With(First) => AttachFirst();
      case With(Second) => AttachSecond();
      case Within(edge, inner) => ApplyWithin(edge, inner);
      case _ => EditContext(e);
    }
  }

  // ---- What a builder says after its edits ----

  function AfterEdits(v: View, edits: seq<Edit>): View {
    if edits == [] then v else Edited(AfterEdits(v, edits[..|edits| - 1]), edits[|edits| - 1])
  }

  /** The conditions a script adds to the builder itself, in order; and the orderings. */
  function Conditions(edits: seq<Edit>): seq<Item> {
    if edits == [] then []
    else Conditions(edits[..|edits| - 1]) + if edits[|edits| - 1].Where? then [edits[|edits| - 1].p] else []
  }

  function Orderings(edits: seq<Edit>): seq<Item> {
    if edits == [] then []
    else Orderings(edits[..|edits| - 1]) + if edits[|edits| - 1].Order? then [edits[|edits| - 1].o] else []
  }

  /** The last edit of the script that `is` picks, if there is one. */
  predicate IsLast(edits: seq<Edit>, k: int, pick: Edit -> bool) {
    0 <= k < |edits| && pick(edits[k]) && forall j | k < j < |edits| :: !pick(edits[j])
  }

  predicate NoRepeats(fields: seq<Field>) {
    forall i, j | 0 <= i < j < |fields| :: fields[i] != fields[j]
  }

  /**
    What a builder says after any script of edits, read off the script: its conditions and
    orderings are the old ones and then those added, in order, and a column is selected
    exactly when it was or some edit selects it, and never twice.
  */
  lemma {:induction false} BuilderSaysWhatWasAsked(v: View, edits: seq<Edit>)
    ensures var after := AfterEdits(v, edits);
            && after.predicates == v.predicates + Conditions(edits)
            && after.order == v.order + Orderings(edits)
            && (forall f :: f in after.settings.fields <==> f in v.settings.fields || AppendFieldOnce(f) in edits)
            && (NoRepeats(v.settings.fields) ==> NoRepeats(after.settings.fields))
  {
    if edits != [] {
      var n := |edits| - 1;
      BuilderSaysWhatWasAsked(v, edits[..n]);
      assert edits == edits[..n] + [edits[n]];
    }
  }

  /** A limit, an offset or uniqueness is the last one set, or the old one when none is. */
  lemma {:induction false} LastSettingCounts(v: View, edits: seq<Edit>, k: int)
    ensures var after := AfterEdits(v, edits).settings;
            && (IsLast(edits, k, (e: Edit) => e.Limit?) ==> after.limit == Some(edits[k].n))
            && (IsLast(edits, k, (e: Edit) => e.Offset?) ==> after.offset == Some(edits[k].n))
            && (IsLast(edits, k, (e: Edit) => e.Unique?) ==> after.unique == Some(edits[k].u))
            && ((forall j | 0 <= j < |edits| :: !edits[j].Limit?) ==> after.limit == v.settings.limit)
            && ((forall j | 0 <= j < |edits| :: !edits[j].Offset?) ==> after.offset == v.settings.offset)
            && ((forall j | 0 <= j < |edits| :: !edits[j].Unique?) ==> after.unique == v.settings.unique)
  {
    if edits != [] {
      var n := |edits| - 1;
      LastSettingCounts(v, edits[..n], k);
      assert forall j | 0 <= j < n :: edits[..n][j] == edits[j];
    }
  }

  /** The edits of a script that reach the builder under an edge: those since the edge was last attached. */
  function Inner(edits: seq<Edit>, edge: Edge): seq<Edit> {
    if edits == [] then []
    else
      var e := edits[|edits| - 1];
      if e == With(edge) then []
      else Inner(edits[..|edits| - 1], edge) + if e.Within? && e.edge == edge then [e.edit] else []
  }

  function EdgeOf(v: View, edge: Edge): Option<View> {
    if edge.First? then v.first else v.second
  }

  /**
    The builder under an edge: there once it was attached or if it was there before, and then
    as its own edits since leave a new builder, or the old one.
  */
  lemma {:induction false} EdgeSaysWhatWasAsked(v: View, edits: seq<Edit>, edge: Edge)
    ensures EdgeOf(AfterEdits(v, edits), edge)
         == if With(edge) in edits then Some(AfterEdits(BLANK, Inner(edits, edge)))
            else if EdgeOf(v, edge).Some? then Some(AfterEdits(EdgeOf(v, edge).value, Inner(edits, edge)))
            else None
  {
    if edits != [] {
      var n := |edits| - 1;
      var e := edits[n];
      EdgeSaysWhatWasAsked(v, edits[..n], edge);
      assert edits == edits[..n] + [e];
      if e.Within? && e.edge == edge {
        var before := Inner(edits[..n], edge);
        assert (before + [e.edit])[..|before|] == before;
      } else if e != With(edge) {
        assert Inner(edits, edge) == Inner(edits[..n], edge);
      }
    }
  }

  /** A new builder says what it was asked and no more. */
  lemma NewBuilderSaysOnlyWhatWasAsked(edits: seq<Edit>, edge: Edge)
    ensures var after := AfterEdits(BLANK, edits);
            && after.predicates == Conditions(edits) && after.order == Orderings(edits)
            && (forall f :: f in after.settings.fields <==> AppendFieldOnce(f) in edits)
            && ((forall j | 0 <= j < |edits| :: !edits[j].Limit?) ==> after.settings.limit == None)
            && ((forall j | 0 <= j < |edits| :: !edits[j].Offset?) ==> after.settings.offset == None)
            && ((forall j | 0 <= j < |edits| :: !edits[j].Unique?) ==> after.settings.unique == None)
            && (EdgeOf(after, edge).Some? <==> With(edge) in edits)
  {
    BuilderSaysWhatWasAsked(BLANK, edits);
    LastSettingCounts(BLANK, edits, 0);
    EdgeSaysWhatWasAsked(BLANK, edits, edge);
  }

  // ---- A copy goes its own way ----

  datatype Side = Original | Copied

  /** A builder after its own edits of a script, in order; the other side's edits are skipped. */
  function AfterOwn(v: View, script: seq<(Side, Edit)>, side: Side): View
    decreases |script|
  {
    if script == [] then v
    else AfterOwn(if script[0].0 == side then Edited(v, script[0].1) else v, script[1..], side)
  }

  /** One side's edits of a script, in order. */
  function Own(script: seq<(Side, Edit)>, side: Side): seq<Edit> {
    if script == [] then []
    else Own(script[..|script| - 1], side)
         + if script[|script| - 1].0 == side then [script[|script| - 1].1] else []
  }

  /** So a builder ends as its own edits alone leave it. */
  lemma {:induction false} AfterOwnIsAfterEdits(v: View, script: seq<(Side, Edit)>, side: Side)
    ensures AfterOwn(v, script, side) == AfterEdits(v, Own(script, side))
    decreases |script|
  {
    if script != [] {
      var n := |script| - 1;
      var before := Own(script[..n], side);
      AfterOwnIsAfterEdits(v, script[..n], side);
      AfterOwnLast(v, script, side);
      if script[n].0 == side {
        assert (before + [script[n].1])[..|before|] == before;
      } else {
        assert before + [] == before;
      }
    }
  }

  lemma {:induction false} AfterOwnLast(v: View, script: seq<(Side, Edit)>, side: Side)
    requires script != []
    ensures var n := |script| - 1;
            AfterOwn(v, script, side)
            == (var before := AfterOwn(v, script[..n], side);
                if script[n].0 == side then Edited(before, script[n].1) else before)
    decreases |script|
  {
    var n := |script| - 1;
    if n > 0 {
      var next := if script[0].0 == side then Edited(v, script[0].1) else v;
      AfterOwnLast(next, script[1..], side);
      assert script[1..][..n - 1] == script[..n][1..];
    } else {
      assert script[..0] == [] && script[1..] == [];
    }
  }

  method EditOne(q: Query, c: Query, who: Side, e: Edit)
    requires q.Valid() && c.Valid() && q.Repr !! c.Repr
    modifies if who == Original then q.Repr else c.Repr
    ensures q.Valid() && c.Valid() && q.Repr !! c.Repr
    ensures fresh(q.Repr - old(q.Repr)) && fresh(c.Repr - old(c.Repr))
    ensures q.AsView() == if who == Original then Edited(old(q.AsView()), e) else old(q.AsView())
    ensures c.AsView() == if who == Copied then Edited(old(c.AsView()), e) else old(c.AsView())
  {
    match who
    case Original => q.Apply(e);
    case Copied => c.Apply(e);
  }

  method EditBoth(q: Query, c: Query, script: seq<(Side, Edit)>)
    requires q.Valid() && c.Valid() && q.Repr !! c.Repr
    modifies q.Repr, c.Repr
    ensures q.Valid() && c.Valid() && q.Repr !! c.Repr
    ensures q.AsView() == AfterOwn(old(q.AsView()), script, Original)
    ensures c.AsView() == AfterOwn(old(c.AsView()), script, Copied)
    decreases |script|
  {
    if script != [] {
      EditOne(q, c, script[0].0, script[0].1);
      EditBoth(q, c, script[1..]);
    }
  }

  /**
    After a copy is made, any interleaving of edits of the two trees, nested builders
    included, leaves each exactly as its own edits alone would have.
  */
  method CloneThenDiverge(q: Query, script: seq<(Side, Edit)>) returns (c: Query)
    requires q.Valid()
    modifies q.Repr
    ensures q.Valid() && c.Valid() && q.Repr !! c.Repr
    ensures q.AsView() == AfterOwn(old(q.AsView()), script, Original)
    ensures c.AsView() == AfterOwn(old(q.AsView()), script, Copied)
  {
    c := q.Clone();
    EditBoth(q, c, script);
  }
}
