/**
  Approval policies: creating one, reading it back, and which one governs a change. All
  rows have the one action type the service uses, so it is left out.
*/
module Policies {
  import opened Common

  type Namespace(==, !new)

  datatype Role = Admin | Dev | Readonly
  datatype TypeName = Blank | Named(name: string)

  datatype Scope = Everywhere | In(ns: Namespace)

  /** A stored row. `bypass` is absent where the column holds JSON null. */
  datatype Policy = Policy(
    scope: Scope, allTypes: bool, types: seq<TypeName>, required: nat, bypass: Option<seq<Role>>, enabled: bool)

  /** A request body; an absent field is one the caller left out. */
  datatype Body = Body(
    allNamespaces: Option<bool>, namespace: Option<Namespace>, allTypes: Option<bool>, types: seq<TypeName>,
    required: int, bypass: Option<seq<Role>>, enabled: Option<bool>)

  datatype CreateResult = Created(policy: Policy) | BadRequest | Conflict

  // ---- Create ----

  predicate Global(b: Body) {
    b.allNamespaces == Some(true)
  }

  function AllTypesOf(b: Body): bool {
    if b.allTypes.Some? then b.allTypes.value else b.types == []
  }

  /** The namespace and the type list are each an either/or. */
  predicate WellScoped(b: Body) {
    && (Global(b) <==> b.namespace.None?)
    && (AllTypesOf(b) <==> b.types == [])
  }

  /**
    What the lookups say: the deployed schema's type names, absent when it cannot be read,
    and whether the namespace exists. An unreadable schema lets every name through.
  */
  datatype Lookups = Lookups(known: Option<set<TypeName>>, namespaceFound: bool)

  predicate AllKnown(types: seq<TypeName>, known: Option<set<TypeName>>) {
    known.Some? ==> forall i | 0 <= i < |types| :: types[i] in known.value
  }

  predicate Checked(b: Body, lookups: Lookups) {
    && AllKnown(b.types, lookups.known)
    && (Global(b) || lookups.namespaceFound)
  }

  /** Either all types or a list of them, and, when the schema can be read, only types it has. */
  method ValidateScope(allTypes: bool, types: seq<TypeName>, known: Option<set<TypeName>>) returns (ok: bool)
    ensures ok <==> (allTypes <==> types == []) && AllKnown(types, known)
  {
    if allTypes && |types| > 0 { return false; }
    if !allTypes && |types| == 0 { return false; }
    if known.Some? {
      for i := 0 to |types|
        invariant forall k | 0 <= k < i :: types[k] in known.value
      {
        if types[i] !in known.value { return false; }
      }
    }
    return true;
  }

  /** What an accepted body stores, defaults included. */
  function Built(b: Body): Policy
    requires WellScoped(b)
  {
    Policy(
      if Global(b) then Everywhere else In(b.namespace.value),
      AllTypesOf(b), b.types,
      if b.required > 0 then b.required else 1,
      if b.bypass.Some? then b.bypass else Some([Admin]),
      if b.enabled.Some? then b.enabled.value else true)
  }

  /** The two unique indexes: one row per namespace, one for all namespaces. */
  predicate OnePerScope(rows: seq<Policy>) {
    forall i, j | 0 <= i < j < |rows| :: rows[i].scope != rows[j].scope
  }

  predicate Covers(rows: seq<Policy>, scope: Scope) {
    exists i :: 0 <= i < |rows| && rows[i].scope == scope
  }

  function CreateAnswer(rows: seq<Policy>, b: Body, lookups: Lookups): CreateResult {
    if !WellScoped(b) || !Checked(b, lookups) then BadRequest
    else if Covers(rows, Built(b).scope) then Conflict
    else Created(Built(b))
  }

  function RowsAfter(rows: seq<Policy>, b: Body, lookups: Lookups): seq<Policy> {
    var r := CreateAnswer(rows, b, lookups);
    if r.Created? then rows + [r.policy] else rows
  }

  // ---- Patch and delete ----

  /** The fields a patch may bring; the row it is for is found by its id. */
  datatype PatchBody = PatchBody(
    allNamespaces: Option<bool>, allTypes: Option<bool>, types: Option<seq<TypeName>>,
    required: int, bypass: Option<seq<Role>>, enabled: Option<bool>)

  datatype PatchResult = Patched(policy: Policy) | PatchRefused | NotFound

  /** Either type field means that the patch brings both; what is missing reads as none. */
  predicate BringsTypes(b: PatchBody) {
    b.allTypes.Some? || b.types.Some?
  }

  function PatchTypes(b: PatchBody): seq<TypeName> {
    if b.types.Some? then b.types.value else []
  }

  predicate PatchAllowed(p: Policy, b: PatchBody, known: Option<set<TypeName>>) {
    && (b.allNamespaces.Some? ==> b.allNamespaces.value == p.scope.Everywhere?)
    && (BringsTypes(b) ==>
          && (b.allTypes == Some(true) <==> PatchTypes(b) == [])
          && AllKnown(PatchTypes(b), known))
  }

  function PatchedRow(p: Policy, b: PatchBody): Policy {
    Policy(
      p.scope,
      if BringsTypes(b) then b.allTypes == Some(true) else p.allTypes,
      if BringsTypes(b) then PatchTypes(b) else p.types,
      if b.required > 0 then b.required else p.required,
      if b.bypass.Some? then b.bypass else p.bypass,
      if b.enabled.Some? then b.enabled.value else p.enabled)
  }

  function PatchAnswer(rows: seq<Policy>, at: nat, b: PatchBody, known: Option<set<TypeName>>): PatchResult {
    if at >= |rows| then NotFound
    else if !PatchAllowed(rows[at], b, known) then PatchRefused
    else Patched(PatchedRow(rows[at], b))
  }

  /** A body that brings only a namespace: its policy asks for one approval of everything, and lets admins past. */
  lemma MinimalBodyProtectsAll(ns: Namespace, required: int)
    requires required <= 0
    ensures var b := Body(None, Some(ns), None, [], required, None, None);
            && WellScoped(b) && Built(b).scope == In(ns) && Built(b).enabled && Built(b).required == 1
            && BypassOf(Built(b)) == [Admin] && forall types :: CoversNamed(Built(b), types)
  {
  }

  /** A patch that brings nothing leaves the row; one that brings all of another policy makes it that policy. */
  lemma PatchNothingPatchAll(p: Policy, q: Policy)
    requires q.scope == p.scope && q.required > 0 && q.bypass.Some?
    ensures PatchedRow(p, PatchBody(None, None, None, 0, None, None)) == p
    ensures PatchedRow(p, PatchBody(None, Some(q.allTypes), Some(q.types), q.required, q.bypass, Some(q.enabled))) == q
  {
  }

  /** One patch over another brings what either brings, the later one first. */
  function Overlaid(a: PatchBody, b: PatchBody): PatchBody {
    PatchBody(
      None,
      if BringsTypes(b) then Some(b.allTypes == Some(true)) else a.allTypes,
      if BringsTypes(b) then Some(PatchTypes(b)) else a.types,
      if b.required > 0 then b.required else a.required,
      if b.bypass.Some? then b.bypass else a.bypass,
      if b.enabled.Some? then b.enabled else a.enabled)
  }

  /** Every field is patched by itself: two patches in turn do what one that brings both does. */
  lemma PatchTwiceIsOverlaid(p: Policy, a: PatchBody, b: PatchBody)
    ensures PatchedRow(PatchedRow(p, a), b) == PatchedRow(p, Overlaid(a, b))
  {
  }

  /** A call, for a row by its place: one past the last is an id that no row has. */
  datatype Call =
    | Creating(body: Body, lookups: Lookups)
    | Patching(at: nat, patch: PatchBody, known: Option<set<TypeName>>)
    | Deleting(at: nat)

  function RowsAfterCall(rows: seq<Policy>, c: Call): seq<Policy> {
    match c
    case Creating(body, lookups) => RowsAfter(rows, body, lookups)
    case Patching(at, patch, known) =>
      if at < |rows| && PatchAllowed(rows[at], patch, known) then rows[at := PatchedRow(rows[at], patch)] else rows
    case Deleting(at) => if at < |rows| then rows[..at] + rows[at + 1..] else rows
  }

  /** The update a patch builds from the row it read; none when it is refused. */
  method ApplyPatch(p: Policy, body: PatchBody, known: Option<set<TypeName>>) returns (r: Option<Policy>)
    ensures r == if PatchAllowed(p, body, known) then Some(PatchedRow(p, body)) else None
  {
    if body.allNamespaces.Some? && body.allNamespaces.value != p.scope.Everywhere? { return None; }
    var required, allTypes, types, bypass, enabled := p.required, p.allTypes, p.types, p.bypass, p.enabled;
    if body.required > 0 {
      required := body.required;
    }
    if body.allTypes.Some? || body.types.Some? {
      allTypes := body.allTypes.Some? && body.allTypes.value;
      types := if body.types.Some? then body.types.value else [];
      var ok := ValidateScope(allTypes, types, known);
      if !ok { return None; }
    }
    if body.bypass.Some? {
      bypass := body.bypass;
    }
    if body.enabled.Some? {
      enabled := body.enabled.value;
    }
    return Some(Policy(p.scope, allTypes, types, required, bypass, enabled));
  }

  lemma ReplacedKeepsScopes(rows: seq<Policy>, at: nat, p: Policy)
    requires OnePerScope(rows) && at < |rows| && p.scope == rows[at].scope
    ensures OnePerScope(rows[at := p])
  {
  }

  class PolicyStore {
    var rows: seq<Policy>

    constructor ()
      ensures rows == []
    {
      rows := [];
    }

    method Create(body: Body, lookups: Lookups) returns (r: CreateResult)
      requires OnePerScope(rows)
      modifies this
      ensures OnePerScope(rows)
      ensures r == CreateAnswer(old(rows), body, lookups)
      ensures rows == RowsAfter(old(rows), body, lookups)
    {
      var allNamespaces := body.allNamespaces.Some? && body.allNamespaces.value;
      if allNamespaces && body.namespace.Some? { return BadRequest; }
      if !allNamespaces && body.namespace.None? { return BadRequest; }
      var allTypes := body.allTypes.None? || body.allTypes.value;
      if |body.types| > 0 && body.allTypes.None? {
        allTypes := false;
      }
      var ok := ValidateScope(allTypes, body.types, lookups.known);
      if !ok { return BadRequest; }
      if !allNamespaces && !lookups.namespaceFound { return BadRequest; }
      var scope := if allNamespaces then Everywhere else In(body.namespace.value);
      var p := Policy(scope, allTypes, body.types, 1, Some([Admin]), true);
      if body.required > 0 {
        p := p.(required := body.required);
      }
      if body.bypass.Some? {
        p := p.(bypass := body.bypass);
      }
      if body.enabled.Some? {
        p := p.(enabled := body.enabled.value);
      }
      if Covers(rows, p.scope) { return Conflict; }
      rows := rows + [p];
      return Created(p);
    }

    method Patch(at: nat, body: PatchBody, known: Option<set<TypeName>>) returns (r: PatchResult)
      requires OnePerScope(rows)
      modifies this
      ensures OnePerScope(rows)
      ensures r == PatchAnswer(old(rows), at, body, known)
      ensures rows == RowsAfterCall(old(rows), Patching(at, body, known))
    {
      if at >= |rows| { return NotFound; }
      var p := ApplyPatch(rows[at], body, known);
      if p.None? { return PatchRefused; }
      ReplacedKeepsScopes(rows, at, p.value);
      rows := rows[at := p.value];
      return Patched(p.value);
    }

    method Delete(at: nat) returns (deleted: bool)
      requires OnePerScope(rows)
      modifies this
      ensures OnePerScope(rows)
      ensures deleted <==> at < |old(rows)|
      ensures rows == RowsAfterCall(old(rows), Deleting(at))
    {
      if at >= |rows| { return false; }
      rows := rows[..at] + rows[at + 1..];
      return true;
    }
  }

  // ---- Resolution ----

  function FirstRow(rows: seq<Policy>, scope: Scope, enabledOnly: bool): Option<Policy> {
    if rows == [] then None
    else if rows[0].scope == scope && (enabledOnly ==> rows[0].enabled) then Some(rows[0])
    else FirstRow(rows[1..], scope, enabledOnly)
  }

  /** The namespace's own row decides, on or off; without one, the enabled global row. */
  function Governing(rows: seq<Policy>, ns: Namespace): Option<Policy> {
    var own := FirstRow(rows, In(ns), false);
    if own.Some? then if own.value.enabled then own else None
    else FirstRow(rows, Everywhere, true)
  }

  /**
    The row that governs a namespace, said of the rows as a collection: an enabled one for
    the namespace itself, or an enabled one for all namespaces where it has no row of its own.
  */
  predicate Governs(rows: seq<Policy>, ns: Namespace, p: Policy) {
    && p in rows && p.enabled
    && (p.scope == In(ns) || (p.scope == Everywhere && forall q | q in rows :: q.scope != In(ns)))
  }

  lemma GoverningIff(rows: seq<Policy>, ns: Namespace)
    requires OnePerScope(rows)
    ensures forall p :: Governing(rows, ns) == Some(p) <==> Governs(rows, ns, p)
    ensures Governing(rows, ns).None? <==> forall p :: !Governs(rows, ns, p)
  {
    FirstRowIsSome(rows, In(ns), false);
    FirstRowIsSome(rows, Everywhere, true);
    forall p
      ensures Governing(rows, ns) == Some(p) <==> Governs(rows, ns, p)
    {
      var own, all := FirstRow(rows, In(ns), false), FirstRow(rows, Everywhere, true);
      if Governs(rows, ns, p) {
        if p.scope == In(ns) {
          RowPerScope(rows, p, own.value);
        } else {
          RowPerScope(rows, p, all.value);
        }
      }
    }
    if Governing(rows, ns).Some? {
      assert Governs(rows, ns, Governing(rows, ns).value);
    }
  }

  /** The policy is about all types or lists one of these; the engine does not count the blank type. */
  predicate CoversNamed(p: Policy, types: seq<TypeName>) {
    p.allTypes || exists t :: t in types && t in p.types && t.Named?
  }

  predicate CoversAny(p: Policy, types: seq<TypeName>) {
    p.allTypes || exists t :: t in types && t in p.types
  }

  lemma GoverningMeans(rows: seq<Policy>, ns: Namespace, types: seq<TypeName>)
    ensures OnePerScope(rows) ==> forall p :: Governing(rows, ns) == Some(p) <==> Governs(rows, ns, p)
    ensures forall p: Policy :: ProtectsChanges(p, types) <==> CoversNamed(p, types)
  {
    if OnePerScope(rows) {
      GoverningIff(rows, ns);
    }
    forall p: Policy
      ensures ProtectsChanges(p, types) <==> CoversNamed(p, types)
    {
      if CoversNamed(p, types) && !p.allTypes {
        var t :| t in types && t in p.types && t.Named?;
        var i :| 0 <= i < |types| && types[i] == t;
      }
    }
  }

  datatype Resolved = Resolved(required: nat, bypass: seq<Role>, found: bool)

  function BypassOf(p: Policy): seq<Role> {
    if p.bypass.Some? then p.bypass.value else []
  }

  predicate Protects(p: Policy, types: seq<TypeName>) {
    p.allTypes || exists i :: 0 <= i < |types| && types[i] in p.types
  }

  predicate ProtectsChanges(p: Policy, types: seq<TypeName>) {
    p.allTypes || exists i :: 0 <= i < |types| && types[i] != Blank && types[i] in p.types
  }

  /** The change-request engine's answer for a changeset of one namespace. */
  method ResolvePolicy(rows: seq<Policy>, ns: Namespace, types: seq<TypeName>) returns (r: Resolved)
    ensures r.found <==> Governing(rows, ns).Some? && ProtectsChanges(Governing(rows, ns).value, types)
    ensures r == if r.found then Resolved(Governing(rows, ns).value.required, BypassOf(Governing(rows, ns).value), true)
                 else Resolved(0, [], false)
    ensures OnePerScope(rows) ==> (r.found <==> exists p :: Governs(rows, ns, p) && CoversNamed(p, types))
    ensures OnePerScope(rows) && r.found ==>
      forall p | Governs(rows, ns, p) ::
        r.required == p.required && r.bypass == (if p.bypass.Some? then p.bypass.value else [])
  {
    GoverningMeans(rows, ns, types);
    var p := Governing(rows, ns);
    if p.None? { return Resolved(0, [], false); }
    var governs := p.value.allTypes;
    var i := 0;
    while !governs && i < |types|
      invariant i <= |types|
      invariant governs <==> p.value.allTypes || exists k ::
        0 <= k < i && types[k] != Blank && types[k] in p.value.types
    {
      governs := types[i] != Blank && types[i] in p.value.types;
      i := i + 1;
    }
    if !governs { return Resolved(0, [], false); }
    return Resolved(p.value.required, if p.value.bypass.Some? then p.value.bypass.value else [], true);
  }

  /** The write gate's answer: the first namespace, in order, whose policy protects one of the types. */
  method MatchingPolicy(rows: seq<Policy>, namespaces: seq<Namespace>, types: seq<TypeName>) returns (r: Option<Policy>)
    ensures r.None? <==> forall k | 0 <= k < |namespaces| :: !Gated(rows, namespaces[k], types)
    ensures r.Some? ==> exists k ::
      && 0 <= k < |namespaces| && Governing(rows, namespaces[k]) == r && Gated(rows, namespaces[k], types)
      && forall j | 0 <= j < k :: !Gated(rows, namespaces[j], types)
    ensures OnePerScope(rows) ==>
      (r.Some? <==> exists ns, p :: ns in namespaces && Governs(rows, ns, p) && CoversAny(p, types))
    ensures OnePerScope(rows) && r.Some? ==>
      CoversAny(r.value, types) && exists ns :: ns in namespaces && Governs(rows, ns, r.value)
  {
    forall ns | OnePerScope(rows)
      ensures Governing(rows, ns).None? <==> forall p :: !Governs(rows, ns, p)
      ensures forall p :: Governing(rows, ns) == Some(p) <==> Governs(rows, ns, p)
    {
      GoverningIff(rows, ns);
    }
    for k := 0 to |namespaces|
      invariant forall j | 0 <= j < k :: !Gated(rows, namespaces[j], types)
    {
      var p := Governing(rows, namespaces[k]);
      if p.Some? {
        var hit := ListHits(p.value, types);
        if hit {
          return p;
        }
      }
    }
    return None;
  }

  predicate Gated(rows: seq<Policy>, ns: Namespace, types: seq<TypeName>) {
    Governing(rows, ns).Some? && Protects(Governing(rows, ns).value, types)
  }

  method ListHits(p: Policy, types: seq<TypeName>) returns (hit: bool)
    ensures hit <==> Protects(p, types)
  {
    hit := p.allTypes;
    var i := 0;
    while !hit && i < |types|
      invariant i <= |types|
      invariant hit <==> p.allTypes || exists k :: 0 <= k < i && types[k] in p.types
    {
      hit := types[i] in p.types;
      i := i + 1;
    }
  }

  // ---- What resolution guarantees ----

  ghost predicate SameRows(a: seq<Policy>, b: seq<Policy>) {
    forall p :: p in a <==> p in b
  }

  lemma {:induction false} FirstRowIsSome(rows: seq<Policy>, scope: Scope, enabledOnly: bool)
    ensures var r := FirstRow(rows, scope, enabledOnly);
            && (r.Some? ==> r.value in rows && r.value.scope == scope && (enabledOnly ==> r.value.enabled))
            && (r.None? ==> forall p | p in rows && p.scope == scope :: enabledOnly && !p.enabled)
  {
    if rows != [] {
      FirstRowIsSome(rows[1..], scope, enabledOnly);
    }
  }

  lemma RowPerScope(rows: seq<Policy>, p: Policy, q: Policy)
    requires OnePerScope(rows) && p in rows && q in rows && p.scope == q.scope
    ensures p == q
  {
    var i :| 0 <= i < |rows| && rows[i] == p;
    var j :| 0 <= j < |rows| && rows[j] == q;
    assert i == j;
  }

  lemma FirstRowOrderless(a: seq<Policy>, b: seq<Policy>, scope: Scope, enabledOnly: bool)
    requires OnePerScope(a) && SameRows(a, b)
    ensures FirstRow(a, scope, enabledOnly) == FirstRow(b, scope, enabledOnly)
  {
    FirstRowIsSome(a, scope, enabledOnly);
    FirstRowIsSome(b, scope, enabledOnly);
    var p, q := FirstRow(a, scope, enabledOnly), FirstRow(b, scope, enabledOnly);
    if p.Some? && q.Some? {
      RowPerScope(a, p.value, q.value);
    }
  }

  /** With one policy per namespace, the answer does not depend on the order rows come back in. */
  lemma ResolutionIsOrderless(a: seq<Policy>, b: seq<Policy>, ns: Namespace)
    requires OnePerScope(a) && SameRows(a, b)
    ensures Governing(a, ns) == Governing(b, ns)
  {
    FirstRowOrderless(a, b, In(ns), false);
    FirstRowOrderless(a, b, Everywhere, true);
  }

  /** A namespace's own policy, disabled or weaker, decides alone: any other row can be anything, or gone. */
  lemma OwnPolicyShadows(rows: seq<Policy>, others: seq<Policy>, p: Policy, ns: Namespace)
    requires OnePerScope(rows) && p in rows && p.scope == In(ns)
    requires OnePerScope(others) && p in others
    ensures Governing(rows, ns) == Governing(others, ns) == if p.enabled then Some(p) else None
  {
    FirstRowIsSome(rows, In(ns), false);
    FirstRowIsSome(others, In(ns), false);
    var a, b := FirstRow(rows, In(ns), false), FirstRow(others, In(ns), false);
    RowPerScope(rows, p, a.value);
    RowPerScope(others, p, b.value);
  }

  /**
    The gate and the engine agree on whether a change in one namespace is governed, for
    every change, exactly when the policy that governs the namespace does not list the blank
    type, which the engine skips and the gate does not.
  */
  lemma GateAgreesWithEngineIff(rows: seq<Policy>, ns: Namespace)
    ensures (forall types: seq<TypeName> ::
              (Gated(rows, ns, types)
               <==> Governing(rows, ns).Some? && ProtectsChanges(Governing(rows, ns).value, types)))
       <==> (var p := Governing(rows, ns); p.None? || p.value.allTypes || Blank !in p.value.types)
  {
    var p := Governing(rows, ns);
    if p.Some? && !p.value.allTypes && Blank in p.value.types {
      var types := [Blank];
      assert types[0] in p.value.types;
      assert Gated(rows, ns, types) && !ProtectsChanges(p.value, types);
    } else if p.Some? {
      forall types: seq<TypeName>
        ensures Protects(p.value, types) <==> ProtectsChanges(p.value, types)
      {
      }
    }
  }

  function StoreAfter(calls: seq<Call>): seq<Policy> {
    if calls == [] then [] else RowsAfterCall(StoreAfter(calls[..|calls| - 1]), calls[|calls| - 1])
  }

  predicate ListsBlank(rows: seq<Policy>) {
    exists i :: 0 <= i < |rows| && Blank in rows[i].types
  }

  /**
    One create puts the blank type into a row exactly when it is accepted, names it, and the
    schema could not be read.
  */
  lemma BlankReachesARowIff(rows: seq<Policy>, b: Body, lookups: Lookups)
    requires lookups.known.Some? ==> Blank !in lookups.known.value
    ensures ListsBlank(RowsAfter(rows, b, lookups))
       <==> ListsBlank(rows) || (CreateAnswer(rows, b, lookups).Created? && lookups.known.None? && Blank in b.types)
  {
    var after := RowsAfter(rows, b, lookups);
    if ListsBlank(rows) {
      var i :| 0 <= i < |rows| && Blank in rows[i].types;
      assert after[i] == rows[i];
    }
    if CreateAnswer(rows, b, lookups).Created? {
      assert after[|rows|] == Built(b);
    }
  }

  /**
    Patching a row leaves the blank type in it exactly when it brings it unchecked, or brings
    no types to a row that has it.
  */
  lemma BlankSurvivesAPatchIff(rows: seq<Policy>, at: nat, b: PatchBody, known: Option<set<TypeName>>)
    requires at < |rows| && PatchAllowed(rows[at], b, known) && (known.Some? ==> Blank !in known.value)
    ensures Blank in RowsAfterCall(rows, Patching(at, b, known))[at].types
       <==> if BringsTypes(b) then known.None? && Blank in PatchTypes(b) else Blank in rows[at].types
  {
  }

  /** The schema that a call checks type names against; a delete checks none. */
  function KnownTo(c: Call): Option<set<TypeName>> {
    match c
    case Creating(_, lookups) => lookups.known
    case Patching(_, _, known) => known
    case Deleting(_) => Some({})
  }

  lemma NoBlankAfterCall(rows: seq<Policy>, c: Call)
    requires !ListsBlank(rows) && KnownTo(c).Some? && Blank !in KnownTo(c).value
    ensures !ListsBlank(RowsAfterCall(rows, c))
  {
    match c
    case Creating(body, lookups) => BlankReachesARowIff(rows, body, lookups);
    case Patching(at, patch, known) =>
      if at < |rows| && PatchAllowed(rows[at], patch, known) {
        BlankSurvivesAPatchIff(rows, at, patch, known);
        forall i | 0 <= i < |rows|
          ensures Blank !in RowsAfterCall(rows, c)[i].types
        {
        }
      }
    case Deleting(at) =>
      var after := RowsAfterCall(rows, c);
      forall i | 0 <= i < |after|
        ensures Blank !in after[i].types
      {
        assert at < |rows| ==> after[i] == rows[if i < at then i else i + 1];
      }
  }

  /**
    After any creates, patches and deletes that could all read the schema, the gate and the
    engine agree on every change in every namespace.
  */
  lemma {:induction false} ReadableSchemaKeepsAgreement(calls: seq<Call>)
    requires forall i | 0 <= i < |calls| :: KnownTo(calls[i]).Some? && Blank !in KnownTo(calls[i]).value
    ensures !ListsBlank(StoreAfter(calls))
    ensures forall ns: Namespace, types: seq<TypeName> ::
      Gated(StoreAfter(calls), ns, types)
      <==> Governing(StoreAfter(calls), ns).Some? && ProtectsChanges(Governing(StoreAfter(calls), ns).value, types)
  {
    var rows := StoreAfter(calls);
    if calls != [] {
      var n := |calls| - 1;
      assert forall i | 0 <= i < n :: calls[..n][i] == calls[i];
      ReadableSchemaKeepsAgreement(calls[..n]);
      NoBlankAfterCall(StoreAfter(calls[..n]), calls[n]);
    }
    forall ns: Namespace, types: seq<TypeName>
      ensures Gated(rows, ns, types) <==> Governing(rows, ns).Some? && ProtectsChanges(Governing(rows, ns).value, types)
    {
      FirstRowIsSome(rows, In(ns), false);
      FirstRowIsSome(rows, Everywhere, true);
      GateAgreesWithEngineIff(rows, ns);
    }
  }

  /**
    Which bodies are refused before the table is looked at; a body that is not conflicts
    exactly with a row of its scope.
  */
  lemma CreateRefusesIff(rows: seq<Policy>, b: Body, lookups: Lookups)
    ensures var global := b.allNamespaces == Some(true);
            var all := b.allTypes == Some(true) || (b.allTypes == None && |b.types| == 0);
            var answer := CreateAnswer(rows, b, lookups);
            && (answer.BadRequest?
                <==> (|| (global && b.namespace.Some?) || (!global && b.namespace.None?)
                      || (all && |b.types| > 0) || (!all && |b.types| == 0)
                      || (lookups.known.Some? && exists t :: t in b.types && t !in lookups.known.value)
                      || (!global && !lookups.namespaceFound)))
            && (answer.Conflict?
                <==> !answer.BadRequest?
                     && exists p :: p in rows
                          && (if global then p.scope == Everywhere else p.scope == In(b.namespace.value)))
  {
    if Covers(rows, if WellScoped(b) then Built(b).scope else Everywhere) {
      var scope := if WellScoped(b) then Built(b).scope else Everywhere;
      var i :| 0 <= i < |rows| && rows[i].scope == scope;
      assert rows[i] in rows;
    }
  }

  /** Which patches are refused: another scope, types that contradict each other, or unknown ones. */
  lemma PatchRefusesIff(rows: seq<Policy>, at: nat, b: PatchBody, known: Option<set<TypeName>>)
    requires at < |rows|
    ensures var all := b.allTypes == Some(true);
            var some := b.types.Some? && |b.types.value| > 0;
            PatchAnswer(rows, at, b, known).PatchRefused?
            <==> (|| (b.allNamespaces == Some(true) && rows[at].scope != Everywhere)
                  || (b.allNamespaces == Some(false) && rows[at].scope == Everywhere)
                  || ((b.allTypes.Some? || b.types.Some?)
                      && (|| all == some
                          || (some && known.Some? && exists t :: t in b.types.value && t !in known.value))))
  {
  }

  /** The rows are the store's: a script of calls on an empty one ends with exactly these. */
  method ExecuteCalls(calls: seq<Call>) returns (store: PolicyStore)
    ensures store.rows == StoreAfter(calls) && OnePerScope(store.rows)
  {
    store := new PolicyStore();
    for i := 0 to |calls|
      invariant store.rows == StoreAfter(calls[..i]) && OnePerScope(store.rows)
    {
      assert calls[..i + 1][..i] == calls[..i];
      match calls[i]
      case Creating(body, lookups) => var _ := store.Create(body, lookups);
      case Patching(at, patch, known) => var _ := store.Patch(at, patch, known);
      case Deleting(at) => var _ := store.Delete(at);
    }
    assert calls[..|calls|] == calls;
  }

  /** What every row says of its types, its count and its roles. */
  predicate WellFormed(p: Policy) {
    (p.allTypes <==> p.types == []) && p.required >= 1 && p.bypass.Some?
  }

  /** After any calls whatever: one row per scope, and each of them well formed. */
  lemma {:induction false} StoredRowsAreWellFormed(calls: seq<Call>)
    ensures OnePerScope(StoreAfter(calls))
    ensures forall i | 0 <= i < |StoreAfter(calls)| :: WellFormed(StoreAfter(calls)[i])
  {
    if calls != [] {
      StoredRowsAreWellFormed(calls[..|calls| - 1]);
      var rows := StoreAfter(calls[..|calls| - 1]);
      match calls[|calls| - 1]
      case Creating(body, lookups) => CreateKeeps(rows, body, lookups);
      case Patching(at, patch, known) => PatchKeeps(rows, at, patch, known);
      case Deleting(at) => DeleteKeeps(rows, at);
    }
  }

  ghost predicate WellKept(rows: seq<Policy>) {
    OnePerScope(rows) && forall i | 0 <= i < |rows| :: WellFormed(rows[i])
  }

  lemma CreateKeeps(rows: seq<Policy>, b: Body, lookups: Lookups)
    requires WellKept(rows)
    ensures WellKept(RowsAfter(rows, b, lookups))
  {
  }

  lemma PatchKeeps(rows: seq<Policy>, at: nat, b: PatchBody, known: Option<set<TypeName>>)
    requires WellKept(rows)
    ensures WellKept(RowsAfterCall(rows, Patching(at, b, known)))
  {
    if at < |rows| && PatchAllowed(rows[at], b, known) {
      assert WellFormed(PatchedRow(rows[at], b)) by {
        assert WellFormed(rows[at]);
      }
      assert PatchedRow(rows[at], b).scope == rows[at].scope;
    }
  }

  lemma DeleteKeeps(rows: seq<Policy>, at: nat)
    requires WellKept(rows)
    ensures WellKept(RowsAfterCall(rows, Deleting(at)))
  {
    var after := RowsAfterCall(rows, Deleting(at));
    if at < |rows| {
      assert forall i | 0 <= i < |after| :: after[i] == rows[if i < at then i else i + 1];
    }
  }

  // ---- Bypass roles through their column ----

  /** How a list of roles is written to and read from its JSON column. */
  datatype RolesCodec = RolesCodec(encode: seq<Role> -> seq<bv8>, decode: seq<bv8> -> Option<seq<Role>>)

  ghost predicate Lossless(codec: RolesCodec) {
    forall roles :: codec.encode(roles) != [] && codec.decode(codec.encode(roles)) == Some(roles)
  }

  function Column(codec: RolesCodec, p: Policy): seq<bv8> {
    if p.bypass.Some? then codec.encode(p.bypass.value) else []
  }

  /** The row as it is read back: an empty column leaves the roles nil. */
  function Loaded(codec: RolesCodec, p: Policy): Policy {
    p.(bypass := if Column(codec, p) == [] then None else codec.decode(Column(codec, p)))
  }

  /** Omitted and empty bypass roles stay apart all the way from the body through the column to the resolved policy. */
  lemma BypassRolesSurvive(codec: RolesCodec, rows: seq<Policy>, b: Body, ns: Namespace)
    requires Lossless(codec)
    requires WellScoped(b) && OnePerScope(rows) && Loaded(codec, Built(b)) in rows
    requires Built(b).scope == In(ns) && Built(b).enabled
    ensures Governing(rows, ns).Some?
    ensures BypassOf(Governing(rows, ns).value) == if b.bypass.None? then [Admin] else b.bypass.value
  {
    OwnPolicyShadows(rows, rows, Loaded(codec, Built(b)), ns);
    var roles := Built(b).bypass.value;
    assert codec.decode(codec.encode(roles)) == Some(roles);
  }

  // ---- Listing a policy and posting it again ----

  /** What the API shows of a row: absent bypass roles read as none. */
  function Rendered(p: Policy): Policy {
    p.(bypass := Some(BypassOf(p)))
  }

  /** The body a restore sends for a listed policy. */
  function PostBody(p: Policy): Body {
    Body(if p.scope.Everywhere? then Some(true) else None,
         if p.scope.Everywhere? then None else Some(p.scope.ns),
         Some(p.allTypes), p.types, p.required, Some(BypassOf(p)), Some(p.enabled))
  }

  /** Posting what was listed stores a policy that lists the same, for every row the constraints allow. */
  lemma ListThenPost(p: Policy)
    requires (p.allTypes <==> p.types == []) && p.required >= 1
    ensures WellScoped(PostBody(Rendered(p)))
    ensures Rendered(Built(PostBody(Rendered(p)))) == Rendered(p)
  {
  }
}
