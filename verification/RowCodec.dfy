/**
  Writing a change-request row and reading it back: which cells an insert sends, which
  holders a read prepares, and how holders become fields again.

  JSON, text and time encodings are abstract; a JSON codec is taken to be lossless. A
  column an insert does not send is null.
*/
module RowCodec {
  import opened Common

  type Text(==, 0, !new)
  type Time(==, 0, !new)
  type Json(==, !new)
  type Bytes = seq<bv8>

  datatype Column =
    | Id | CreatedAt | CreatedBy | UpdatedAt | UpdatedBy | Namespace | Number | ActionType
    | Title | Description | Status | Author | BaseHash | ChangesetRevision | BaseVersions
    | BasePresent | BaseEffect | BaseValues | BaseScope | Payload | ExecutedAt | ExecutedBy
    | Unlisted(name: string)

  /** What the setters were called with. A JSON setter may be given nil. */
  datatype Mutation = Mutation(
    id: Option<int>, createdAt: Option<Time>, createdBy: Option<Text>, updatedAt: Option<Time>,
    updatedBy: Option<Text>, namespace: Option<Text>, number: Option<int>, actionType: Option<Text>,
    title: Option<Text>, description: Option<Text>, status: Option<Text>, author: Option<Text>,
    baseHash: Option<Text>, changesetRevision: Option<int>, baseVersions: Option<Option<Json>>,
    basePresent: Option<Option<Json>>, baseEffect: Option<Option<Json>>, baseValues: Option<Option<Json>>,
    baseScope: Option<Option<Json>>, payload: Option<Option<Json>>, executedAt: Option<Time>,
    executedBy: Option<Text>)

  datatype Kind = Ints | Texts | Times | Blobs | Unknown

  datatype Value = IntV(i: int) | TextV(t: Text) | TimeV(at: Time) | PointerV(p: Option<Time>) | JsonV(j: Option<Json>)

  datatype Cell = Null | IntCell(i: int) | TextCell(t: Text) | TimeCell(at: Time) | BlobCell(b: Bytes)

  /** A scan destination after the driver filled it. */
  datatype Holder =
    | IntHolder(valid: bool, i: int)
    | TextHolder(valid: bool, t: Text)
    | TimeHolder(valid: bool, at: Time)
    | BlobHolder(b: Bytes)
    | AnyHolder(cell: Cell)

  /** `none` is the document a nil value encodes as. */
  datatype Codec = Codec(encode: Json -> Bytes, decode: Bytes -> Option<Json>, none: Json)

  ghost predicate Lossless(codec: Codec) {
    forall j :: codec.encode(j) != [] && codec.decode(codec.encode(j)) == Some(j)
  }

  /** The raw document fields: decoding the nil document into one leaves the document, not nil. */
  predicate Raw(c: Column) {
    c.BaseEffect? || c.Payload?
  }

  // ---- Columns and fields ----

  /** A field's zero value. */
  function Zero(c: Column, text: Text, time: Time): Value
    requires !c.Unlisted?
  {
    match c
    case Id | Number | ChangesetRevision => IntV(0)
    case CreatedAt => TimeV(time)
    case UpdatedAt | ExecutedAt => PointerV(None)
    case BaseVersions | BasePresent | BaseEffect | BaseValues | BaseScope | Payload => JsonV(None)
    case _ => TextV(text)
  }

  /** The value a column's setter was called with, if it was. */
  function SetTo(m: Mutation, c: Column): Option<Value>
    requires !c.Unlisted?
  {
    match c
    case Id => if m.id.Some? then Some(IntV(m.id.value)) else None
    case CreatedAt => if m.createdAt.Some? then Some(TimeV(m.createdAt.value)) else None
    case CreatedBy => if m.createdBy.Some? then Some(TextV(m.createdBy.value)) else None
    case UpdatedAt => if m.updatedAt.Some? then Some(PointerV(m.updatedAt)) else None
    case UpdatedBy => if m.updatedBy.Some? then Some(TextV(m.updatedBy.value)) else None
    case Namespace => if m.namespace.Some? then Some(TextV(m.namespace.value)) else None
    case Number => if m.number.Some? then Some(IntV(m.number.value)) else None
    case ActionType => if m.actionType.Some? then Some(TextV(m.actionType.value)) else None
    case Title => if m.title.Some? then Some(TextV(m.title.value)) else None
    case Description => if m.description.Some? then Some(TextV(m.description.value)) else None
    case Status => if m.status.Some? then Some(TextV(m.status.value)) else None
    case Author => if m.author.Some? then Some(TextV(m.author.value)) else None
    case BaseHash => if m.baseHash.Some? then Some(TextV(m.baseHash.value)) else None
    case ChangesetRevision => if m.changesetRevision.Some? then Some(IntV(m.changesetRevision.value)) else None
    case BaseVersions => if m.baseVersions.Some? then Some(JsonV(m.baseVersions.value)) else None
    case BasePresent => if m.basePresent.Some? then Some(JsonV(m.basePresent.value)) else None
    case BaseEffect => if m.baseEffect.Some? then Some(JsonV(m.baseEffect.value)) else None
    case BaseValues => if m.baseValues.Some? then Some(JsonV(m.baseValues.value)) else None
    case BaseScope => if m.baseScope.Some? then Some(JsonV(m.baseScope.value)) else None
    case Payload => if m.payload.Some? then Some(JsonV(m.payload.value)) else None
    case ExecutedAt => if m.executedAt.Some? then Some(PointerV(m.executedAt)) else None
    case ExecutedBy => if m.executedBy.Some? then Some(TextV(m.executedBy.value)) else None
  }

  /** Typed JSON fields never hold the nil document itself. */
  predicate ValidMutation(codec: Codec, m: Mutation) {
    && m.baseVersions != Some(Some(codec.none)) && m.basePresent != Some(Some(codec.none))
    && m.baseValues != Some(Some(codec.none)) && m.baseScope != Some(Some(codec.none))
  }

  type Spec = map<Column, Cell>

  // ---- Reading ----

  /** The destination `scanValues` allocates. */
  function ScanKind(c: Column): Kind {
    match c
    case BaseVersions | BasePresent | BaseEffect | BaseValues | BaseScope | Payload => Blobs
    case Id | Number | ChangesetRevision => Ints
    case CreatedBy | UpdatedBy | Namespace | ActionType | Title | Description | Status | Author => Texts
    case BaseHash | ExecutedBy => Texts
    case CreatedAt | UpdatedAt | ExecutedAt => Times
    case Unlisted(_) => Unknown
  }

  /** Whether `assignValues` accepts this destination for the column. */
  predicate Accepts(c: Column, h: Holder) {
    match c
    case Id => h.IntHolder?
    case CreatedAt => h.TimeHolder?
    case CreatedBy => h.TextHolder?
    case UpdatedAt => h.TimeHolder?
    case UpdatedBy => h.TextHolder?
    case Namespace => h.TextHolder?
    case Number => h.IntHolder?
    case ActionType => h.TextHolder?
    case Title => h.TextHolder?
    case Description => h.TextHolder?
    case Status => h.TextHolder?
    case Author => h.TextHolder?
    case BaseHash => h.TextHolder?
    case ChangesetRevision => h.IntHolder?
    case BaseVersions => h.BlobHolder?
    case BasePresent => h.BlobHolder?
    case BaseEffect => h.BlobHolder?
    case BaseValues => h.BlobHolder?
    case BaseScope => h.BlobHolder?
    case Payload => h.BlobHolder?
    case ExecutedAt => h.TimeHolder?
    case ExecutedBy => h.TextHolder?
    case Unlisted(_) => true
  }

  function CellOf(spec: Spec, c: Column): Cell {
    if c in spec then spec[c] else Null
  }

  /** What the driver leaves in the destination for a cell; a cell of another type would be a driver error. */
  function Scanned(kind: Kind, cell: Cell, text: Text, time: Time): Holder {
    match kind
    case Ints => if cell.IntCell? then IntHolder(true, cell.i) else IntHolder(false, 0)
    case Texts => if cell.TextCell? then TextHolder(true, cell.t) else TextHolder(false, text)
    case Times => if cell.TimeCell? then TimeHolder(true, cell.at) else TimeHolder(false, time)
    case Blobs => if cell.BlobCell? then BlobHolder(cell.b) else BlobHolder([])
    case Unknown => AnyHolder(cell)
  }

  method ScanValues(columns: seq<Column>, spec: Spec, text: Text, time: Time) returns (values: seq<Holder>)
    ensures |values| == |columns|
    ensures forall i | 0 <= i < |columns| ::
      values[i] == Scanned(ScanKind(columns[i]), CellOf(spec, columns[i]), text, time)
  {
    values := [];
    for i := 0 to |columns|
      invariant |values| == i
      invariant forall k | 0 <= k < i ::
        values[k] == Scanned(ScanKind(columns[k]), CellOf(spec, columns[k]), text, time)
    {
      values := values + [Scanned(ScanKind(columns[i]), CellOf(spec, columns[i]), text, time)];
    }
  }

  datatype ReadError = TooFewValues | WrongHolder(at: nat) | BadJson(at: nat)

  predicate Decodes(codec: Codec, h: Holder) {
    h.BlobHolder? && h.b != [] ==> codec.decode(h.b).Some?
  }

  /** A decoded document: nil for the nil document unless the field is raw. */
  function Decoded(codec: Codec, c: Column, j: Option<Json>): Option<Json> {
    if j == Some(codec.none) && !Raw(c) then None else j
  }

  /** A field's value after its column was assigned. The id is taken even from an invalid holder. */
  function Held(codec: Codec, c: Column, v: Value, h: Holder): Value
    requires Accepts(c, h) && !c.Unlisted?
  {
    if h.IntHolder? then if h.valid || c.Id? then IntV(h.i) else v
    else if h.TextHolder? then if h.valid then TextV(h.t) else v
    else if h.TimeHolder? then if !h.valid then v else if c.CreatedAt? then TimeV(h.at) else PointerV(Some(h.at))
    else if h.b == [] then v
    else JsonV(Decoded(codec, c, codec.decode(h.b)))
  }

  /** A field's value after all the columns were assigned, in order. */
  function After(codec: Codec, c: Column, v: Value, columns: seq<Column>, values: seq<Holder>): Value
    requires |columns| <= |values| && !c.Unlisted?
    requires forall i | 0 <= i < |columns| :: Accepts(columns[i], values[i])
  {
    if columns == [] then v
    else
      var n := |columns| - 1;
      var before := After(codec, c, v, columns[..n], values);
      if columns[n] == c then Held(codec, c, before, values[n]) else before
  }

  /** The record. A nullable time is absent when nil, and so is a JSON field. */
  class ChangeRequest {
    var id: int
    var createdAt: Time
    var createdBy: Text
    var updatedAt: Option<Time>
    var updatedBy: Text
    var namespace: Text
    var number: int
    var actionType: Text
    var title: Text
    var description: Text
    var status: Text
    var author: Text
    var baseHash: Text
    var changesetRevision: int
    var baseVersions: Option<Json>
    var basePresent: Option<Json>
    var baseEffect: Option<Json>
    var baseValues: Option<Json>
    var baseScope: Option<Json>
    var payload: Option<Json>
    var executedAt: Option<Time>
    var executedBy: Text

    constructor (text: Text, time: Time)
      ensures forall c: Column | !c.Unlisted? :: Get(c) == Zero(c, text, time)
    {
      id := 0;
      createdAt := time;
      createdBy := text;
      updatedAt := None;
      updatedBy := text;
      namespace := text;
      number := 0;
      actionType := text;
      title := text;
      description := text;
      status := text;
      author := text;
      baseHash := text;
      changesetRevision := 0;
      baseVersions := None;
      basePresent := None;
      baseEffect := None;
      baseValues := None;
      baseScope := None;
      payload := None;
      executedAt := None;
      executedBy := text;
    }

    function Get(c: Column): Value
      requires !c.Unlisted?
      reads this
    {
      match c
      case Id => IntV(id)
      case CreatedAt => TimeV(createdAt)
      case CreatedBy => TextV(createdBy)
      case UpdatedAt => PointerV(updatedAt)
      case UpdatedBy => TextV(updatedBy)
      case Namespace => TextV(namespace)
      case Number => IntV(number)
      case ActionType => TextV(actionType)
      case Title => TextV(title)
      case Description => TextV(description)
      case Status => TextV(status)
      case Author => TextV(author)
      case BaseHash => TextV(baseHash)
      case ChangesetRevision => IntV(changesetRevision)
      case BaseVersions => JsonV(baseVersions)
      case BasePresent => JsonV(basePresent)
      case BaseEffect => JsonV(baseEffect)
      case BaseValues => JsonV(baseValues)
      case BaseScope => JsonV(baseScope)
      case Payload => JsonV(payload)
      case ExecutedAt => PointerV(executedAt)
      case ExecutedBy => TextV(executedBy)
    }

    /** One case of the switch: the column's own field, and no other. */
    method AssignOne(codec: Codec, c: Column, h: Holder)
      requires Accepts(c, h) && Decodes(codec, h)
      modifies this
      ensures forall d: Column | !d.Unlisted? ::
        Get(d) == if d == c then Held(codec, c, old(Get(c)), h) else old(Get(d))
    {
      match c
      case Id => id := h.i;
      case CreatedAt => if h.valid { createdAt := h.at; }
      case CreatedBy => if h.valid { createdBy := h.t; }
      case UpdatedAt => if h.valid { updatedAt := Some(h.at); }
      case UpdatedBy => if h.valid { updatedBy := h.t; }
      case Namespace => if h.valid { namespace := h.t; }
      case Number => if h.valid { number := h.i; }
      case ActionType => if h.valid { actionType := h.t; }
      case Title => if h.valid { title := h.t; }
      case Description => if h.valid { description := h.t; }
      case Status => if h.valid { status := h.t; }
      case Author => if h.valid { author := h.t; }
      case BaseHash => if h.valid { baseHash := h.t; }
      case ChangesetRevision => if h.valid { changesetRevision := h.i; }
      case ExecutedAt => if h.valid { executedAt := Some(h.at); }
      case ExecutedBy => if h.valid { executedBy := h.t; }
      case Unlisted(_) =>
      case _ => AssignDocument(codec, c, h);
    }

    method AssignDocument(codec: Codec, c: Column, h: Holder)
      requires ScanKind(c) == Blobs && h.BlobHolder? && Decodes(codec, h)
      modifies this
      ensures forall d: Column | !d.Unlisted? ::
        Get(d) == if d == c then Held(codec, c, old(Get(c)), h) else old(Get(d))
    {
      if h.b == [] {
        return;
      }
      var document := Decoded(codec, c, codec.decode(h.b));
      match c
      case BaseVersions => baseVersions := document;
      case BasePresent => basePresent := document;
      case BaseEffect => baseEffect := document;
      case BaseValues => baseValues := document;
      case BaseScope => baseScope := document;
      case Payload => payload := document;
    }

    /** It fails exactly on too few values, or at the first column whose holder or document is wrong. */
    method AssignValues(codec: Codec, columns: seq<Column>, values: seq<Holder>) returns (error: Option<ReadError>)
      modifies this
      ensures error == Some(TooFewValues) <==> |values| < |columns|
      ensures error.None? <==>
        |columns| <= |values| && forall i | 0 <= i < |columns| ::
          Accepts(columns[i], values[i]) && Decodes(codec, values[i])
      ensures error.None? ==>
        forall c: Column | !c.Unlisted? :: Get(c) == After(codec, c, old(Get(c)), columns, values)
    {
      if |values| < |columns| {
        return Some(TooFewValues);
      }
      for i := 0 to |columns|
        invariant forall k | 0 <= k < i :: Accepts(columns[k], values[k]) && Decodes(codec, values[k])
        invariant forall c: Column | !c.Unlisted? :: Get(c) == After(codec, c, old(Get(c)), columns[..i], values)
      {
        if !Accepts(columns[i], values[i]) {
          return Some(WrongHolder(i));
        }
        if !Decodes(codec, values[i]) {
          return Some(BadJson(i));
        }
        assert columns[..i + 1][..i] == columns[..i];
        AssignOne(codec, columns[i], values[i]);
      }
      assert columns[..|columns|] == columns;
      return None;
    }
  }

  // ---- Writing ----

  function Encoded(codec: Codec, j: Option<Json>): Cell {
    BlobCell(codec.encode(if j.Some? then j.value else codec.none))
  }

  function Sent(codec: Codec, v: Value): Cell {
    match v
    case IntV(i) => IntCell(i)
    case TextV(t) => TextCell(t)
    case TimeV(at) => TimeCell(at)
    case PointerV(p) => if p.Some? then TimeCell(p.value) else Null
    case JsonV(j) => Encoded(codec, j)
  }

  /** What a column's block sends and leaves on the node, given what was there before. */
  predicate Filled(codec: Codec, m: Mutation, c: Column, cell: Option<Cell>, v: Value, before: Value)
    requires !c.Unlisted?
  {
    if SetTo(m, c).Some? then cell == Some(Sent(codec, SetTo(m, c).value)) && v == SetTo(m, c).value
    else cell == None && v == before
  }

  function CellAt(spec: Spec, c: Column): Option<Cell> {
    if c in spec then Some(spec[c]) else None
  }

  /** Which of the methods below holds a column's block. */
  function Part(c: Column): nat {
    match c
    case Id | CreatedAt | CreatedBy => 0
    case UpdatedAt | UpdatedBy => 1
    case Namespace | Number | ActionType => 2
    case Title | Description => 3
    case Status | Author => 4
    case BaseHash | ChangesetRevision => 5
    case BaseVersions | BasePresent => 6
    case BaseEffect | BaseValues => 7
    case BaseScope | Payload => 8
    case ExecutedAt | ExecutedBy => 9
    case Unlisted(_) => 10
  }

  /** Nothing is sent yet for the columns of this part and the later ones. */
  ghost predicate Untouched(spec: Spec, part: nat) {
    forall c: Column | Part(c) >= part :: CellAt(spec, c) == None
  }

  // Each part below fills its own columns, and keeps the other fields and the cells already sent.

  method FillCreation(codec: Codec, m: Mutation, node: ChangeRequest, spec0: Spec) returns (spec: Spec)
    requires Untouched(spec0, 0)
    modifies node`id, node`createdAt, node`createdBy
    ensures Untouched(spec, 1)
    ensures forall c: Column | !c.Unlisted? && Part(c) == 0 ::
      Filled(codec, m, c, CellAt(spec, c), node.Get(c), old(node.Get(c)))
    ensures forall c: Column | !c.Unlisted? && Part(c) != 0 :: node.Get(c) == old(node.Get(c))
  {
    spec := spec0;
    if m.id.Some? {
      spec := spec[Id := IntCell(m.id.value)];
      node.id := m.id.value;
    }
    if m.createdAt.Some? {
      spec := spec[CreatedAt := TimeCell(m.createdAt.value)];
      node.createdAt := m.createdAt.value;
    }
    if m.createdBy.Some? {
      spec := spec[CreatedBy := TextCell(m.createdBy.value)];
      node.createdBy := m.createdBy.value;
    }
  }

  method FillUpdate(codec: Codec, m: Mutation, node: ChangeRequest, spec0: Spec) returns (spec: Spec)
    requires Untouched(spec0, 1)
    modifies node`updatedAt, node`updatedBy
    ensures Untouched(spec, 2)
    ensures forall c: Column | !c.Unlisted? && Part(c) == 1 ::
      Filled(codec, m, c, CellAt(spec, c), node.Get(c), old(node.Get(c)))
    ensures forall c: Column | !c.Unlisted? && Part(c) != 1 :: node.Get(c) == old(node.Get(c))
    ensures forall c: Column | Part(c) < 1 :: CellAt(spec, c) == CellAt(spec0, c)
  {
    spec := spec0;
    if m.updatedAt.Some? {
      spec := spec[UpdatedAt := TimeCell(m.updatedAt.value)];
      node.updatedAt := Some(m.updatedAt.value);
    }
    if m.updatedBy.Some? {
      spec := spec[UpdatedBy := TextCell(m.updatedBy.value)];
      node.updatedBy := m.updatedBy.value;
    }
  }

  method FillHeading(codec: Codec, m: Mutation, node: ChangeRequest, spec0: Spec) returns (spec: Spec)
    requires Untouched(spec0, 2)
    modifies node`namespace, node`number, node`actionType
    ensures Untouched(spec, 3)
    ensures forall c: Column | !c.Unlisted? && Part(c) == 2 ::
      Filled(codec, m, c, CellAt(spec, c), node.Get(c), old(node.Get(c)))
    ensures forall c: Column | !c.Unlisted? && Part(c) != 2 :: node.Get(c) == old(node.Get(c))
    ensures forall c: Column | Part(c) < 2 :: CellAt(spec, c) == CellAt(spec0, c)
  {
    spec := spec0;
    if m.namespace.Some? {
      spec := spec[Namespace := TextCell(m.namespace.value)];
      node.namespace := m.namespace.value;
    }
    if m.number.Some? {
      spec := spec[Number := IntCell(m.number.value)];
      node.number := m.number.value;
    }
    if m.actionType.Some? {
      spec := spec[ActionType := TextCell(m.actionType.value)];
      node.actionType := m.actionType.value;
    }
  }

  method FillText(codec: Codec, m: Mutation, node: ChangeRequest, spec0: Spec) returns (spec: Spec)
    requires Untouched(spec0, 3)
    modifies node`title, node`description
    ensures Untouched(spec, 4)
    ensures forall c: Column | !c.Unlisted? && Part(c) == 3 ::
      Filled(codec, m, c, CellAt(spec, c), node.Get(c), old(node.Get(c)))
    ensures forall c: Column | !c.Unlisted? && Part(c) != 3 :: node.Get(c) == old(node.Get(c))
    ensures forall c: Column | Part(c) < 3 :: CellAt(spec, c) == CellAt(spec0, c)
  {
    spec := spec0;
    if m.title.Some? {
      spec := spec[Title := TextCell(m.title.value)];
      node.title := m.title.value;
    }
    if m.description.Some? {
      spec := spec[Description := TextCell(m.description.value)];
      node.description := m.description.value;
    }
  }

  method FillState(codec: Codec, m: Mutation, node: ChangeRequest, spec0: Spec) returns (spec: Spec)
    requires Untouched(spec0, 4)
    modifies node`status, node`author
    ensures Untouched(spec, 5)
    ensures forall c: Column | !c.Unlisted? && Part(c) == 4 ::
      Filled(codec, m, c, CellAt(spec, c), node.Get(c), old(node.Get(c)))
    ensures forall c: Column | !c.Unlisted? && Part(c) != 4 :: node.Get(c) == old(node.Get(c))
    ensures forall c: Column | Part(c) < 4 :: CellAt(spec, c) == CellAt(spec0, c)
  {
    spec := spec0;
    if m.status.Some? {
      spec := spec[Status := TextCell(m.status.value)];
      node.status := m.status.value;
    }
    if m.author.Some? {
      spec := spec[Author := TextCell(m.author.value)];
      node.author := m.author.value;
    }
  }

  method FillRevision(codec: Codec, m: Mutation, node: ChangeRequest, spec0: Spec) returns (spec: Spec)
    requires Untouched(spec0, 5)
    modifies node`baseHash, node`changesetRevision
    ensures Untouched(spec, 6)
    ensures forall c: Column | !c.Unlisted? && Part(c) == 5 ::
      Filled(codec, m, c, CellAt(spec, c), node.Get(c), old(node.Get(c)))
    ensures forall c: Column | !c.Unlisted? && Part(c) != 5 :: node.Get(c) == old(node.Get(c))
    ensures forall c: Column | Part(c) < 5 :: CellAt(spec, c) == CellAt(spec0, c)
  {
    spec := spec0;
    if m.baseHash.Some? {
      spec := spec[BaseHash := TextCell(m.baseHash.value)];
      node.baseHash := m.baseHash.value;
    }
    if m.changesetRevision.Some? {
      spec := spec[ChangesetRevision := IntCell(m.changesetRevision.value)];
      node.changesetRevision := m.changesetRevision.value;
    }
  }

  method FillBase(codec: Codec, m: Mutation, node: ChangeRequest, spec0: Spec) returns (spec: Spec)
    requires Untouched(spec0, 6)
    modifies node`baseVersions, node`basePresent
    ensures Untouched(spec, 7)
    ensures forall c: Column | !c.Unlisted? && Part(c) == 6 ::
      Filled(codec, m, c, CellAt(spec, c), node.Get(c), old(node.Get(c)))
    ensures forall c: Column | !c.Unlisted? && Part(c) != 6 :: node.Get(c) == old(node.Get(c))
    ensures forall c: Column | Part(c) < 6 :: CellAt(spec, c) == CellAt(spec0, c)
  {
    spec := spec0;
    if m.baseVersions.Some? {
      spec := spec[BaseVersions := Encoded(codec, m.baseVersions.value)];
      node.baseVersions := m.baseVersions.value;
    }
    if m.basePresent.Some? {
      spec := spec[BasePresent := Encoded(codec, m.basePresent.value)];
      node.basePresent := m.basePresent.value;
    }
  }

  method FillAncestor(codec: Codec, m: Mutation, node: ChangeRequest, spec0: Spec) returns (spec: Spec)
    requires Untouched(spec0, 7)
    modifies node`baseEffect, node`baseValues
    ensures Untouched(spec, 8)
    ensures forall c: Column | !c.Unlisted? && Part(c) == 7 ::
      Filled(codec, m, c, CellAt(spec, c), node.Get(c), old(node.Get(c)))
    ensures forall c: Column | !c.Unlisted? && Part(c) != 7 :: node.Get(c) == old(node.Get(c))
    ensures forall c: Column | Part(c) < 7 :: CellAt(spec, c) == CellAt(spec0, c)
  {
    spec := spec0;
    if m.baseEffect.Some? {
      spec := spec[BaseEffect := Encoded(codec, m.baseEffect.value)];
      node.baseEffect := m.baseEffect.value;
    }
    if m.baseValues.Some? {
      spec := spec[BaseValues := Encoded(codec, m.baseValues.value)];
      node.baseValues := m.baseValues.value;
    }
  }

  method FillPayload(codec: Codec, m: Mutation, node: ChangeRequest, spec0: Spec) returns (spec: Spec)
    requires Untouched(spec0, 8)
    modifies node`baseScope, node`payload
    ensures Untouched(spec, 9)
    ensures forall c: Column | !c.Unlisted? && Part(c) == 8 ::
      Filled(codec, m, c, CellAt(spec, c), node.Get(c), old(node.Get(c)))
    ensures forall c: Column | !c.Unlisted? && Part(c) != 8 :: node.Get(c) == old(node.Get(c))
    ensures forall c: Column | Part(c) < 8 :: CellAt(spec, c) == CellAt(spec0, c)
  {
    spec := spec0;
    if m.baseScope.Some? {
      spec := spec[BaseScope := Encoded(codec, m.baseScope.value)];
      node.baseScope := m.baseScope.value;
    }
    if m.payload.Some? {
      spec := spec[Payload := Encoded(codec, m.payload.value)];
      node.payload := m.payload.value;
    }
  }

  method FillExecution(codec: Codec, m: Mutation, node: ChangeRequest, spec0: Spec) returns (spec: Spec)
    requires Untouched(spec0, 9)
    modifies node`executedAt, node`executedBy
    ensures Untouched(spec, 10)
    ensures forall c: Column | !c.Unlisted? && Part(c) == 9 ::
      Filled(codec, m, c, CellAt(spec, c), node.Get(c), old(node.Get(c)))
    ensures forall c: Column | !c.Unlisted? && Part(c) != 9 :: node.Get(c) == old(node.Get(c))
    ensures forall c: Column | Part(c) < 9 :: CellAt(spec, c) == CellAt(spec0, c)
  {
    spec := spec0;
    if m.executedAt.Some? {
      spec := spec[ExecutedAt := TimeCell(m.executedAt.value)];
      node.executedAt := Some(m.executedAt.value);
    }
    if m.executedBy.Some? {
      spec := spec[ExecutedBy := TextCell(m.executedBy.value)];
      node.executedBy := m.executedBy.value;
    }
  }

  method FillDescription(codec: Codec, m: Mutation, node: ChangeRequest, spec0: Spec) returns (spec: Spec)
    requires Untouched(spec0, 0)
    modifies node
    ensures Untouched(spec, 5)
    ensures forall c: Column | Part(c) < 5 :: Filled(codec, m, c, CellAt(spec, c), node.Get(c), old(node.Get(c)))
    ensures forall c: Column | !c.Unlisted? && Part(c) >= 5 :: node.Get(c) == old(node.Get(c))
  {
    spec := FillCreation(codec, m, node, spec0);
    spec := FillUpdate(codec, m, node, spec);
    spec := FillHeading(codec, m, node, spec);
    spec := FillText(codec, m, node, spec);
    spec := FillState(codec, m, node, spec);
  }

  method FillContents(codec: Codec, m: Mutation, node: ChangeRequest, spec0: Spec) returns (spec: Spec)
    requires Untouched(spec0, 5)
    modifies node
    ensures Untouched(spec, 10)
    ensures forall c: Column | 5 <= Part(c) < 10 ::
      Filled(codec, m, c, CellAt(spec, c), node.Get(c), old(node.Get(c)))
    ensures forall c: Column | Part(c) < 5 :: node.Get(c) == old(node.Get(c)) && CellAt(spec, c) == CellAt(spec0, c)
  {
    spec := FillRevision(codec, m, node, spec0);
    spec := FillBase(codec, m, node, spec);
    spec := FillAncestor(codec, m, node, spec);
    spec := FillPayload(codec, m, node, spec);
    spec := FillExecution(codec, m, node, spec);
  }

  /** The node handed back and the cells sent, filled side by side, field by field. */
  method CreateSpec(codec: Codec, m: Mutation, text: Text, time: Time) returns (node: ChangeRequest, spec: Spec)
    ensures fresh(node)
    ensures forall c: Column | !c.Unlisted? ::
      Filled(codec, m, c, CellAt(spec, c), node.Get(c), Zero(c, text, time))
    ensures forall c: Column | c.Unlisted? :: CellAt(spec, c) == None
  {
    node := new ChangeRequest(text, time);
    spec := map[];
    spec := FillDescription(codec, m, node, spec);
    spec := FillContents(codec, m, node, spec);
  }

  // ---- Round trip ----

  /** What `scanValues` prepares, `assignValues` accepts: the two switches agree on every column name. */
  lemma HoldersFit(c: Column, cell: Cell, text: Text, time: Time)
    ensures Accepts(c, Scanned(ScanKind(c), cell, text, time))
  {
  }

  /** A holder of the wrong kind is always noticed. */
  lemma WrongHolderIsNoticed(c: Column, kind: Kind, cell: Cell, text: Text, time: Time)
    requires !c.Unlisted?
    ensures Accepts(c, Scanned(kind, cell, text, time)) <==> kind == ScanKind(c)
  {
  }

  /** A raw document field was set to nil. */
  predicate SetToNoDocument(m: Mutation, c: Column)
    requires !c.Unlisted?
  {
    Raw(c) && SetTo(m, c) == Some(JsonV(None))
  }

  /** What a column holds once it was written and read: nil in a raw document becomes the nil document. */
  function Expected(codec: Codec, m: Mutation, c: Column, text: Text, time: Time): Value
    requires !c.Unlisted?
  {
    if SetToNoDocument(m, c) then JsonV(Some(codec.none))
    else if SetTo(m, c).Some? then SetTo(m, c).value
    else Zero(c, text, time)
  }

  /** The cell the row has for a column. */
  function Stored(codec: Codec, m: Mutation, c: Column): Cell {
    if c.Unlisted? || SetTo(m, c).None? then Null else Sent(codec, SetTo(m, c).value)
  }

  lemma DocumentDecodes(codec: Codec, j: Option<Json>)
    requires Lossless(codec)
    ensures Encoded(codec, j).b != []
    ensures codec.decode(Encoded(codec, j).b) == Some(if j.Some? then j.value else codec.none)
  {
    var doc := if j.Some? then j.value else codec.none;
    assert codec.encode(doc) != [] && codec.decode(codec.encode(doc)) == Some(doc);
  }

  /** No stored column is rejected. */
  lemma StoredFits(codec: Codec, m: Mutation, c: Column, text: Text, time: Time)
    requires Lossless(codec)
    ensures var h := Scanned(ScanKind(c), Stored(codec, m, c), text, time);
            Accepts(c, h) && Decodes(codec, h)
  {
    HoldersFit(c, Stored(codec, m, c), text, time);
    if !c.Unlisted? && SetTo(m, c).Some? && SetTo(m, c).value.JsonV? {
      DocumentDecodes(codec, SetTo(m, c).value.j);
    }
  }

  /** One stored column reads back into its field, whether the field was still zero or already read. */
  lemma OneColumn(codec: Codec, m: Mutation, c: Column, v: Value, text: Text, time: Time)
    requires Lossless(codec) && ValidMutation(codec, m) && !c.Unlisted?
    requires v == Zero(c, text, time) || v == Expected(codec, m, c, text, time)
    ensures var h := Scanned(ScanKind(c), Stored(codec, m, c), text, time);
            Accepts(c, h) && Held(codec, c, v, h) == Expected(codec, m, c, text, time)
  {
    HoldersFit(c, Stored(codec, m, c), text, time);
    if SetTo(m, c).Some? && SetTo(m, c).value.JsonV? {
      DocumentDecodes(codec, SetTo(m, c).value.j);
    }
  }

  lemma ColumnsFit(codec: Codec, m: Mutation, columns: seq<Column>, values: seq<Holder>, text: Text, time: Time)
    requires Lossless(codec) && |columns| <= |values|
    requires forall i | 0 <= i < |columns| ::
      values[i] == Scanned(ScanKind(columns[i]), Stored(codec, m, columns[i]), text, time)
    ensures forall i | 0 <= i < |columns| :: Accepts(columns[i], values[i]) && Decodes(codec, values[i])
  {
    forall i | 0 <= i < |columns|
      ensures Accepts(columns[i], values[i]) && Decodes(codec, values[i])
    {
      StoredFits(codec, m, columns[i], text, time);
    }
  }

  /** In whatever order and with whatever repetitions the columns are read. */
  lemma {:induction false} ReadBack(
    codec: Codec, m: Mutation, c: Column, columns: seq<Column>, values: seq<Holder>, text: Text, time: Time)
    requires Lossless(codec) && ValidMutation(codec, m) && !c.Unlisted? && |columns| <= |values|
    requires forall i | 0 <= i < |columns| ::
      values[i] == Scanned(ScanKind(columns[i]), Stored(codec, m, columns[i]), text, time)
    ensures forall i | 0 <= i < |columns| :: Accepts(columns[i], values[i]) && Decodes(codec, values[i])
    ensures After(codec, c, Zero(c, text, time), columns, values) ==
            if c in columns then Expected(codec, m, c, text, time) else Zero(c, text, time)
  {
    ColumnsFit(codec, m, columns, values, text, time);
    if columns != [] {
      var n := |columns| - 1;
      ReadBack(codec, m, c, columns[..n], values, text, time);
      if columns[n] == c {
        OneColumn(codec, m, c, After(codec, c, Zero(c, text, time), columns[..n], values), text, time);
      }
    }
  }

  /**
    Round trip: whatever fields were set, and in whatever order, with whatever repetitions
    and extra names, the columns are read, reading never reports an error; a column that was
    read has the value of the node the insert returned exactly unless it is a raw document
    that was set to nil, which comes back as the nil document; every other one is zero.
  */
  method WriteThenRead(codec: Codec, m: Mutation, columns: seq<Column>, text: Text, time: Time)
    returns (written: ChangeRequest, read: ChangeRequest, error: Option<ReadError>)
    requires ValidMutation(codec, m)
    requires Lossless(codec)
    ensures error == None
    ensures forall c: Column | !c.Unlisted? ::
      written.Get(c) == if SetTo(m, c).Some? then SetTo(m, c).value else Zero(c, text, time)
    ensures forall c: Column | !c.Unlisted? && c in columns ::
      read.Get(c) == written.Get(c) <==> !SetToNoDocument(m, c)
    ensures forall c: Column | !c.Unlisted? && c in columns && SetToNoDocument(m, c) ::
      read.Get(c) == JsonV(Some(codec.none))
    ensures forall c: Column | !c.Unlisted? && c !in columns :: read.Get(c) == Zero(c, text, time)
  {
    var spec;
    written, spec := CreateSpec(codec, m, text, time);
    forall c: Column
      ensures CellOf(spec, c) == Stored(codec, m, c)
    {
      assert !c.Unlisted? ==> Filled(codec, m, c, CellAt(spec, c), written.Get(c), Zero(c, text, time));
      assert c.Unlisted? ==> CellAt(spec, c) == None;
    }
    var values := ScanValues(columns, spec, text, time);
    read := new ChangeRequest(text, time);
    ColumnsFit(codec, m, columns, values, text, time);
    forall c: Column | !c.Unlisted?
      ensures read.Get(c) == Zero(c, text, time)
      ensures After(codec, c, read.Get(c), columns, values) ==
              if c in columns then Expected(codec, m, c, text, time) else Zero(c, text, time)
    {
      ReadBack(codec, m, c, columns, values, text, time);
    }
    error := read.AssignValues(codec, columns, values);
    forall c: Column | !c.Unlisted?
      ensures read.Get(c) == if c in columns then Expected(codec, m, c, text, time) else Zero(c, text, time)
      ensures Expected(codec, m, c, text, time) == written.Get(c) <==> !SetToNoDocument(m, c)
    {
      assert Filled(codec, m, c, CellAt(spec, c), written.Get(c), Zero(c, text, time));
    }
  }

  // ---- Field by field ----

  predicate AuditIsAsSet(node: ChangeRequest, m: Mutation, text: Text, time: Time)
    reads node
  {
    && node.id == (if m.id.Some? then m.id.value else 0)
    && node.createdAt == (if m.createdAt.Some? then m.createdAt.value else time)
    && node.createdBy == (if m.createdBy.Some? then m.createdBy.value else text)
    && node.updatedAt == m.updatedAt
    && node.updatedBy == (if m.updatedBy.Some? then m.updatedBy.value else text)
    && node.namespace == (if m.namespace.Some? then m.namespace.value else text)
    && node.number == (if m.number.Some? then m.number.value else 0)
    && node.actionType == (if m.actionType.Some? then m.actionType.value else text)
  }

  predicate TextIsAsSet(node: ChangeRequest, m: Mutation, text: Text, time: Time)
    reads node
  {
    && node.title == (if m.title.Some? then m.title.value else text)
    && node.description == (if m.description.Some? then m.description.value else text)
    && node.status == (if m.status.Some? then m.status.value else text)
    && node.author == (if m.author.Some? then m.author.value else text)
    && node.baseHash == (if m.baseHash.Some? then m.baseHash.value else text)
    && node.changesetRevision == (if m.changesetRevision.Some? then m.changesetRevision.value else 0)
  }

  predicate BaseIsAsSet(node: ChangeRequest, m: Mutation, text: Text, time: Time)
    reads node
  {
    && node.baseVersions == (if m.baseVersions.Some? then m.baseVersions.value else None)
    && node.basePresent == (if m.basePresent.Some? then m.basePresent.value else None)
    && node.baseEffect == (if m.baseEffect.Some? then m.baseEffect.value else None)
    && node.baseValues == (if m.baseValues.Some? then m.baseValues.value else None)
  }

  predicate OutcomeIsAsSet(node: ChangeRequest, m: Mutation, text: Text, time: Time)
    reads node
  {
    && node.baseScope == (if m.baseScope.Some? then m.baseScope.value else None)
    && node.payload == (if m.payload.Some? then m.payload.value else None)
    && node.executedAt == m.executedAt
    && node.executedBy == (if m.executedBy.Some? then m.executedBy.value else text)
  }

  /** The record has, by name, exactly what the setters of the same name were given, and zero values elsewhere. */
  predicate IsAsSet(node: ChangeRequest, m: Mutation, text: Text, time: Time)
    reads node
  {
    && AuditIsAsSet(node, m, text, time) && TextIsAsSet(node, m, text, time)
    && BaseIsAsSet(node, m, text, time) && OutcomeIsAsSet(node, m, text, time)
  }

  /** The value a set column was given, or the zero value. */
  function SetOrZero(m: Mutation, c: Column, text: Text, time: Time): Value
    requires !c.Unlisted?
  {
    if SetTo(m, c).Some? then SetTo(m, c).value else Zero(c, text, time)
  }

  lemma AuditIsAsSetIff(node: ChangeRequest, m: Mutation, text: Text, time: Time)
    ensures AuditIsAsSet(node, m, text, time)
       <==> forall c | c in {Id, CreatedAt, CreatedBy, UpdatedAt, UpdatedBy, Namespace, Number, ActionType} ::
              node.Get(c) == SetOrZero(m, c, text, time)
  {
    var columns := {Id, CreatedAt, CreatedBy, UpdatedAt, UpdatedBy, Namespace, Number, ActionType};
    if forall c | c in columns :: node.Get(c) == SetOrZero(m, c, text, time) {
      assert node.Get(Id) == SetOrZero(m, Id, text, time);
      assert node.Get(CreatedAt) == SetOrZero(m, CreatedAt, text, time);
      assert node.Get(CreatedBy) == SetOrZero(m, CreatedBy, text, time);
      assert node.Get(UpdatedAt) == SetOrZero(m, UpdatedAt, text, time);
      assert node.Get(UpdatedBy) == SetOrZero(m, UpdatedBy, text, time);
      assert node.Get(Namespace) == SetOrZero(m, Namespace, text, time);
      assert node.Get(Number) == SetOrZero(m, Number, text, time);
      assert node.Get(ActionType) == SetOrZero(m, ActionType, text, time);
    }
  }

  lemma TextIsAsSetIff(node: ChangeRequest, m: Mutation, text: Text, time: Time)
    ensures TextIsAsSet(node, m, text, time)
       <==> forall c | c in {Title, Description, Status, Author, BaseHash, ChangesetRevision} ::
              node.Get(c) == SetOrZero(m, c, text, time)
  {
    var columns := {Title, Description, Status, Author, BaseHash, ChangesetRevision};
    if forall c | c in columns :: node.Get(c) == SetOrZero(m, c, text, time) {
      assert node.Get(Title) == SetOrZero(m, Title, text, time);
      assert node.Get(Description) == SetOrZero(m, Description, text, time);
      assert node.Get(Status) == SetOrZero(m, Status, text, time);
      assert node.Get(Author) == SetOrZero(m, Author, text, time);
      assert node.Get(BaseHash) == SetOrZero(m, BaseHash, text, time);
      assert node.Get(ChangesetRevision) == SetOrZero(m, ChangesetRevision, text, time);
    }
  }

  lemma BaseIsAsSetIff(node: ChangeRequest, m: Mutation, text: Text, time: Time)
    ensures BaseIsAsSet(node, m, text, time)
       <==> forall c | c in {BaseVersions, BasePresent, BaseEffect, BaseValues} ::
              node.Get(c) == SetOrZero(m, c, text, time)
  {
    var columns := {BaseVersions, BasePresent, BaseEffect, BaseValues};
    if forall c | c in columns :: node.Get(c) == SetOrZero(m, c, text, time) {
      assert node.Get(BaseVersions) == SetOrZero(m, BaseVersions, text, time);
      assert node.Get(BasePresent) == SetOrZero(m, BasePresent, text, time);
      assert node.Get(BaseEffect) == SetOrZero(m, BaseEffect, text, time);
      assert node.Get(BaseValues) == SetOrZero(m, BaseValues, text, time);
    }
  }

  lemma OutcomeIsAsSetIff(node: ChangeRequest, m: Mutation, text: Text, time: Time)
    ensures OutcomeIsAsSet(node, m, text, time)
       <==> forall c | c in {BaseScope, Payload, ExecutedAt, ExecutedBy} ::
              node.Get(c) == SetOrZero(m, c, text, time)
  {
    var columns := {BaseScope, Payload, ExecutedAt, ExecutedBy};
    if forall c | c in columns :: node.Get(c) == SetOrZero(m, c, text, time) {
      assert node.Get(BaseScope) == SetOrZero(m, BaseScope, text, time);
      assert node.Get(Payload) == SetOrZero(m, Payload, text, time);
      assert node.Get(ExecutedAt) == SetOrZero(m, ExecutedAt, text, time);
      assert node.Get(ExecutedBy) == SetOrZero(m, ExecutedBy, text, time);
    }
  }

  /** What a null column leaves: the field as it was, except that the id becomes 0. */
  lemma NullColumn(codec: Codec, c: Column, v: Value, text: Text, time: Time)
    requires !c.Unlisted?
    ensures Accepts(c, Scanned(ScanKind(c), Null, text, time))
    ensures Held(codec, c, v, Scanned(ScanKind(c), Null, text, time)) == if c == Id then IntV(0) else v
  {
  }

  /** No raw document was set to nil. */
  predicate NoNilDocument(m: Mutation) {
    m.baseEffect != Some(None) && m.payload != Some(None)
  }

  /**
    The whole trip by name: when every column is read back, the record written and the one
    read both have exactly what the setters were given.
  */
  method WriteThenReadAll(codec: Codec, m: Mutation, columns: seq<Column>, text: Text, time: Time)
    returns (written: ChangeRequest, read: ChangeRequest)
    requires ValidMutation(codec, m) && Lossless(codec) && NoNilDocument(m)
    requires forall c: Column | !c.Unlisted? :: c in columns
    ensures IsAsSet(written, m, text, time)
    ensures IsAsSet(read, m, text, time)
  {
    var error;
    written, read, error := WriteThenRead(codec, m, columns, text, time);
    forall c: Column | !c.Unlisted?
      ensures read.Get(c) == SetOrZero(m, c, text, time)
    {
      assert !SetToNoDocument(m, c);
      assert c in columns;
    }
    forall c: Column | !c.Unlisted?
      ensures written.Get(c) == SetOrZero(m, c, text, time)
    {
    }
    AuditIsAsSetIff(written, m, text, time);
    TextIsAsSetIff(written, m, text, time);
    BaseIsAsSetIff(written, m, text, time);
    OutcomeIsAsSetIff(written, m, text, time);
    AuditIsAsSetIff(read, m, text, time);
    TextIsAsSetIff(read, m, text, time);
    BaseIsAsSetIff(read, m, text, time);
    OutcomeIsAsSetIff(read, m, text, time);
  }
}
