/** The generic protobuf tree the rebase walks: messages with a schema descriptor,
    presence and one-of state, singular and repeated children, and int32 scalars. */
module ProtoTree {
  import opened Wrappers

  type int32 = x: int | -0x8000_0000 <= x <= 0x7FFF_FFFF

  datatype Kind =
    | NodeKind
    | ParseResultKind
    | RawStmtKind
    | QueryKind
    | AConstKind
    | TypeNameKind
    | CreateTableSpaceKind
    | StringKind
    | FloatKind
    | BitStringKind
    | OtherKind(name: string)

  datatype FieldType = MessageField(target: Kind) | StringField | Int32Field | OtherField

  datatype Cardinality = Required | Optional | Repeated | Unlabelled

  /** `oneof` names the one-of group of the field; `tracked` says that an optional
      field has a presence flag of its own. */
  datatype Field = Field(id: nat, name: Option<string>, fieldType: FieldType, cardinality: Cardinality,
                         oneof: Option<nat>, tracked: bool)

  /** `stmtLocation` and `stmtLen` are where the pair of RawStmt and Query is stored;
      `body` is where ParseResult keeps its statements and RawStmt its statement. */
  datatype Descriptor = Descriptor(kind: Kind, fields: seq<Field>, stmtLocation: nat, stmtLen: nat, body: nat) {
    predicate IsStatement() {
      kind == RawStmtKind || kind == QueryKind
    }

    /** The body is a message field that is always active. */
    ghost predicate HasBody() {
      && body < |fields| && fields[body].fieldType.MessageField?
      && fields[body].oneof.None? && !fields[body].tracked
    }

    ghost predicate HasPair() {
      && stmtLocation < |fields| && stmtLen < |fields|
      && fields[stmtLocation].name == Some("stmt_location")
      && fields[stmtLen].name == Some("stmt_len")
    }
  }

  datatype Activity = Active | Inactive | Corrupt

  /** The value of a message-typed field; `MissingArray` is a NULL array with a nonzero count. */
  datatype Members = NotMessage | Single(child: Message?) | Array(items: seq<Message?>) | MissingArray

  /** The one-of group of the Node wrapper. */
  const NODE_GROUP: nat := 0

  /** The index of the field with the given id, or the number of fields. */
  function FindField(fields: seq<Field>, id: nat, from: nat): (i: nat)
    requires from <= |fields|
    ensures i <= |fields|
    decreases |fields| - from
  {
    if from == |fields| || fields[from].id == id then from else FindField(fields, id, from + 1)
  }

  function NonNull(members: Members): set<Message> {
    match members
    case Single(child) => if child == null then {} else {child}
    case Array(items) => set c | c in items && c != null
    case _ => {}
  }

  class Message {
    const descriptor: Descriptor
    /** The descriptor is set and genuine, and no unknown fields are attached. */
    const genuine: bool
    const cases: map<nat, nat>
    const present: seq<bool>
    const members: seq<Members>
    var scalars: seq<int32>

    ghost predicate Shaped()
      reads this
    {
      && |present| == |members| == |scalars| == |descriptor.fields|
      && (descriptor.IsStatement() ==> descriptor.HasPair())
      && (descriptor.kind == RawStmtKind || descriptor.kind == ParseResultKind ==> descriptor.HasBody())
      && (descriptor.kind == RawStmtKind ==> members[descriptor.body].Single?)
      && (descriptor.kind == ParseResultKind ==>
            members[descriptor.body].Array? || members[descriptor.body].MissingArray?)
      && (forall i | 0 <= i < |members| && descriptor.fields[i].fieldType.MessageField? ::
            if descriptor.fields[i].cardinality == Repeated then members[i].Array? || members[i].MissingArray?
            else members[i].Single?)
    }

    function CaseOf(group: nat): nat {
      if group in cases then cases[group] else 0
    }

    /** The fields to visit: all of them, or a Node's only active alternative. */
    function Window(): (r: Option<(nat, nat)>)
      ensures r.Some? ==> r.value.0 <= r.value.1 <= |descriptor.fields|
    {
      if descriptor.kind == NodeKind then
        var i := FindField(descriptor.fields, CaseOf(NODE_GROUP), 0);
        if CaseOf(NODE_GROUP) == 0 || i == |descriptor.fields| then None else Some((i, i + 1))
      else
        Some((0, |descriptor.fields|))
    }

    function ActivityOf(i: nat): Activity
      requires i < |descriptor.fields| == |present|
    {
      var f := descriptor.fields[i];
      if f.oneof.Some? then
        var c := CaseOf(f.oneof.value);
        var s := FindField(descriptor.fields, c, 0);
        if c == 0 then Inactive
        else if s == |descriptor.fields| || descriptor.fields[s].oneof != f.oneof then Corrupt
        else if s == i then Active
        else Inactive
      else if f.cardinality == Optional && f.tracked && !present[i] then Inactive
      else Active
    }

    ghost predicate Visits(i: nat) {
      Window().Some? && Window().value.0 <= i < Window().value.1
    }

    ghost predicate IsActive(i: nat) {
      i < |descriptor.fields| == |present| && Visits(i) && ActivityOf(i) == Active
    }

    /** The active children held by field i. */
    ghost function KidsAt(i: nat): set<Message> {
      if i < |members| && IsActive(i) && descriptor.fields[i].fieldType.MessageField? then NonNull(members[i]) else {}
    }

    ghost function KidsBetween(first: nat, end: nat): set<Message> {
      set i, c | first <= i < end && c in KidsAt(i) :: c
    }

    /** All active children, in no particular order. */
    ghost function Kids(): set<Message> {
      KidsBetween(0, |members|)
    }
  }
}
