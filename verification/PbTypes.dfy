/** Message descriptors and message structures of the protobuf library, for fields stored in
    place. The build sets PB_FIELD_32BIT, so sizes are 32-bit. */
module PbTypes {
  import opened Basics
  import opened Coding

  /** offsetof(pb_bytes_array_t, bytes) with a 32-bit size in front. */
  const BYTES_HEADER: nat := 4
  const MAX_REQUIRED: nat := 64
  const MAX_TAG: nat := 0x2000_0000

  datatype LType =
    | VarintType
    | UVarintType
    | SVarintType
    | Fixed32Type
    | Fixed64Type
    | BytesType
    | StringType
    | SubmessageType(fields: seq<Field>)
    | FixedBytesType
  {
    predicate Packable() {
      VarintType? || UVarintType? || SVarintType? || Fixed32Type? || Fixed64Type?
    }

    /** The wire type of one value of the field. */
    function WireType(): (w: nat)
      ensures w < 8
    {
      match this
      case VarintType | UVarintType | SVarintType => 0
      case Fixed32Type => 5
      case Fixed64Type => 1
      case BytesType | StringType | SubmessageType(_) | FixedBytesType => 2
    }
  }

  /** Optional fields have a flag of their own; singular ones are present when not zero. Members
      of one union share a group. */
  datatype HType = Required | Optional | Singular | Repeated | OneOf(group: nat)

  datatype Field = Field(tag: nat, ltype: LType, htype: HType, dataSize: nat, arraySize: nat, initial: Option<Value>)

  datatype Value = Number(n: int) | Blob(bytes: Bytes) | Nested(message: Message)

  datatype Slot = One(value: Value) | Maybe(has: bool, value: Value) | Many(items: seq<Value>) | InUnion

  datatype Choice = Choice(tag: nat, value: Value)

  /** One slot a field; a group without a choice has which equal to 0. */
  datatype Message = Message(slots: seq<Slot>, unions: map<nat, Choice>)

  predicate Chosen(m: Message, group: nat, tag: nat) {
    group in m.unions && m.unions[group].tag == tag
  }

  /** The data sizes an integer field may have. */
  predicate IntegerSize(size: nat) {
    size == 1 || size == 2 || size == 4 || size == 8
  }

  // ----- Default values -----

  function Zero(f: Field): Value {
    match f.ltype
    case BytesType | StringType | SubmessageType(_) => Blob([])
    case FixedBytesType => Blob(Zeros(f.dataSize))
    case _ => Number(0)
  }

  function Zeros(n: nat): (b: Bytes)
    ensures |b| == n && forall i :: 0 <= i < n ==> b[i] == 0
  {
    seq(n, i => 0)
  }

  /** pb_message_set_to_defaults: counts, flags and choices are cleared, the rest set. */
  function Defaults(fields: seq<Field>): (m: Message)
    ensures |m.slots| == |fields| && m.unions == map[]
    decreases fields
  {
    Message(seq(|fields|, i requires 0 <= i < |fields| => DefaultSlot(fields[i])), map[])
  }

  function DefaultSlot(f: Field): Slot
    decreases f, 1
  {
    match f.htype
    case Required | Singular => One(DefaultValue(f))
    case Optional => Maybe(false, DefaultValue(f))
    case Repeated => Many([])
    case OneOf(_) => InUnion
  }

  function DefaultValue(f: Field): Value
    decreases f, 0
  {
    if f.ltype.SubmessageType? then Nested(Defaults(f.ltype.fields))
    else if f.initial.Some? then f.initial.value
    else Zero(f)
  }

  // ----- What is present -----

  /** pb_check_proto3_default_value over a whole message. */
  predicate AllDefault(fields: seq<Field>, m: Message)
    decreases fields
  {
    forall i :: 0 <= i < |fields| ==> IsDefault(fields[i], i, m)
  }

  predicate IsDefault(f: Field, i: nat, m: Message)
    decreases f, 1
  {
    i < |m.slots| &&
    match f.htype
    case Required => false
    case Repeated => m.slots[i] == Many([])
    case OneOf(g) => g !in m.unions || m.unions[g].tag == 0
    case Optional => m.slots[i].Maybe? && !m.slots[i].has
    case Singular => m.slots[i].One? && IsZero(f, m.slots[i].value)
  }

  predicate IsZero(f: Field, v: Value)
    decreases f, 0
  {
    match f.ltype
    case BytesType => v == Blob([])
    case StringType => v.Blob? && (v.bytes == [] || v.bytes[0] == 0)
    case FixedBytesType => f.dataSize == 0
    case SubmessageType(fs) => v.Nested? && AllDefault(fs, v.message)
    case _ => v == Number(0)
  }

  /** The values a field contributes to the encoding, in order. */
  function Present(f: Field, i: nat, m: Message): (vs: seq<Value>)
    requires i < |m.slots|
  {
    var s := m.slots[i];
    match f.htype
    case Required => if s.One? then [s.value] else []
    case Optional => if s.Maybe? && s.has then [s.value] else []
    case Singular => if s.One? && !IsZero(f, s.value) then [s.value] else []
    case Repeated => if s.Many? then s.items else []
    case OneOf(g) => if Chosen(m, g, f.tag) then [m.unions[g].value] else []
  }

  // ----- Descriptors and the values that fit them -----

  /** What the generator guarantees: field numbers are positive, distinct and below 2^29, and a
      field without a presence flag has no default of its own. */
  ghost predicate WellFormed(fields: seq<Field>)
    decreases fields
  {
    (forall i, j :: 0 <= i < j < |fields| ==> fields[i].tag != fields[j].tag) &&
    forall i :: 0 <= i < |fields| ==> FieldWellFormed(fields[i])
  }

  ghost predicate FieldWellFormed(f: Field)
    decreases f
  {
    0 < f.tag < MAX_TAG &&
    (f.htype.Singular? ==> f.initial == None) &&
    (f.ltype.SubmessageType? ==> WellFormed(f.ltype.fields))
  }

  /** Numbers are in the range of their C type. */
  predicate InRange(f: Field, n: int) {
    match f.ltype
    case VarintType | SVarintType =>
      (f.dataSize == 1 ==> -0x80 <= n < 0x80) &&
      (f.dataSize == 2 ==> -0x8000 <= n < 0x8000) &&
      (f.dataSize == 4 ==> -0x8000_0000 <= n < 0x8000_0000) &&
      (f.dataSize == 8 ==> -0x8000_0000_0000_0000 <= n < 0x8000_0000_0000_0000)
    case UVarintType =>
      (f.dataSize == 1 ==> 0 <= n < 0x100) &&
      (f.dataSize == 2 ==> 0 <= n < 0x1_0000) &&
      (f.dataSize == 4 ==> 0 <= n < TWO32) &&
      (f.dataSize == 8 ==> 0 <= n < TWO64)
    case Fixed32Type => 0 <= n < TWO32
    case Fixed64Type => 0 <= n < TWO64
    case _ => true
  }

  /** Whatever memory of the field's type can hold. */
  ghost predicate Fits(f: Field, v: Value)
    decreases f, 0
  {
    match f.ltype
    case BytesType => v.Blob? && |v.bytes| < TWO32
    case StringType => v.Blob? && |v.bytes| <= f.dataSize
    case FixedBytesType => v.Blob? && |v.bytes| == f.dataSize
    case SubmessageType(fs) => v.Nested? && MessageFits(fs, v.message)
    case _ => v.Number? && InRange(f, v.n)
  }

  ghost predicate SlotFits(f: Field, i: nat, m: Message)
    requires i < |m.slots|
    decreases f, 1
  {
    var s := m.slots[i];
    match f.htype
    case Required | Singular => s.One? && Fits(f, s.value)
    case Optional => s.Maybe? && Fits(f, s.value)
    case Repeated => s.Many? && forall j :: 0 <= j < |s.items| ==> Fits(f, s.items[j])
    case OneOf(g) => s.InUnion? && (Chosen(m, g, f.tag) ==> Fits(f, m.unions[g].value))
  }

  ghost predicate MessageFits(fields: seq<Field>, m: Message)
    decreases fields
  {
    |m.slots| == |fields| && KnownChoices(fields, m) &&
    forall i :: 0 <= i < |fields| ==> SlotFits(fields[i], i, m)
  }

  /** A union holds nothing or one of its members. */
  ghost predicate KnownChoices(fields: seq<Field>, m: Message) {
    forall g <- m.unions :: m.unions[g].tag == 0 || exists i: nat :: IsMember(fields, i, g, m.unions[g].tag)
  }

  ghost predicate IsMember(fields: seq<Field>, i: nat, group: nat, tag: nat) {
    i < |fields| && fields[i].htype == OneOf(group) && fields[i].tag == tag
  }

  lemma PresentFits(f: Field, i: nat, m: Message, j: nat)
    requires i < |m.slots| && SlotFits(f, i, m) && j < |Present(f, i, m)|
    ensures Fits(f, Present(f, i, m)[j])
  {
  }

  /** The position of a tag in the descriptor, or its length. */
  function Index(fields: seq<Field>, tag: nat): (i: nat)
    ensures i <= |fields|
    ensures i < |fields| ==> fields[i].tag == tag
    ensures forall k :: 0 <= k < i ==> fields[k].tag != tag
    decreases |fields|
  {
    if fields == [] || fields[0].tag == tag then 0 else
      var i := Index(fields[1..], tag);
      assert forall k :: 0 < k < i + 1 ==> fields[k] == fields[1..][k - 1];
      i + 1
  }

  /** How many required fields come before a position. */
  function RequiredBefore(fields: seq<Field>, i: nat): (n: nat)
    requires i <= |fields|
    ensures n <= i
  {
    if i == 0 then 0 else RequiredBefore(fields, i - 1) + (if fields[i - 1].htype.Required? then 1 else 0)
  }
}
