/** Reading messages: what the decoder makes of any bytes. A destination always has the shape
    of its descriptor. */
module PbDecoding {
  import opened Basics
  import opened Coding
  import opened PbTypes

  // ----- Variable-length integers of 32 bits, for keys and lengths -----

  function DecodeVarint32(input: Bytes): (r: Option<Parsed<Word>>)
    ensures r.Some? ==> |r.value.rest| < |input|
  {
    if input == [] then None
    else if input[0] < 128 then Some(Parsed(input[0], input[1..]))
    else MoreVarint32(input[0] - 128, 7, input[1..])
  }

  datatype Group = Refused | More(result: Word) | Done(result: Word)

  /** Groups from the second on. Above 32 bits only zeros, or the sign extension of a negative
      number, are let through. */
  function Group32(result: Word, bitpos: nat, b: byte): Group {
    var low := b % 128;
    var extension := if bitpos < 63 then 0xFF else 0x01;
    if bitpos >= 32 && low != 0 && (result < 0x8000_0000 || b != extension) then Refused else
      var next := if bitpos >= 32 then result else (result + low * Pow(2, bitpos)) % TWO32;
      if b >= 128 then More(next)
      else if bitpos == 28 && low >= 16 then Refused
      else Done(next)
  }

  function MoreVarint32(result: Word, bitpos: nat, input: Bytes): (r: Option<Parsed<Word>>)
    ensures r.Some? ==> |r.value.rest| < |input|
    decreases |input|
  {
    if input == [] then None else
      match Group32(result, bitpos, input[0])
      case Refused => None
      case More(next) => MoreVarint32(next, bitpos + 7, input[1..])
      case Done(next) => Some(Parsed(next, input[1..]))
  }

  // ----- Skipping what is not known -----

  function SkipVarint(input: Bytes): (r: Option<Bytes>)
    ensures r.Some? ==> |r.value| <= |input|
    decreases |input|
  {
    if input == [] then None
    else if input[0] < 128 then Some(input[1..])
    else SkipVarint(input[1..])
  }

  function Drop(input: Bytes, n: nat): (r: Option<Bytes>)
    ensures r.Some? ==> |r.value| <= |input|
  {
    if |input| < n then None else Some(input[n..])
  }

  function Skip(input: Bytes, wireType: nat): (r: Option<Bytes>)
    ensures r.Some? ==> |r.value| <= |input|
  {
    if wireType == 0 then SkipVarint(input)
    else if wireType == 1 then Drop(input, 8)
    else if wireType == 2 then
      match DecodeVarint32(input)
      case None => None
      case Some(p) => Drop(p.rest, p.value)
    else if wireType == 5 then Drop(input, 4)
    else None
  }

  /** A length and as many bytes. */
  function TakeDelimited(input: Bytes): (r: Option<Parsed<Bytes>>)
    ensures r.Some? ==> |r.value.rest| < |input| && |r.value.value| < |input|
  {
    match DecodeVarint32(input)
    case None => None
    case Some(p) => if |p.rest| < p.value then None else Some(Parsed(p.rest[..p.value], p.rest[p.value..]))
  }

  // ----- Numbers -----

  function Modulus(size: nat): (m: nat)
    ensures m > 0
  {
    if size == 1 then 0x100 else if size == 2 then 0x1_0000 else if size == 4 then TWO32 else TWO64
  }

  /** The cast of a bit pattern to a signed integer of the given number of bytes. */
  function Signed(v: int, size: nat): int {
    var modulus := Modulus(size);
    if v % modulus < modulus / 2 then v % modulus else v % modulus - modulus
  }

  function Unzigzag(v: nat): int {
    if v % 2 == 1 then -(v / 2) - 1 else v / 2
  }

  /** Store a number into a field: what its data size cannot hold is refused. */
  function StoreNumber(f: Field, v: nat): Option<Value> {
    match f.ltype
    case VarintType =>
      // Fields of up to 32 bits take the low 32 bits first.
      var n := if f.dataSize == 8 then Signed(v, 8) else Signed(v, 4);
      if IntegerSize(f.dataSize) && Signed(n, f.dataSize) == n then Some(Number(n)) else None
    case UVarintType =>
      if IntegerSize(f.dataSize) && v % Modulus(f.dataSize) == v then Some(Number(v)) else None
    case SVarintType =>
      var n := Unzigzag(v);
      if IntegerSize(f.dataSize) && Signed(n, f.dataSize) == n then Some(Number(n)) else None
    case _ => Some(Number(v))
  }

  function DecodeNumber(f: Field, input: Bytes): (r: Option<Parsed<Value>>)
    requires f.ltype.Packable()
    ensures r.Some? ==> |r.value.rest| < |input|
  {
    match f.ltype
    case Fixed32Type => if |input| < 4 then None else Some(Parsed(Number(FromFixed(input[..4])), input[4..]))
    case Fixed64Type => if |input| < 8 then None else Some(Parsed(Number(FromFixed(input[..8])), input[8..]))
    case _ => DecodeVarintNumber(f, input)
  }

  function DecodeVarintNumber(f: Field, input: Bytes): (r: Option<Parsed<Value>>)
    ensures r.Some? ==> |r.value.rest| < |input|
  {
    match GetVarint64(input)
    case None => None
    case Some(p) =>
      ParseVarintConsumes(input, 10);
      match StoreNumber(f, p.value)
      case None => None
      case Some(v) => Some(Parsed(v, p.rest))
  }

  // ----- Values, fields and messages -----

  function Inner(fields: seq<Field>, was: Value): (m: Message)
    ensures |m.slots| == |fields|
  {
    if was.Nested? && |was.message.slots| == |fields| then was.message else Defaults(fields)
  }

  /** One value of a field. A submessage is merged into the destination, except that an array
      entry starts from defaults. */
  function DecodeValue(f: Field, was: Value, input: Bytes): (r: Option<Parsed<Value>>)
    ensures r.Some? ==> |r.value.rest| < |input|
    decreases f, |input|, 0
  {
    if f.ltype.Packable() then DecodeNumber(f, input) else
    match TakeDelimited(input)
    case None => None
    case Some(p) =>
      match DecodePayload(f, was, p.value)
      case None => None
      case Some(v) => Some(Parsed(v, p.rest))
  }

  function DecodePayload(f: Field, was: Value, payload: Bytes): Option<Value>
    requires !f.ltype.Packable()
    decreases f, |payload|, 1
  {
    match f.ltype
    case BytesType => if |payload| + BYTES_HEADER > f.dataSize then None else Some(Blob(payload))
    case StringType => if |payload| + 1 > f.dataSize then None else Some(Blob(payload))
    case FixedBytesType =>
      if payload == [] then Some(Zero(f))
      else if |payload| != f.dataSize then None
      else Some(Blob(payload))
    case SubmessageType(fs) =>
      var start := if f.htype.Repeated? then Defaults(fs) else Inner(fs, was);
      match DecodeInto(fs, start, payload)
      case None => None
      case Some(m) => Some(Nested(m))
  }

  function Current(m: Message, i: nat): Value
    requires i < |m.slots|
  {
    match m.slots[i]
    case One(v) => v
    case Maybe(_, v) => v
    case _ => Number(0)
  }

  function Items(m: Message, i: nat): seq<Value>
    requires i < |m.slots|
  {
    if m.slots[i].Many? then m.slots[i].items else []
  }

  function DecodePacked(f: Field, items: seq<Value>, input: Bytes): Option<seq<Value>>
    requires f.ltype.Packable()
    decreases |input|
  {
    if input == [] then Some(items)
    else if |items| >= f.arraySize then None
    else
      match DecodeNumber(f, input)
      case None => None
      case Some(p) => DecodePacked(f, items + [p.value], p.rest)
  }

  function SetSlot(m: Message, i: nat, s: Slot): (r: Message)
    requires i < |m.slots|
    ensures |r.slots| == |m.slots|
  {
    m.(slots := m.slots[i := s])
  }

  /** decode_static_field for a field whose value is a single one. */
  function DecodeSingle(f: Field, i: nat, m: Message, input: Bytes): (r: Option<Parsed<Message>>)
    requires i < |m.slots|
    ensures r.Some? ==> |r.value.rest| < |input| && |r.value.value.slots| == |m.slots|
    decreases f, |input|, 1
  {
    var was := if f.htype.OneOf? || f.htype.Repeated? then DefaultValue(f) else Current(m, i);
    match DecodeValue(f, was, input)
    case None => None
    case Some(p) => Some(Parsed(Stored(f, i, m, p.value), p.rest))
  }

  function Stored(f: Field, i: nat, m: Message, v: Value): (r: Message)
    requires i < |m.slots|
    ensures |r.slots| == |m.slots|
  {
    match f.htype
    case Required | Singular => SetSlot(m, i, One(v))
    case Optional => SetSlot(m, i, Maybe(true, v))
    case Repeated => SetSlot(m, i, Many(Items(m, i) + [v]))
    case OneOf(g) => m.(unions := m.unions[g := Choice(f.tag, v)])
  }

  function DecodeField(fields: seq<Field>, i: nat, wireType: nat, m: Message, input: Bytes): (r: Option<Parsed<Message>>)
    requires i < |fields| && |m.slots| == |fields|
    ensures r.Some? ==> |r.value.rest| < |input| && |r.value.value.slots| == |m.slots|
    decreases fields, |input|, 0
  {
    var f := fields[i];
    if f.htype.Repeated? && wireType == 2 && f.ltype.Packable() then
      match TakeDelimited(input)
      case None => None
      case Some(p) =>
        match DecodePacked(f, Items(m, i), p.value)
        case None => None
        case Some(items) => Some(Parsed(SetSlot(m, i, Many(items)), p.rest))
    else if f.htype.Repeated? && |Items(m, i)| >= f.arraySize then None
    else if UnionBroken(fields, i, m) then None
    else DecodeSingle(f, i, m, input)
  }

  /** A union that holds a tag the descriptor does not know cannot be released. */
  predicate UnionBroken(fields: seq<Field>, i: nat, m: Message)
    requires i < |fields|
  {
    var h := fields[i].htype;
    h.OneOf? && h.group in m.unions &&
    var tag := m.unions[h.group].tag;
    tag != 0 && tag != fields[i].tag && Index(fields, tag) == |fields|
  }

  /** The message so far and the required fields seen so far. */
  datatype State = State(m: Message, seen: set<nat>)

  function DecodeRecord(fields: seq<Field>, s: State, key: Word, input: Bytes): (r: Option<Parsed<State>>)
    requires |s.m.slots| == |fields|
    ensures r.Some? ==> |r.value.rest| <= |input| && |r.value.value.m.slots| == |fields|
    decreases fields, |input|, 1
  {
    var tag, wireType := key / 8, key % 8;
    var i := Index(fields, tag);
    // Tag 0 finds the terminator of an empty descriptor, which no number can be stored into.
    if fields == [] && tag == 0 then None
    else if i == |fields| then
      match Skip(input, wireType)
      case None => None
      case Some(rest) => Some(Parsed(s, rest))
    else
      match DecodeField(fields, i, wireType, s.m, input)
      case None => None
      case Some(p) => Some(Parsed(State(p.value, if fields[i].htype.Required? then s.seen + {i} else s.seen), p.rest))
  }

  /** The decoding loop: a zero key ends a message early. */
  function DecodeFields(fields: seq<Field>, s: State, input: Bytes): (r: Option<State>)
    requires |s.m.slots| == |fields|
    ensures r.Some? ==> |r.value.m.slots| == |fields|
    decreases fields, |input|, 2
  {
    if input == [] then Some(s) else
    match DecodeVarint32(input)
    case None => None
    case Some(key) =>
      if key.value == 0 then Some(s) else
      match DecodeRecord(fields, s, key.value, key.rest)
      case None => None
      case Some(p) => DecodeFields(fields, p.value, p.rest)
  }

  /** Only the first required fields are checked. */
  predicate RequiredSeen(fields: seq<Field>, seen: set<nat>) {
    forall i :: 0 <= i < |fields| && fields[i].htype.Required? && RequiredBefore(fields, i) < MAX_REQUIRED ==> i in seen
  }

  function DecodeInto(fields: seq<Field>, m: Message, input: Bytes): (r: Option<Message>)
    requires |m.slots| == |fields|
    ensures r.Some? ==> |r.value.slots| == |fields|
    decreases fields, |input|, 3
  {
    match DecodeFields(fields, State(m, {}), input)
    case None => None
    case Some(s) => if RequiredSeen(fields, s.seen) then Some(s.m) else None
  }

  function Decode(fields: seq<Field>, input: Bytes): Option<Message> {
    DecodeInto(fields, Defaults(fields), input)
  }
}
