/** The wire encoding of a message, as the Protocol Buffers Encoding guide defines it, with the
    cases in which the encoder refuses. */
module PbEncoding {
  import opened Basics
  import opened Coding
  import opened PbTypes

  function Key(tag: nat, wireType: nat): (b: Bytes)
    ensures b != []
  {
    Varint(tag * 8 + wireType)
  }

  /** Signed values map to unsigned ones by alternating sign. */
  function Zigzag(n: int): nat {
    if n < 0 then -2 * n - 1 else 2 * n
  }

  function EncodeNumber(f: Field, v: Value): Option<Bytes>
    requires f.ltype.Packable()
  {
    if !v.Number? then None else
    match f.ltype
    case Fixed32Type => Some(Fixed(v.n % TWO32, 4))
    case Fixed64Type => Some(Fixed(v.n % TWO64, 8))
    case SVarintType => if IntegerSize(f.dataSize) then Some(Varint(Zigzag(v.n))) else None
    case _ => if IntegerSize(f.dataSize) then Some(Varint(v.n % TWO64)) else None
  }

  /** The text in a character buffer ends at the first zero or at the buffer's end. */
  function TextLength(b: Bytes, limit: nat): (n: nat)
    ensures n <= |b| && n <= limit
    ensures forall i :: 0 <= i < n ==> b[i] != 0
    ensures n < |b| && n < limit ==> b[n] == 0
  {
    if b == [] || limit == 0 || b[0] == 0 then 0 else 1 + TextLength(b[1..], limit - 1)
  }

  function Text(f: Field, b: Bytes): Bytes {
    b[..TextLength(b, f.dataSize)]
  }

  function Delimited(b: Bytes): Bytes {
    Varint(|b|) + b
  }

  function EncodeValue(f: Field, v: Value): Option<Bytes>
    decreases f, 0
  {
    match f.ltype
    case BytesType =>
      if v.Blob? && |v.bytes| + BYTES_HEADER <= f.dataSize then Some(Delimited(v.bytes)) else None
    case StringType => if v.Blob? then Some(Delimited(Text(f, v.bytes))) else None
    case FixedBytesType => if v.Blob? && |v.bytes| == f.dataSize then Some(Delimited(v.bytes)) else None
    case SubmessageType(fs) =>
      if v.Nested? && |v.message.slots| == |fs| then
        match EncodeFrom(fs, v.message, 0)
        case None => None
        case Some(b) => Some(Delimited(b))
      else None
    case _ => EncodeNumber(f, v)
  }

  /** Each value behind a key of its own. */
  function EncodeTagged(f: Field, vs: seq<Value>): Option<Bytes>
    decreases f, 1, |vs|
  {
    if vs == [] then Some([]) else
    match (EncodeValue(f, vs[0]), EncodeTagged(f, vs[1..]))
    case (Some(b), Some(more)) => Some(Key(f.tag, f.ltype.WireType()) + b + more)
    case _ => None
  }

  /** The payload of a packed array. */
  function EncodePacked(f: Field, vs: seq<Value>): Option<Bytes>
    requires f.ltype.Packable()
  {
    if vs == [] then Some([]) else
    match (EncodeNumber(f, vs[0]), EncodePacked(f, vs[1..]))
    case (Some(b), Some(more)) => Some(b + more)
    case _ => None
  }

  function EncodeField(f: Field, vs: seq<Value>): Option<Bytes>
    decreases f, 2
  {
    if f.htype.Repeated? && |vs| > f.arraySize then None
    else if f.htype.Repeated? && f.ltype.Packable() && vs != [] then
      match EncodePacked(f, vs)
      case None => None
      case Some(b) => Some(Key(f.tag, 2) + Delimited(b))
    else EncodeTagged(f, vs)
  }

  /** The fields from one position on, in the order of the descriptor. */
  function EncodeFrom(fields: seq<Field>, m: Message, k: nat): Option<Bytes>
    requires |m.slots| == |fields| && k <= |fields|
    decreases fields, |fields| - k
  {
    if k == |fields| then Some([]) else
    match (EncodeField(fields[k], Present(fields[k], k, m)), EncodeFrom(fields, m, k + 1))
    case (Some(b), Some(more)) => Some(b + more)
    case _ => None
  }

  function Encode(fields: seq<Field>, m: Message): Option<Bytes>
    requires |m.slots| == |fields|
  {
    EncodeFrom(fields, m, 0)
  }
}
