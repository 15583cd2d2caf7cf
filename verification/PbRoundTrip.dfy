/** Decoding what was encoded. */
module PbRoundTrip {
  import opened Basics
  import opened Coding
  import opened PbTypes
  import opened PbEncoding
  import opened PbDecoding

  // ----- Keys, lengths and numbers -----

  lemma PowersOfTwo()
    ensures Pow(2, 7) == 0x80 && Pow(2, 14) == 0x4000 && Pow(2, 21) == 0x20_0000 && Pow(2, 28) == 0x1000_0000
  {
    assert Pow(2, 4) == 16;
    assert Pow(2, 10) == 0x400;
    assert Pow(2, 17) == 0x2_0000;
    assert Pow(2, 24) == 0x100_0000;
  }

  function GroupScale(bitpos: nat): nat
  {
    if bitpos == 7 then 0x80 else if bitpos == 14 then 0x4000 else if bitpos == 21 then 0x20_0000 else 0x1000_0000
  }

  lemma Shifted(bitpos: nat)
    requires bitpos == 7 || bitpos == 14 || bitpos == 21 || bitpos == 28
    ensures Pow(2, bitpos) == GroupScale(bitpos)
  {
    PowersOfTwo();
    hide Pow;
  }

  /** One group, where nothing is shifted out. */
  lemma GroupFits(low: nat, result: Word, bitpos: nat)
    requires bitpos == 7 || bitpos == 14 || bitpos == 21 || bitpos == 28
    requires low < 128 && result + low * GroupScale(bitpos) < TWO32
    ensures Group32(result, bitpos, low) == Done(result + low * GroupScale(bitpos))
    ensures bitpos < 28 ==> Group32(result, bitpos, low + 128) == More(result + low * GroupScale(bitpos))
  {
    Shifted(bitpos);
    TopGroup(low, result, bitpos);
    hide Pow, GroupScale;
    var next: Word := result + low * GroupScale(bitpos);
    assert next % TWO32 == next;
  }

  lemma TopGroup(low: nat, result: Word, bitpos: nat)
    requires result + low * GroupScale(bitpos) < TWO32
    ensures bitpos == 28 ==> low < 16
  {
  }

  lemma MoreVarint32Step(low: nat, result: Word, bitpos: nat, tail: Bytes)
    requires bitpos == 7 || bitpos == 14 || bitpos == 21
    requires low < 128 && result + low * GroupScale(bitpos) < TWO32
    ensures MoreVarint32(result, bitpos, [low + 128] + tail)
         == MoreVarint32(result + low * GroupScale(bitpos), bitpos + 7, tail)
  {
    GroupFits(low, result, bitpos);
    hide Group32, GroupScale;
    assert ([low + 128] + tail)[1..] == tail;
  }

  lemma MoreVarint32Last(low: nat, result: Word, bitpos: nat, rest: Bytes)
    requires bitpos == 7 || bitpos == 14 || bitpos == 21 || bitpos == 28
    requires low < 128 && result + low * GroupScale(bitpos) < TWO32
    ensures MoreVarint32(result, bitpos, [low] + rest) == Some(Parsed(result + low * GroupScale(bitpos), rest))
  {
    GroupFits(low, result, bitpos);
    hide Group32, GroupScale;
    assert ([low] + rest)[1..] == rest;
  }

  lemma SplitGroup(v: nat, scale: nat)
    ensures v * scale == v % 128 * scale + v / 128 * (128 * scale)
  {
    assert v == v % 128 + 128 * (v / 128);
  }

  lemma AtLeast(v: nat, scale: nat)
    requires v >= 1
    ensures v * scale >= scale
  {
  }

  lemma {:induction false} MoreVarint32RoundTrip(v: nat, result: Word, bitpos: nat, rest: Bytes)
    requires bitpos == 7 || bitpos == 14 || bitpos == 21 || bitpos == 28
    requires result + v * GroupScale(bitpos) < TWO32
    ensures MoreVarint32(result, bitpos, Varint(v) + rest) == Some(Parsed(result + v * GroupScale(bitpos), rest))
    decreases v
  {
    hide MoreVarint32;
    var scale := GroupScale(bitpos);
    if v < 128 {
      MoreVarint32Last(v, result, bitpos, rest);
    } else {
      SplitGroup(v, scale);
      AtLeast(v / 128, 128 * scale);
      assert bitpos < 28 && GroupScale(bitpos + 7) == 128 * scale;
      MoreVarint32Step(v % 128, result, bitpos, Varint(v / 128) + rest);
      MoreVarint32RoundTrip(v / 128, result + v % 128 * scale, bitpos + 7, rest);
      assert Varint(v) + rest == [v % 128 + 128] + (Varint(v / 128) + rest);
    }
  }

  lemma Varint32RoundTrip(v: Word, rest: Bytes)
    ensures DecodeVarint32(Varint(v) + rest) == Some(Parsed(v, rest))
  {
    hide MoreVarint32;
    var all := Varint(v) + rest;
    if v < 128 {
      assert all[1..] == rest;
    } else {
      MoreVarint32RoundTrip(v / 128, v % 128, 7, rest);
      assert all[0] == v % 128 + 128 && all[1..] == Varint(v / 128) + rest;
    }
  }

  lemma DelimitedRoundTrip(b: Bytes, rest: Bytes)
    requires |b| < TWO32
    ensures TakeDelimited(Delimited(b) + rest) == Some(Parsed(b, rest))
  {
    assert Delimited(b) + rest == Varint(|b|) + (b + rest);
    Varint32RoundTrip(|b|, b + rest);
  }

  lemma ZigzagRoundTrip(n: int)
    requires -0x8000_0000_0000_0000 <= n < 0x8000_0000_0000_0000
    ensures Zigzag(n) < TWO64 && Unzigzag(Zigzag(n)) == n
  {
  }

  lemma FixedFieldRoundTrip(n: nat, size: nat, rest: Bytes)
    requires n < Pow(256, size)
    ensures FromFixed((Fixed(n, size) + rest)[..size]) == n && (Fixed(n, size) + rest)[size..] == rest
  {
    FixedRoundTrip(n, size);
    assert (Fixed(n, size) + rest)[..size] == Fixed(n, size);
  }

  lemma SignedOfSmall(n: int, size: nat)
    requires -(Modulus(size) / 2) <= n < Modulus(size) / 2
    ensures Signed(n, size) == n
  {
  }

  /** The casts to 64 bits and to a signed type undo each other. */
  lemma SignedUndoesCast(n: int, size: nat)
    requires size == 4 || size == 8
    requires -(Modulus(size) / 2) <= n < Modulus(size) / 2
    ensures Signed(n % TWO64, size) == n
  {
    if n >= 0 {
      assert n % TWO64 == n;
    } else {
      assert n % TWO64 == n + TWO64;
      if size == 4 {
        assert n + TWO64 == (n + TWO32) + (TWO32 - 1) * TWO32;
      }
    }
  }

  /** The casts undo each other within the range of the field. */
  lemma StoreUndoesCast(f: Field, n: int)
    requires f.ltype.VarintType? || f.ltype.UVarintType?
    requires InRange(f, n) && IntegerSize(f.dataSize)
    ensures StoreNumber(f, n % TWO64) == Some(Number(n))
  {
    if f.ltype.VarintType? {
      SignedUndoesCast(n, if f.dataSize == 8 then 8 else 4);
      SignedOfSmall(n, f.dataSize);
      hide Signed;
    } else {
      assert n % TWO64 == n;
    }
  }

  lemma StoreUndoesZigzag(f: Field, n: int)
    requires f.ltype.SVarintType? && InRange(f, n) && IntegerSize(f.dataSize)
    ensures Zigzag(n) < TWO64 && StoreNumber(f, Zigzag(n)) == Some(Number(n))
  {
    ZigzagRoundTrip(n);
    SignedOfSmall(n, f.dataSize);
    hide Zigzag, Unzigzag, Signed;
  }

  lemma FixedNumberRoundTrip(f: Field, n: nat, rest: Bytes)
    requires f.ltype.Fixed32Type? || f.ltype.Fixed64Type?
    requires InRange(f, n)
    ensures DecodeNumber(f, EncodeNumber(f, Number(n)).value + rest) == Some(Parsed(Number(n), rest))
  {
    PowersOf256();
    hide Pow, Fixed, FromFixed;
    FixedFieldRoundTrip(n, if f.ltype.Fixed32Type? then 4 else 8, rest);
  }

  lemma VarintNumberRoundTrip(f: Field, n: int, rest: Bytes)
    requires f.ltype.VarintType? || f.ltype.UVarintType? || f.ltype.SVarintType?
    requires InRange(f, n) && IntegerSize(f.dataSize)
    ensures DecodeNumber(f, EncodeNumber(f, Number(n)).value + rest) == Some(Parsed(Number(n), rest))
  {
    hide Varint, GetVarint64, StoreNumber, Zigzag;
    if f.ltype.SVarintType? {
      StoreUndoesZigzag(f, n);
      Varint64RoundTrip(Zigzag(n), rest);
    } else {
      StoreUndoesCast(f, n);
      Varint64RoundTrip(n % TWO64, rest);
    }
  }

  /** A number in range survives the cast to 64 bits, the wire and the cast back. */
  lemma NumberRoundTrip(f: Field, v: Value, rest: Bytes)
    requires f.ltype.Packable() && v.Number? && InRange(f, v.n) && EncodeNumber(f, v).Some?
    ensures DecodeNumber(f, EncodeNumber(f, v).value + rest) == Some(Parsed(v, rest))
  {
    hide Varint, Fixed, DecodeNumber;
    if f.ltype.Fixed32Type? || f.ltype.Fixed64Type? {
      FixedNumberRoundTrip(f, v.n, rest);
    } else {
      VarintNumberRoundTrip(f, v.n, rest);
    }
  }

  lemma NumberIsNotEmpty(f: Field, v: Value)
    requires f.ltype.Packable() && EncodeNumber(f, v).Some?
    ensures EncodeNumber(f, v).value != []
  {
    hide Varint, Fixed;
  }

  /** A packed array is read back entry by entry. */
  lemma {:induction false} PackedRoundTrip(f: Field, items: seq<Value>, vs: seq<Value>)
    requires f.ltype.Packable() && |items| + |vs| <= f.arraySize
    requires forall j :: 0 <= j < |vs| ==> vs[j].Number? && InRange(f, vs[j].n)
    requires EncodePacked(f, vs).Some?
    ensures DecodePacked(f, items, EncodePacked(f, vs).value) == Some(items + vs)
    decreases |vs|
  {
    hide EncodeNumber, DecodeNumber, InRange;
    if vs == [] {
      assert items + vs == items;
    } else {
      NumberRoundTrip(f, vs[0], EncodePacked(f, vs[1..]).value);
      NumberIsNotEmpty(f, vs[0]);
      PackedRoundTrip(f, items + [vs[0]], vs[1..]);
      assert items + [vs[0]] + vs[1..] == items + vs;
    }
  }

  // ----- What decoding gives -----

  /** A string comes back without what followed its end. */
  function CanonValue(f: Field, v: Value): Value
    decreases f, 0
  {
    match f.ltype
    case StringType => if v.Blob? then Blob(Text(f, v.bytes)) else v
    case SubmessageType(fs) =>
      if v.Nested? && |v.message.slots| == |fs| then Nested(After(fs, v.message, |fs|)) else v
    case _ => v
  }

  function CanonAll(f: Field, vs: seq<Value>): (r: seq<Value>)
    ensures |r| == |vs|
    decreases f, 1
  {
    seq(|vs|, j requires 0 <= j < |vs| => CanonValue(f, vs[j]))
  }

  function StoreAll(f: Field, i: nat, m: Message, vs: seq<Value>): (r: Message)
    requires i < |m.slots|
    ensures |r.slots| == |m.slots|
    decreases |vs|
  {
    if vs == [] then m else StoreAll(f, i, Stored(f, i, m, vs[0]), vs[1..])
  }

  /** Defaults, overwritten by what the first fields hold. */
  function After(fields: seq<Field>, m: Message, k: nat): (r: Message)
    requires |m.slots| == |fields| && k <= |fields|
    ensures |r.slots| == |fields|
    decreases fields, k
  {
    if k == 0 then Defaults(fields)
    else StoreAll(fields[k - 1], k - 1, After(fields, m, k - 1), CanonAll(fields[k - 1], Present(fields[k - 1], k - 1, m)))
  }

  /** The decoder wants room for a terminator, which the encoder does not. */
  ghost predicate Terminated(f: Field, v: Value)
    decreases f, 0
  {
    match f.ltype
    case StringType => v.Blob? && TextLength(v.bytes, f.dataSize) < f.dataSize
    case SubmessageType(fs) => v.Nested? && |v.message.slots| == |fs| && AllTerminated(fs, v.message, 0)
    case _ => true
  }

  /** Every string present from one field on leaves room for its terminator. */
  ghost predicate AllTerminated(fields: seq<Field>, m: Message, k: nat)
    requires |m.slots| == |fields| && k <= |fields|
    decreases fields, |fields| - k
  {
    k < |fields| ==> EachTerminated(fields[k], Present(fields[k], k, m)) && AllTerminated(fields, m, k + 1)
  }

  ghost predicate EachTerminated(f: Field, vs: seq<Value>)
    decreases f, 1, |vs|
  {
    vs != [] ==> Terminated(f, vs[0]) && EachTerminated(f, vs[1..])
  }

  // ----- One value -----

  ghost predicate Encodable(f: Field, v: Value) {
    FieldWellFormed(f) && Fits(f, v) && EncodeValue(f, v).Some? && |EncodeValue(f, v).value| < TWO32
  }

  ghost function Decoded(f: Field, v: Value, rest: Bytes): Option<Parsed<Value>> {
    if Terminated(f, v) then Some(Parsed(CanonValue(f, v), rest)) else None
  }

  /** What is read behind the length of a delimited value. */
  lemma DelimitedValueRoundTrip(f: Field, was: Value, payload: Bytes, rest: Bytes)
    requires !f.ltype.Packable() && |payload| < TWO32
    ensures DecodeValue(f, was, Delimited(payload) + rest)
         == match DecodePayload(f, was, payload) case None => None case Some(v) => Some(Parsed(v, rest))
  {
    DelimitedRoundTrip(payload, rest);
    hide Delimited, DecodePayload, TakeDelimited;
  }

  ghost function Payload(f: Field, v: Value): Bytes
    requires !f.ltype.Packable() && EncodeValue(f, v).Some?
  {
    match f.ltype
    case BytesType | FixedBytesType => v.bytes
    case StringType => Text(f, v.bytes)
    case SubmessageType(fs) => EncodeFrom(fs, v.message, 0).value
  }

  lemma {:induction false} PayloadRoundTrip(f: Field, was: Value, v: Value)
    requires Encodable(f, v) && !f.ltype.Packable()
    requires f.ltype.SubmessageType? && !f.htype.Repeated? ==> was == DefaultValue(f)
    ensures DecodePayload(f, was, Payload(f, v)) == if Terminated(f, v) then Some(CanonValue(f, v)) else None
    decreases f, 0
  {
    match f.ltype
    case BytesType =>
    case StringType =>
    case FixedBytesType =>
      assert v.bytes == [] ==> v.bytes == Zeros(f.dataSize);
    case SubmessageType(fs) =>
      MessageRoundTrip(fs, v.message);
      assert Inner(fs, DefaultValue(f)) == Defaults(fs);
      hide DecodeInto, EncodeFrom, AllTerminated, After, MessageFits, WellFormed;
  }

  lemma {:induction false} ValueRoundTrip(f: Field, was: Value, v: Value, rest: Bytes)
    requires Encodable(f, v)
    requires f.ltype.SubmessageType? && !f.htype.Repeated? ==> was == DefaultValue(f)
    ensures DecodeValue(f, was, EncodeValue(f, v).value + rest) == Decoded(f, v, rest)
    decreases f, 1
  {
    if f.ltype.Packable() {
      NumberRoundTrip(f, v, rest);
    } else {
      PayloadRoundTrip(f, was, v);
      DelimitedValueRoundTrip(f, was, Payload(f, v), rest);
      assert EncodeValue(f, v).value == Delimited(Payload(f, v));
    }
  }

  // ----- One record -----

  ghost predicate KnownUnions(fields: seq<Field>, m: Message) {
    forall g <- m.unions :: Index(fields, m.unions[g].tag) < |fields|
  }

  lemma DistinctIndex(fields: seq<Field>, k: nat)
    requires WellFormed(fields) && k < |fields|
    ensures Index(fields, fields[k].tag) == k
  {
  }

  /** Where a value of a field can be put. */
  ghost predicate Ready(fields: seq<Field>, k: nat, m: Message) {
    k < |fields| == |m.slots| && KnownUnions(fields, m) &&
    (fields[k].htype.Repeated? ==> |Items(m, k)| < fields[k].arraySize) &&
    (!fields[k].htype.Repeated? && !fields[k].htype.OneOf? ==> Current(m, k) == DefaultValue(fields[k]))
  }

  ghost function Seen(fields: seq<Field>, k: nat, seen: set<nat>): set<nat>
    requires k < |fields|
  {
    if fields[k].htype.Required? then seen + {k} else seen
  }

  lemma KeyRoundTrip(fields: seq<Field>, k: nat, s: State, wireType: nat, input: Bytes)
    requires WellFormed(fields) && k < |fields| == |s.m.slots| && wireType < 8
    ensures DecodeFields(fields, s, Key(fields[k].tag, wireType) + input)
         == match DecodeField(fields, k, wireType, s.m, input)
            case None => None
            case Some(p) => DecodeFields(fields, State(p.value, Seen(fields, k, s.seen)), p.rest)
  {
    var tag := fields[k].tag;
    assert FieldWellFormed(fields[k]);
    DistinctIndex(fields, k);
    Varint32RoundTrip(tag * 8 + wireType, input);
    assert (tag * 8 + wireType) / 8 == tag && (tag * 8 + wireType) % 8 == wireType;
  }

  lemma {:induction false} RecordRoundTrip(fields: seq<Field>, k: nat, s: State, v: Value, rest: Bytes)
    requires WellFormed(fields) && Ready(fields, k, s.m) && Encodable(fields[k], v)
    requires !(fields[k].htype.Repeated? && fields[k].ltype.Packable())
    ensures DecodeFields(fields, s, Key(fields[k].tag, fields[k].ltype.WireType()) + EncodeValue(fields[k], v).value + rest)
         == if Terminated(fields[k], v)
            then DecodeFields(fields, State(Stored(fields[k], k, s.m, CanonValue(fields[k], v)), Seen(fields, k, s.seen)), rest)
            else None
    decreases fields, 0, 0
  {
    var f := fields[k];
    var w := f.ltype.WireType();
    var e := EncodeValue(f, v).value;
    assert Key(f.tag, w) + e + rest == Key(f.tag, w) + (e + rest);
    KeyRoundTrip(fields, k, s, w, e + rest);
    var was := if f.htype.OneOf? || f.htype.Repeated? then DefaultValue(f) else Current(s.m, k);
    ValueRoundTrip(f, was, v, rest);
    hide DecodeFields, DecodeValue, EncodeValue, CanonValue, Terminated, Key, DefaultValue;
  }

  lemma StoredIsReady(fields: seq<Field>, k: nat, m: Message, v: Value)
    requires WellFormed(fields) && k < |fields| == |m.slots| && KnownUnions(fields, m)
    ensures KnownUnions(fields, Stored(fields[k], k, m, v))
    ensures fields[k].htype.Repeated? ==> |Items(Stored(fields[k], k, m, v), k)| == |Items(m, k)| + 1
  {
    DistinctIndex(fields, k);
  }

  /** All values of a field, each behind its key. */
  lemma {:induction false} TaggedRoundTrip(fields: seq<Field>, k: nat, s: State, vs: seq<Value>, rest: Bytes)
    requires WellFormed(fields) && k < |fields| == |s.m.slots| && KnownUnions(fields, s.m)
    requires vs != [] ==> Ready(fields, k, s.m)
    requires if fields[k].htype.Repeated? then |Items(s.m, k)| + |vs| <= fields[k].arraySize else |vs| <= 1
    requires !(fields[k].htype.Repeated? && fields[k].ltype.Packable())
    requires EncodeTagged(fields[k], vs).Some? && |EncodeTagged(fields[k], vs).value| < TWO32
    requires forall j :: 0 <= j < |vs| ==> Fits(fields[k], vs[j])
    ensures DecodeFields(fields, s, EncodeTagged(fields[k], vs).value + rest)
         == if EachTerminated(fields[k], vs)
            then DecodeFields(fields, State(StoreAll(fields[k], k, s.m, CanonAll(fields[k], vs)), if vs == [] then s.seen else Seen(fields, k, s.seen)), rest)
            else None
    decreases fields, 1, |vs|
  {
    var f := fields[k];
    if vs == [] {
      assert EncodeTagged(f, vs).value + rest == rest;
    } else {
      var v, more := vs[0], vs[1..];
      var e := EncodeValue(f, v).value;
      var key := Key(f.tag, f.ltype.WireType());
      var tail := EncodeTagged(f, more).value;
      assert EncodeTagged(f, vs).value + rest == key + e + (tail + rest);
      assert FieldWellFormed(f);
      RecordRoundTrip(fields, k, s, v, tail + rest);
      if Terminated(f, v) {
        var next := State(Stored(f, k, s.m, CanonValue(f, v)), Seen(fields, k, s.seen));
        StoredIsReady(fields, k, s.m, CanonValue(f, v));
        TaggedRoundTrip(fields, k, next, more, rest);
        assert CanonAll(f, vs)[0] == CanonValue(f, v) && CanonAll(f, vs)[1..] == CanonAll(f, more);
        assert Seen(fields, k, next.seen) == next.seen;
      }
    }
  }

  // ----- One field -----

  lemma {:induction false} StoreAllRepeated(f: Field, i: nat, m: Message, vs: seq<Value>)
    requires f.htype.Repeated? && i < |m.slots| && vs != []
    ensures StoreAll(f, i, m, vs) == SetSlot(m, i, Many(Items(m, i) + vs))
    decreases |vs|
  {
    var next := Stored(f, i, m, vs[0]);
    if |vs| > 1 {
      StoreAllRepeated(f, i, next, vs[1..]);
      assert Items(m, i) + [vs[0]] + vs[1..] == Items(m, i) + vs;
    } else {
      assert vs == [vs[0]];
    }
  }

  lemma {:induction false} StoreAllKeeps(fields: seq<Field>, k: nat, m: Message, vs: seq<Value>)
    requires WellFormed(fields) && k < |fields| == |m.slots| && KnownUnions(fields, m)
    ensures var r := StoreAll(fields[k], k, m, vs);
      KnownUnions(fields, r) && forall i :: 0 <= i < |fields| && i != k ==> r.slots[i] == m.slots[i]
    decreases |vs|
  {
    if vs != [] {
      StoredIsReady(fields, k, m, vs[0]);
      StoreAllKeeps(fields, k, Stored(fields[k], k, m, vs[0]), vs[1..]);
    }
  }

  /** Fields not reached yet are as the defaults left them. */
  lemma {:induction false} AfterKeeps(fields: seq<Field>, m: Message, k: nat)
    requires WellFormed(fields) && |m.slots| == |fields| && k <= |fields|
    ensures KnownUnions(fields, After(fields, m, k))
    ensures forall i :: k <= i < |fields| ==> After(fields, m, k).slots[i] == DefaultSlot(fields[i])
    decreases k
  {
    if k > 0 {
      AfterKeeps(fields, m, k - 1);
      StoreAllKeeps(fields, k - 1, After(fields, m, k - 1), CanonAll(fields[k - 1], Present(fields[k - 1], k - 1, m)));
    }
  }

  ghost function SeenIf(fields: seq<Field>, k: nat, vs: seq<Value>, seen: set<nat>): set<nat>
    requires k < |fields|
  {
    if vs == [] then seen else Seen(fields, k, seen)
  }

  ghost predicate FieldStep(fields: seq<Field>, m: Message, k: nat, seen: set<nat>, rest: Bytes)
    requires |m.slots| == |fields| && k < |fields|
  {
    var vs := Present(fields[k], k, m);
    EncodeField(fields[k], vs).Some? &&
    DecodeFields(fields, State(After(fields, m, k), seen), EncodeField(fields[k], vs).value + rest)
      == if EachTerminated(fields[k], vs)
         then DecodeFields(fields, State(After(fields, m, k + 1), SeenIf(fields, k, vs, seen)), rest)
         else None
  }

  lemma PackedFieldRoundTrip(fields: seq<Field>, m: Message, k: nat, seen: set<nat>, rest: Bytes)
    requires WellFormed(fields) && MessageFits(fields, m) && k < |fields|
    requires EncodeField(fields[k], Present(fields[k], k, m)).Some?
    requires |EncodeField(fields[k], Present(fields[k], k, m)).value| < TWO32
    requires fields[k].htype.Repeated? && fields[k].ltype.Packable() && Present(fields[k], k, m) != []
    ensures FieldStep(fields, m, k, seen, rest)
  {
    var f, vs := fields[k], Present(fields[k], k, m);
    var s := State(After(fields, m, k), seen);
    AfterKeeps(fields, m, k);
    var b := EncodePacked(f, vs).value;
    assert Key(f.tag, 2) + Delimited(b) + rest == Key(f.tag, 2) + (Delimited(b) + rest);
    KeyRoundTrip(fields, k, s, 2, Delimited(b) + rest);
    DelimitedRoundTrip(b, rest);
    assert SlotFits(f, k, m);
    PackedRoundTrip(f, [], vs);
    PackableIsCanonical(f, vs);
    StoreAllRepeated(f, k, s.m, vs);
  }

  lemma {:induction false} PackableIsCanonical(f: Field, vs: seq<Value>)
    requires f.ltype.Packable()
    ensures CanonAll(f, vs) == vs && EachTerminated(f, vs)
    decreases |vs|
  {
    if vs != [] {
      PackableIsCanonical(f, vs[1..]);
    }
  }

  lemma FieldRoundTrip(fields: seq<Field>, m: Message, k: nat, seen: set<nat>, rest: Bytes)
    requires WellFormed(fields) && MessageFits(fields, m) && k < |fields|
    requires EncodeField(fields[k], Present(fields[k], k, m)).Some?
    requires |EncodeField(fields[k], Present(fields[k], k, m)).value| < TWO32
    ensures FieldStep(fields, m, k, seen, rest)
    decreases fields, 2
  {
    var f, vs := fields[k], Present(fields[k], k, m);
    if f.htype.Repeated? && f.ltype.Packable() && vs != [] {
      PackedFieldRoundTrip(fields, m, k, seen, rest);
    } else if vs == [] {
      assert EncodeField(f, vs).value + rest == rest;
      assert CanonAll(f, vs) == [];
    } else {
      AfterKeeps(fields, m, k);
      assert SlotFits(f, k, m);
      TaggedRoundTrip(fields, k, State(After(fields, m, k), seen), vs, rest);
    }
  }

  // ----- Messages -----

  ghost function RequiredFrom(fields: seq<Field>, k: nat): set<nat> {
    set i | k <= i < |fields| && fields[i].htype.Required?
  }

  lemma SeenStep(fields: seq<Field>, m: Message, k: nat, seen: set<nat>)
    requires MessageFits(fields, m) && k < |fields|
    ensures SeenIf(fields, k, Present(fields[k], k, m), seen) + RequiredFrom(fields, k + 1) == seen + RequiredFrom(fields, k)
  {
    assert SlotFits(fields[k], k, m);
  }

  lemma NoBytesLeft(fields: seq<Field>, s: State)
    requires |s.m.slots| == |fields|
    ensures DecodeFields(fields, s, []) == Some(s)
  {
  }

  lemma {:induction false} FieldsRoundTrip(fields: seq<Field>, m: Message, k: nat, seen: set<nat>)
    requires WellFormed(fields) && MessageFits(fields, m) && k <= |fields|
    requires EncodeFrom(fields, m, k).Some? && |EncodeFrom(fields, m, k).value| < TWO32
    ensures DecodeFields(fields, State(After(fields, m, k), seen), EncodeFrom(fields, m, k).value)
         == if AllTerminated(fields, m, k)
            then Some(State(After(fields, m, |fields|), seen + RequiredFrom(fields, k)))
            else None
    decreases fields, 3, |fields| - k
  {
    hide DecodeFields, EncodeField, Present, EachTerminated, After, SeenIf, SlotFits, WellFormed;
    if k < |fields| {
      var vs := Present(fields[k], k, m);
      var rest := EncodeFrom(fields, m, k + 1).value;
      FieldRoundTrip(fields, m, k, seen, rest);
      if EachTerminated(fields[k], vs) {
        SeenStep(fields, m, k, seen);
        FieldsRoundTrip(fields, m, k + 1, SeenIf(fields, k, vs, seen));
      }
    } else {
      NoBytesLeft(fields, State(After(fields, m, k), seen));
      assert seen + RequiredFrom(fields, k) == seen;
    }
  }

  lemma {:induction false} MessageRoundTrip(fields: seq<Field>, m: Message)
    requires WellFormed(fields) && MessageFits(fields, m)
    requires EncodeFrom(fields, m, 0).Some? && |EncodeFrom(fields, m, 0).value| < TWO32
    ensures Decode(fields, EncodeFrom(fields, m, 0).value)
         == if AllTerminated(fields, m, 0) then Some(After(fields, m, |fields|)) else None
    decreases fields, 4
  {
    FieldsRoundTrip(fields, m, 0, {});
  }
}
