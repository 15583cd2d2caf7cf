/** What decoding any bytes can do to a message: everything stays within the memory the descriptor
    gives it, and unknown fields change nothing. */
module PbBounds {
  import opened Basics
  import opened Coding
  import opened PbTypes
  import opened PbEncoding
  import opened PbDecoding
  import opened PbRoundTrip

  // ----- Within bounds -----

  /** The value fits the bytes of its field, a text with its terminator. */
  ghost predicate ValueInBounds(f: Field, v: Value)
    decreases f, 0
  {
    match f.ltype
    case BytesType => v.Blob? && BYTES_HEADER + |v.bytes| <= f.dataSize
    case StringType => v.Blob? && |v.bytes| < f.dataSize
    case FixedBytesType => v.Blob? && |v.bytes| == f.dataSize
    case SubmessageType(fs) => v.Nested? && InBounds(fs, v.message)
    case _ => v.Number? && InRange(f, v.n)
  }

  /** Arrays hold at most their number of entries, and a union its chosen member. */
  ghost predicate SlotInBounds(f: Field, i: nat, m: Message)
    requires i < |m.slots|
    decreases f, 1
  {
    var s := m.slots[i];
    match f.htype
    case Required | Singular => s.One? && ValueInBounds(f, s.value)
    case Optional => s.Maybe? && ValueInBounds(f, s.value)
    case Repeated => s.Many? && |s.items| <= f.arraySize && forall j :: 0 <= j < |s.items| ==> ValueInBounds(f, s.items[j])
    case OneOf(g) => s.InUnion? && (Chosen(m, g, f.tag) ==> ValueInBounds(f, m.unions[g].value))
  }

  ghost predicate InBounds(fields: seq<Field>, m: Message)
    decreases fields
  {
    |m.slots| == |fields| && forall i :: 0 <= i < |fields| ==> SlotInBounds(fields[i], i, m)
  }

  /** Descriptors whose default values fit, at every depth. */
  ghost predicate DefaultsFit(fields: seq<Field>)
    decreases fields
  {
    forall i :: 0 <= i < |fields| ==> DefaultFits(fields[i])
  }

  ghost predicate DefaultFits(f: Field)
    decreases f
  {
    if f.ltype.SubmessageType? then DefaultsFit(f.ltype.fields) else ValueInBounds(f, DefaultValue(f))
  }

  lemma {:induction false} DefaultValueInBounds(f: Field)
    requires DefaultFits(f)
    ensures ValueInBounds(f, DefaultValue(f))
    decreases f
  {
    if f.ltype.SubmessageType? {
      DefaultsInBounds(f.ltype.fields);
    }
  }

  lemma {:induction false} DefaultsInBounds(fields: seq<Field>)
    requires DefaultsFit(fields)
    ensures InBounds(fields, Defaults(fields))
    decreases fields
  {
    forall i | 0 <= i < |fields| ensures SlotInBounds(fields[i], i, Defaults(fields)) {
      DefaultValueInBounds(fields[i]);
    }
  }

  // ----- Decoding stays within -----

  lemma SignedInRange(n: int, size: nat)
    requires IntegerSize(size) && Signed(n, size) == n
    ensures -(Modulus(size) / 2) <= n < Modulus(size) / 2
  {
  }

  lemma StoredInRange(f: Field, v: nat)
    requires f.ltype.VarintType? || f.ltype.UVarintType? || f.ltype.SVarintType?
    ensures StoreNumber(f, v).Some? ==> ValueInBounds(f, StoreNumber(f, v).value)
  {
    if StoreNumber(f, v).Some? {
      var n := StoreNumber(f, v).value.n;
      if f.ltype.UVarintType? {
        assert v % Modulus(f.dataSize) < Modulus(f.dataSize);
      } else {
        SignedInRange(n, f.dataSize);
      }
      hide Signed, Unzigzag;
    }
  }

  lemma NumberInBounds(f: Field, input: Bytes)
    requires f.ltype.Packable()
    ensures DecodeNumber(f, input).Some? ==> ValueInBounds(f, DecodeNumber(f, input).value.value)
  {
    if DecodeNumber(f, input).Some? {
      if f.ltype.Fixed32Type? || f.ltype.Fixed64Type? {
        FixedIsBounded(input[..if f.ltype.Fixed32Type? then 4 else 8]);
        PowersOf256();
        hide Pow, FromFixed;
      } else {
        hide StoreNumber, ValueInBounds;
        StoredInRange(f, GetVarint64(input).value.value);
      }
    }
  }

  lemma {:induction false} PackedInBounds(f: Field, items: seq<Value>, input: Bytes)
    requires f.ltype.Packable() && |items| <= f.arraySize
    requires forall j :: 0 <= j < |items| ==> ValueInBounds(f, items[j])
    ensures DecodePacked(f, items, input).Some? ==>
      var r := DecodePacked(f, items, input).value;
      |r| <= f.arraySize && forall j :: 0 <= j < |r| ==> ValueInBounds(f, r[j])
    decreases |input|
  {
    hide DecodeNumber, ValueInBounds;
    if input != [] && |items| < f.arraySize && DecodeNumber(f, input).Some? {
      var p := DecodeNumber(f, input).value;
      NumberInBounds(f, input);
      PackedInBounds(f, items + [p.value], p.rest);
    }
  }

  lemma {:induction false} PayloadInBounds(f: Field, was: Value, payload: Bytes)
    requires !f.ltype.Packable() && FieldWellFormed(f) && DefaultFits(f)
    requires f.ltype.SubmessageType? && was.Nested? ==> InBounds(f.ltype.fields, was.message)
    ensures DecodePayload(f, was, payload).Some? ==> ValueInBounds(f, DecodePayload(f, was, payload).value)
    decreases f, |payload|, 1
  {
    if f.ltype.SubmessageType? {
      var fs := f.ltype.fields;
      DefaultsInBounds(fs);
      DecodedInBounds(fs, if f.htype.Repeated? then Defaults(fs) else Inner(fs, was), payload);
      hide DecodeInto, InBounds, WellFormed, DefaultsFit;
    }
  }

  lemma {:induction false} DecodeValueInBounds(f: Field, was: Value, input: Bytes)
    requires FieldWellFormed(f) && DefaultFits(f)
    requires f.ltype.SubmessageType? && was.Nested? ==> InBounds(f.ltype.fields, was.message)
    ensures DecodeValue(f, was, input).Some? ==> ValueInBounds(f, DecodeValue(f, was, input).value.value)
    decreases f, |input|, 2
  {
    hide DecodeNumber, DecodePayload, ValueInBounds, FieldWellFormed, DefaultFits, InBounds;
    if f.ltype.Packable() {
      NumberInBounds(f, input);
    } else if TakeDelimited(input).Some? {
      PayloadInBounds(f, was, TakeDelimited(input).value.value);
    }
  }

  lemma OtherSlots(fields: seq<Field>, i: nat, m: Message, m': Message)
    requires WellFormed(fields) && InBounds(fields, m) && i < |fields| == |m'.slots|
    requires forall k :: 0 <= k < |fields| && k != i ==> m'.slots[k] == m.slots[k]
    requires m'.unions == m.unions || (fields[i].htype.OneOf? && exists v :: m'.unions == m.unions[fields[i].htype.group := Choice(fields[i].tag, v)])
    requires SlotInBounds(fields[i], i, m')
    ensures InBounds(fields, m')
  {
    forall k | 0 <= k < |fields| ensures SlotInBounds(fields[k], k, m') {
      if k != i {
        assert SlotInBounds(fields[k], k, m);
        assert fields[k].tag != fields[i].tag;
      }
    }
  }

  lemma StoredInBounds(fields: seq<Field>, i: nat, m: Message, v: Value)
    requires WellFormed(fields) && InBounds(fields, m) && i < |fields| && ValueInBounds(fields[i], v)
    requires fields[i].htype.Repeated? ==> |Items(m, i)| < fields[i].arraySize
    ensures InBounds(fields, Stored(fields[i], i, m, v))
  {
    var f, m' := fields[i], Stored(fields[i], i, m, v);
    assert SlotInBounds(f, i, m);
    hide ValueInBounds, InBounds, WellFormed;
    assert SlotInBounds(f, i, m');
    OtherSlots(fields, i, m, m');
  }

  lemma PackedSlotInBounds(fields: seq<Field>, i: nat, m: Message, items: seq<Value>)
    requires WellFormed(fields) && InBounds(fields, m) && i < |fields| && fields[i].htype.Repeated?
    requires |items| <= fields[i].arraySize && forall j :: 0 <= j < |items| ==> ValueInBounds(fields[i], items[j])
    ensures InBounds(fields, SetSlot(m, i, Many(items)))
  {
    hide ValueInBounds, WellFormed;
    OtherSlots(fields, i, m, SetSlot(m, i, Many(items)));
  }

  lemma {:induction false} FieldInBounds(fields: seq<Field>, i: nat, wireType: nat, m: Message, input: Bytes)
    requires WellFormed(fields) && DefaultsFit(fields) && InBounds(fields, m) && i < |fields|
    ensures DecodeField(fields, i, wireType, m, input).Some? ==> InBounds(fields, DecodeField(fields, i, wireType, m, input).value.value)
    decreases fields, |input|, 1
  {
    var f := fields[i];
    assert FieldWellFormed(f) && DefaultFits(f) && SlotInBounds(f, i, m);
    if f.htype.Repeated? && wireType == 2 && f.ltype.Packable() {
      if TakeDelimited(input).Some? {
        var payload := TakeDelimited(input).value.value;
        PackedInBounds(f, Items(m, i), payload);
        hide DecodePacked, ValueInBounds, InBounds, WellFormed, DefaultsFit, TakeDelimited;
        if DecodePacked(f, Items(m, i), payload).Some? {
          PackedSlotInBounds(fields, i, m, DecodePacked(f, Items(m, i), payload).value);
        }
      }
    } else if !(f.htype.Repeated? && |Items(m, i)| >= f.arraySize) && !UnionBroken(fields, i, m) {
      SingleInBounds(fields, i, wireType, m, input);
    }
  }

  lemma {:induction false} SingleInBounds(fields: seq<Field>, i: nat, wireType: nat, m: Message, input: Bytes)
    requires WellFormed(fields) && DefaultsFit(fields) && InBounds(fields, m) && i < |fields|
    requires !(fields[i].htype.Repeated? && wireType == 2 && fields[i].ltype.Packable())
    requires !(fields[i].htype.Repeated? && |Items(m, i)| >= fields[i].arraySize) && !UnionBroken(fields, i, m)
    ensures DecodeField(fields, i, wireType, m, input).Some? ==> InBounds(fields, DecodeField(fields, i, wireType, m, input).value.value)
    decreases fields, |input|, 0
  {
    var f := fields[i];
    assert FieldWellFormed(f) && DefaultFits(f) && SlotInBounds(f, i, m);
    var was := if f.htype.OneOf? || f.htype.Repeated? then DefaultValue(f) else Current(m, i);
    assert DecodeField(fields, i, wireType, m, input) == DecodeSingle(f, i, m, input);
    DefaultValueInBounds(f);
    assert ValueInBounds(f, was);
    DecodeValueInBounds(f, was, input);
    hide DecodeField, InBounds, WellFormed, DefaultsFit;
    if DecodeValue(f, was, input).Some? {
      StoredInBounds(fields, i, m, DecodeValue(f, was, input).value.value);
    }
  }

  lemma {:induction false} FieldsInBounds(fields: seq<Field>, s: State, input: Bytes)
    requires WellFormed(fields) && DefaultsFit(fields) && InBounds(fields, s.m)
    ensures DecodeFields(fields, s, input).Some? ==> InBounds(fields, DecodeFields(fields, s, input).value.m)
    decreases fields, |input|, 2
  {
    hide DecodeField, InBounds, WellFormed, DefaultsFit, DecodeVarint32, Skip;
    Sized(fields, s.m);
    if input != [] && DecodeVarint32(input).Some? && DecodeVarint32(input).value.value != 0 {
      var key := DecodeVarint32(input).value;
      var i := Index(fields, key.value / 8);
      if i < |fields| {
        FieldInBounds(fields, i, key.value % 8, s.m, key.rest);
      }
      var r := DecodeRecord(fields, s, key.value, key.rest);
      if r.Some? {
        FieldsInBounds(fields, r.value.value, r.value.rest);
      }
    }
  }

  lemma Sized(fields: seq<Field>, m: Message)
    requires InBounds(fields, m)
    ensures |m.slots| == |fields|
  {
  }

  /** Whatever bytes are decoded, a message within its bounds stays within them: texts and bytes
      fit their buffers, arrays their entries, numbers their types, at every depth. */
  lemma {:induction false} DecodedInBounds(fields: seq<Field>, m: Message, input: Bytes)
    requires WellFormed(fields) && DefaultsFit(fields) && InBounds(fields, m)
    ensures DecodeInto(fields, m, input).Some? ==> InBounds(fields, DecodeInto(fields, m, input).value)
    decreases fields, |input|, 3
  {
    Sized(fields, m);
    hide InBounds, WellFormed, DefaultsFit, RequiredSeen;
    FieldsInBounds(fields, State(m, {}), input);
  }

  // ----- Unknown fields -----

  ghost predicate IsVarint(b: Bytes) {
    b != [] && b[|b| - 1] < 128 && forall i :: 0 <= i < |b| - 1 ==> b[i] >= 128
  }

  /** The bytes of one value of a wire type. */
  ghost predicate WireValue(wireType: nat, b: Bytes) {
    || (wireType == 0 && IsVarint(b))
    || (wireType == 1 && |b| == 8)
    || (wireType == 2 && exists payload :: |payload| < TWO32 && b == Delimited(payload))
    || (wireType == 5 && |b| == 4)
  }

  lemma {:induction false} VarintSkipped(b: Bytes, rest: Bytes)
    requires IsVarint(b)
    ensures SkipVarint(b + rest) == Some(rest)
    decreases |b|
  {
    var all := b + rest;
    if |b| == 1 {
      assert all[1..] == rest;
    } else {
      VarintSkipped(b[1..], rest);
      assert all[1..] == b[1..] + rest;
    }
  }

  lemma WireValueSkipped(wireType: nat, b: Bytes, rest: Bytes)
    requires WireValue(wireType, b)
    ensures Skip(b + rest, wireType) == Some(rest)
  {
    if wireType == 0 {
      VarintSkipped(b, rest);
    } else if wireType == 2 {
      var payload :| |payload| < TWO32 && b == Delimited(payload);
      assert b + rest == Varint(|payload|) + (payload + rest);
      PbRoundTrip.Varint32RoundTrip(|payload|, payload + rest);
      assert (payload + rest)[|payload|..] == rest;
    } else {
      assert (b + rest)[|b|..] == rest;
    }
  }

  lemma UnknownRecordSkipped(fields: seq<Field>, s: State, key: Word, input: Bytes)
    requires |s.m.slots| == |fields| && key / 8 > 0 && forall k :: 0 <= k < |fields| ==> fields[k].tag != key / 8
    ensures DecodeRecord(fields, s, key, input)
         == match Skip(input, key % 8) case None => None case Some(rest) => Some(Parsed(s, rest))
  {
    hide Skip, DecodeField;
  }

  lemma SteppedOver(fields: seq<Field>, s: State, key: Word, input: Bytes, rest: Bytes)
    requires |s.m.slots| == |fields| && key / 8 > 0 && Skip(input, key % 8) == Some(rest)
    requires forall k :: 0 <= k < |fields| ==> fields[k].tag != key / 8
    ensures DecodeFields(fields, s, Varint(key) + input) == DecodeFields(fields, s, rest)
  {
    hide Skip, DecodeRecord, DecodeVarint32, Varint;
    PbRoundTrip.Varint32RoundTrip(key, input);
    UnknownRecordSkipped(fields, s, key, input);
  }

  /** A record of a field the descriptor does not have is stepped over. */
  lemma UnknownIsSkipped(fields: seq<Field>, s: State, tag: nat, wireType: nat, b: Bytes, rest: Bytes)
    requires |s.m.slots| == |fields| && 0 < tag < MAX_TAG && WireValue(wireType, b)
    requires forall k :: 0 <= k < |fields| ==> fields[k].tag != tag
    ensures DecodeFields(fields, s, Key(tag, wireType) + (b + rest)) == DecodeFields(fields, s, rest)
  {
    hide Skip, DecodeFields, Varint, IsVarint, Delimited;
    WireValueSkipped(wireType, b, rest);
    KeyParts(tag, wireType);
    SteppedOver(fields, s, tag * 8 + wireType, b + rest, rest);
  }

  lemma KeyParts(tag: nat, wireType: nat)
    requires tag < MAX_TAG && wireType < 8
    ensures tag * 8 + wireType < TWO32 && (tag * 8 + wireType) / 8 == tag && (tag * 8 + wireType) % 8 == wireType
  {
  }

  /** No record of another wire type can be skipped. */
  lemma BadWireTypeIsRefused(input: Bytes, wireType: nat)
    requires wireType != 0 && wireType != 1 && wireType != 2 && wireType != 5
    ensures Skip(input, wireType) == None
  {
  }
}
