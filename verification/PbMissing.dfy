/** A message without a required field is refused. Which fields have a record is read off the
    bytes by a scan of its own, which only steps over values. */
module PbMissing {
  import opened Basics
  import opened Coding
  import opened PbTypes
  import opened PbEncoding
  import opened PbDecoding
  import opened PbRoundTrip

  // ----- The records of a message -----

  /** Where a value ends that has a length in front. */
  function DelimitedEnd(input: Bytes): (r: Option<Bytes>)
    ensures r.Some? ==> |r.value| <= |input|
  {
    match DecodeVarint32(input)
    case None => None
    case Some(length) => if |length.rest| < length.value then None else Some(length.rest[length.value..])
  }

  /** Where the value behind a key ends: a known field decides by its type, an unknown one by the
      wire type. */
  function ValueEnd(fields: seq<Field>, tag: nat, wireType: nat, input: Bytes): (r: Option<Bytes>)
    ensures r.Some? ==> |r.value| <= |input|
  {
    var i := Index(fields, tag);
    if i == |fields| then Skip(input, wireType)
    else
      var f := fields[i];
      if f.htype.Repeated? && wireType == 2 && f.ltype.Packable() then DelimitedEnd(input)
      else match f.ltype
        case VarintType | UVarintType | SVarintType => SkipVarint(input)
        case Fixed32Type => Drop(input, 4)
        case Fixed64Type => Drop(input, 8)
        case BytesType | StringType | SubmessageType(_) | FixedBytesType => DelimitedEnd(input)
  }

  /** The tags of the records at the front, up to the end, a zero key or the first error. */
  function Tags(fields: seq<Field>, input: Bytes): set<nat>
    decreases |input|
  {
    match DecodeVarint32(input)
    case None => {}
    case Some(key) =>
      if key.value == 0 then {}
      else
        match ValueEnd(fields, key.value / 8, key.value % 8, key.rest)
        case None => {key.value / 8}
        case Some(rest) => {key.value / 8} + Tags(fields, rest)
  }

  /** One of the first 64 required fields. */
  ghost predicate Tracked(fields: seq<Field>, i: nat) {
    i < |fields| && fields[i].htype.Required? && |RequiredBelow(fields, i)| < 64
  }

  ghost function RequiredBelow(fields: seq<Field>, i: nat): set<nat> {
    set k: nat | k < i && k < |fields| && fields[k].htype.Required?
  }

  /** Every required field that is tracked has a record. */
  ghost predicate NoneMissing(fields: seq<Field>, input: Bytes) {
    forall i: nat | Tracked(fields, i) :: fields[i].tag in Tags(fields, input)
  }

  // ----- Decoding goes from record to record -----

  lemma {:induction false} VarintEnd(input: Bytes, groups: nat)
    requires ParseVarint(input, groups).Some?
    ensures SkipVarint(input) == Some(ParseVarint(input, groups).value.rest)
    decreases groups
  {
    if input[0] >= 128 {
      VarintEnd(input[1..], groups - 1);
    }
  }

  lemma NumberEnd(f: Field, input: Bytes)
    requires f.ltype.Packable() && DecodeNumber(f, input).Some?
    ensures Some(DecodeNumber(f, input).value.rest) ==
      match f.ltype
      case Fixed32Type => Drop(input, 4)
      case Fixed64Type => Drop(input, 8)
      case _ => SkipVarint(input)
  {
    if !f.ltype.Fixed32Type? && !f.ltype.Fixed64Type? {
      VarintEnd(input, 10);
    }
  }

  lemma TakenEnd(input: Bytes)
    requires TakeDelimited(input).Some?
    ensures DelimitedEnd(input) == Some(TakeDelimited(input).value.rest)
  {
  }

  lemma FieldEnd(fields: seq<Field>, i: nat, wireType: nat, m: Message, input: Bytes)
    requires i < |fields| == |m.slots| && i == Index(fields, fields[i].tag)
    requires DecodeField(fields, i, wireType, m, input).Some?
    ensures ValueEnd(fields, fields[i].tag, wireType, input) == Some(DecodeField(fields, i, wireType, m, input).value.rest)
  {
    var f := fields[i];
    hide DecodeNumber, DecodePayload, DecodePacked, TakeDelimited, DelimitedEnd, SkipVarint, Drop;
    if f.htype.Repeated? && wireType == 2 && f.ltype.Packable() {
      TakenEnd(input);
    } else {
      var was := if f.htype.OneOf? || f.htype.Repeated? then DefaultValue(f) else Current(m, i);
      assert DecodeField(fields, i, wireType, m, input) == DecodeSingle(f, i, m, input);
      assert DecodeValue(f, was, input).Some? && DecodeValue(f, was, input).value.rest == DecodeSingle(f, i, m, input).value.rest;
      if f.ltype.Packable() {
        NumberEnd(f, input);
      } else {
        TakenEnd(input);
      }
    }
  }

  /** A field is seen only if a record has its tag. */
  lemma {:induction false} SeenHasRecord(fields: seq<Field>, s: State, input: Bytes)
    requires |s.m.slots| == |fields| && DecodeFields(fields, s, input).Some?
    ensures forall i | i in DecodeFields(fields, s, input).value.seen ::
      i in s.seen || (i < |fields| && fields[i].tag in Tags(fields, input))
    decreases |input|
  {
    hide DecodeField, Skip, ValueEnd, DecodeVarint32;
    if input != [] {
      var key := DecodeVarint32(input).value;
      if key.value != 0 {
        var tag, wireType := key.value / 8, key.value % 8;
        var p := DecodeRecord(fields, s, key.value, key.rest).value;
        SeenHasRecord(fields, p.value, p.rest);
        RecordEnd(fields, s, key.value, key.rest);
      }
    }
  }

  lemma RecordEnd(fields: seq<Field>, s: State, key: Word, input: Bytes)
    requires |s.m.slots| == |fields| && DecodeRecord(fields, s, key, input).Some?
    ensures var p := DecodeRecord(fields, s, key, input).value;
      && ValueEnd(fields, key / 8, key % 8, input) == Some(p.rest)
      && forall i | i in p.value.seen :: i in s.seen || (i < |fields| && fields[i].tag == key / 8)
  {
    var i := Index(fields, key / 8);
    if i < |fields| {
      FieldEnd(fields, i, key % 8, s.m, input);
    }
    hide DecodeField;
  }

  lemma {:induction false} RequiredBeforeCounts(fields: seq<Field>, i: nat)
    requires i <= |fields|
    ensures RequiredBefore(fields, i) == |RequiredBelow(fields, i)|
  {
    if i == 0 {
      assert RequiredBelow(fields, 0) == {};
    } else {
      RequiredBeforeCounts(fields, i - 1);
      var before := RequiredBelow(fields, i - 1);
      assert RequiredBelow(fields, i) == if fields[i - 1].htype.Required? then before + {i - 1} else before;
    }
  }

  /** If decoding succeeds, on any bytes into any message, every tracked required field has a
      record. */
  lemma DecodedHasRequired(fields: seq<Field>, m: Message, input: Bytes)
    requires |m.slots| == |fields|
    ensures DecodeInto(fields, m, input).Some? ==> NoneMissing(fields, input)
  {
    if DecodeInto(fields, m, input).Some? {
      SeenHasRecord(fields, State(m, {}), input);
      hide DecodeFields, Tags;
      forall i: nat | Tracked(fields, i) ensures fields[i].tag in Tags(fields, input) {
        RequiredBeforeCounts(fields, i);
      }
    }
  }

  /** A submessage without one of its required fields is refused, with all it is part of. */
  lemma SubmessageMissing(f: Field, was: Value, payload: Bytes, rest: Bytes)
    requires f.ltype.SubmessageType? && !NoneMissing(f.ltype.fields, payload) && |payload| < TWO32
    ensures DecodeValue(f, was, Delimited(payload) + rest) == None
  {
    var fs := f.ltype.fields;
    var start := if f.htype.Repeated? then Defaults(fs) else Inner(fs, was);
    DecodedHasRequired(fs, start, payload);
    DelimitedValueRoundTrip(f, was, payload, rest);
  }

  // ----- Dropping a record from an encoding -----

  /** The encoding with one field left out. */
  function EncodeWithout(fields: seq<Field>, m: Message, k: nat, i: nat): Option<Bytes>
    requires |m.slots| == |fields| && i <= |fields|
    decreases |fields| - i
  {
    if i == |fields| then Some([])
    else if i == k then EncodeWithout(fields, m, k, i + 1)
    else
      match (EncodeField(fields[i], Present(fields[i], i, m)), EncodeWithout(fields, m, k, i + 1))
      case (Some(b), Some(more)) => Some(b + more)
      case _ => None
  }

  lemma {:induction false} SkipWritten(v: nat, rest: Bytes)
    ensures SkipVarint(Varint(v) + rest) == Some(rest)
    decreases v
  {
    var all := Varint(v) + rest;
    if v < 128 {
      assert all[1..] == rest;
    } else {
      SkipWritten(v / 128, rest);
      assert all[1..] == Varint(v / 128) + rest;
    }
  }

  lemma DropWritten(b: Bytes, rest: Bytes)
    ensures Drop(b + rest, |b|) == Some(rest)
  {
    assert (b + rest)[|b|..] == rest;
  }

  lemma DelimitedWritten(b: Bytes, rest: Bytes)
    requires |b| < TWO32
    ensures DelimitedEnd(Delimited(b) + rest) == Some(rest)
  {
    DelimitedRoundTrip(b, rest);
    TakenEnd(Delimited(b) + rest);
  }

  lemma ValueWritten(f: Field, v: Value, rest: Bytes)
    requires Encodable(f, v)
    ensures var all := EncodeValue(f, v).value + rest;
      Some(rest) == match f.ltype
        case VarintType | UVarintType | SVarintType => SkipVarint(all)
        case Fixed32Type => Drop(all, 4)
        case Fixed64Type => Drop(all, 8)
        case BytesType | StringType | SubmessageType(_) | FixedBytesType => DelimitedEnd(all)
  {
    var e := EncodeValue(f, v).value;
    hide Varint, Fixed, SkipVarint, Drop, DelimitedEnd, Delimited;
    match f.ltype
    case VarintType | UVarintType => SkipWritten(v.n % TWO64, rest);
    case SVarintType => SkipWritten(Zigzag(v.n), rest);
    case Fixed32Type => DropWritten(e, rest);
    case Fixed64Type => DropWritten(e, rest);
    case BytesType | StringType | SubmessageType(_) | FixedBytesType =>
      PayloadShort(f, v);
      DelimitedWritten(Payload(f, v), rest);
  }

  lemma PayloadShort(f: Field, v: Value)
    requires Encodable(f, v) && !f.ltype.Packable()
    ensures EncodeValue(f, v).value == Delimited(Payload(f, v)) && |Payload(f, v)| < TWO32
  {
  }

  /** A record in front adds its tag. */
  lemma KeyTag(fields: seq<Field>, k: nat, wireType: nat, input: Bytes, rest: Bytes)
    requires WellFormed(fields) && k < |fields| && wireType < 8
    requires ValueEnd(fields, fields[k].tag, wireType, input) == Some(rest)
    ensures Tags(fields, Key(fields[k].tag, wireType) + input) == {fields[k].tag} + Tags(fields, rest)
  {
    assert FieldWellFormed(fields[k]);
    hide ValueEnd, DecodeVarint32;
    var key := fields[k].tag * 8 + wireType;
    PbRoundTrip.Varint32RoundTrip(key, input);
    assert key / 8 == fields[k].tag && key % 8 == wireType;
  }

  lemma ItemTag(fields: seq<Field>, k: nat, v: Value, rest: Bytes)
    requires WellFormed(fields) && k < |fields| && !(fields[k].htype.Repeated? && fields[k].ltype.Packable())
    requires Encodable(fields[k], v)
    ensures Tags(fields, Key(fields[k].tag, fields[k].ltype.WireType()) + (EncodeValue(fields[k], v).value + rest))
         == {fields[k].tag} + Tags(fields, rest)
  {
    var f := fields[k];
    var w := f.ltype.WireType();
    var all := EncodeValue(f, v).value + rest;
    ValueWritten(f, v, rest);
    DistinctIndex(fields, k);
    hide Tags, EncodeValue, Encodable, WellFormed, SkipVarint, Drop, DelimitedEnd;
    assert ValueEnd(fields, f.tag, w, all) == Some(rest);
    KeyTag(fields, k, w, all, rest);
  }

  lemma {:induction false} TaggedTags(fields: seq<Field>, k: nat, vs: seq<Value>, rest: Bytes)
    requires WellFormed(fields) && k < |fields| && !(fields[k].htype.Repeated? && fields[k].ltype.Packable())
    requires EncodeTagged(fields[k], vs).Some? && |EncodeTagged(fields[k], vs).value| < TWO32
    requires forall j :: 0 <= j < |vs| ==> Fits(fields[k], vs[j])
    ensures Tags(fields, EncodeTagged(fields[k], vs).value + rest) <= {fields[k].tag} + Tags(fields, rest)
    decreases |vs|
  {
    var f := fields[k];
    if vs == [] {
      NothingTagged(f, rest);
    } else {
      assert FieldWellFormed(f);
      TaggedFirst(f, vs);
      hide Tags, Fits, EncodeValue, EncodeTagged, WellFormed, FieldWellFormed, Key;
      var more, e := EncodeTagged(f, vs[1..]).value, EncodeValue(f, vs[0]).value;
      TaggedTags(fields, k, vs[1..], rest);
      ItemTag(fields, k, vs[0], more + rest);
      Regrouped(Key(f.tag, f.ltype.WireType()), e, more, rest);
    }
  }

  lemma TaggedFirst(f: Field, vs: seq<Value>)
    requires vs != [] && EncodeTagged(f, vs).Some?
    ensures EncodeValue(f, vs[0]).Some? && EncodeTagged(f, vs[1..]).Some?
    ensures EncodeTagged(f, vs).value == Key(f.tag, f.ltype.WireType()) + EncodeValue(f, vs[0]).value + EncodeTagged(f, vs[1..]).value
    ensures |EncodeValue(f, vs[0]).value| <= |EncodeTagged(f, vs).value| && |EncodeTagged(f, vs[1..]).value| <= |EncodeTagged(f, vs).value|
  {
    hide EncodeValue, Key;
  }

  lemma Regrouped(a: Bytes, b: Bytes, c: Bytes, d: Bytes)
    ensures (a + b + c) + d == a + (b + (c + d))
  {
  }

  lemma PackedTag(fields: seq<Field>, k: nat, b: Bytes, rest: Bytes)
    requires WellFormed(fields) && k < |fields| && fields[k].htype.Repeated? && fields[k].ltype.Packable() && |b| < TWO32
    ensures Tags(fields, Key(fields[k].tag, 2) + (Delimited(b) + rest)) == {fields[k].tag} + Tags(fields, rest)
  {
    DelimitedWritten(b, rest);
    DistinctIndex(fields, k);
    hide Tags, WellFormed, DelimitedEnd, Delimited;
    assert ValueEnd(fields, fields[k].tag, 2, Delimited(b) + rest) == Some(rest);
    KeyTag(fields, k, 2, Delimited(b) + rest, rest);
  }

  lemma PackedBytes(f: Field, vs: seq<Value>)
    requires f.htype.Repeated? && f.ltype.Packable() && vs != [] && EncodeField(f, vs).Some?
    ensures EncodePacked(f, vs).Some? && EncodeField(f, vs).value == Key(f.tag, 2) + Delimited(EncodePacked(f, vs).value)
    ensures |EncodePacked(f, vs).value| <= |EncodeField(f, vs).value|
  {
    hide EncodePacked, Key;
  }

  lemma PackedFieldTags(fields: seq<Field>, k: nat, vs: seq<Value>, rest: Bytes)
    requires WellFormed(fields) && k < |fields| && fields[k].htype.Repeated? && fields[k].ltype.Packable() && vs != []
    requires EncodeField(fields[k], vs).Some? && |EncodeField(fields[k], vs).value| < TWO32
    ensures Tags(fields, EncodeField(fields[k], vs).value + rest) <= {fields[k].tag} + Tags(fields, rest)
  {
    PackedBytes(fields[k], vs);
    hide *;
    var key, b := Key(fields[k].tag, 2), EncodePacked(fields[k], vs).value;
    PackedTag(fields, k, b, rest);
    Joined(key, Delimited(b), rest);
  }

  lemma Joined(a: Bytes, b: Bytes, c: Bytes)
    ensures (a + b) + c == a + (b + c)
  {
  }

  lemma FieldTags(fields: seq<Field>, k: nat, vs: seq<Value>, rest: Bytes)
    requires WellFormed(fields) && k < |fields|
    requires EncodeField(fields[k], vs).Some? && |EncodeField(fields[k], vs).value| < TWO32
    requires forall j :: 0 <= j < |vs| ==> Fits(fields[k], vs[j])
    ensures Tags(fields, EncodeField(fields[k], vs).value + rest) <= {fields[k].tag} + Tags(fields, rest)
  {
    hide Tags, Fits, EncodeTagged, EncodePacked, WellFormed, Key, Delimited;
    if !(fields[k].htype.Repeated? && fields[k].ltype.Packable()) {
      TaggedTags(fields, k, vs, rest);
    } else if vs == [] {
      NothingTagged(fields[k], rest);
    } else {
      PackedFieldTags(fields, k, vs, rest);
    }
  }

  lemma NothingTagged(f: Field, rest: Bytes)
    ensures EncodeTagged(f, []) == Some([]) && [] + rest == rest
  {
  }

  lemma {:induction false} TagsWithout(fields: seq<Field>, m: Message, k: nat, i: nat)
    requires WellFormed(fields) && MessageFits(fields, m) && k < |fields| && i <= |fields|
    requires EncodeWithout(fields, m, k, i).Some? && |EncodeWithout(fields, m, k, i).value| < TWO32
    ensures fields[k].tag !in Tags(fields, EncodeWithout(fields, m, k, i).value)
    decreases |fields| - i
  {
    hide Tags, EncodeField, Present, SlotFits, Fits;
    if i == |fields| {
      NoTags(fields);
    } else {
      TagsWithout(fields, m, k, i + 1);
      if i != k {
        var vs := Present(fields[i], i, m);
        PresentAllFit(fields[i], i, m);
        FieldTags(fields, i, vs, EncodeWithout(fields, m, k, i + 1).value);
      }
    }
  }

  lemma NoTags(fields: seq<Field>)
    ensures Tags(fields, []) == {}
  {
  }

  lemma PresentAllFit(f: Field, i: nat, m: Message)
    requires i < |m.slots| && SlotFits(f, i, m)
    ensures forall j :: 0 <= j < |Present(f, i, m)| ==> Fits(f, Present(f, i, m)[j])
  {
    forall j: nat | j < |Present(f, i, m)| ensures Fits(f, Present(f, i, m)[j]) {
      PresentFits(f, i, m, j);
    }
  }

  /** Whatever message is encoded: without the record of a tracked required field it is refused. */
  lemma WithoutRequiredIsRefused(fields: seq<Field>, m: Message, k: nat)
    requires WellFormed(fields) && MessageFits(fields, m) && Tracked(fields, k)
    requires EncodeWithout(fields, m, k, 0).Some? && |EncodeWithout(fields, m, k, 0).value| < TWO32
    ensures Decode(fields, EncodeWithout(fields, m, k, 0).value) == None
  {
    var b := EncodeWithout(fields, m, k, 0).value;
    TagsWithout(fields, m, k, 0);
    DecodedHasRequired(fields, Defaults(fields), b);
  }
}
