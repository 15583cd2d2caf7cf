/** The round trip slot by slot, without asking which fields count as present. */
module PbDirect {
  import opened Basics
  import opened Coding
  import opened PbTypes
  import opened PbEncoding
  import opened PbDecoding
  import opened PbRoundTrip
  import opened PbAgreement

  /** Equal data: texts up to their end, submessages slot by slot. */
  ghost predicate SameData(f: Field, a: Value, b: Value)
    decreases f, 0
  {
    match f.ltype
    case StringType => a.Blob? && b.Blob? && Text(f, a.bytes) == Text(f, b.bytes)
    case SubmessageType(fs) => a.Nested? && b.Nested? && SameMessage(fs, a.message, b.message)
    case _ => a == b
  }

  /** Flags and counts are equal, and so is the data they say is there; a field without a flag has
      equal data in any case. */
  ghost predicate SameSlot(f: Field, i: nat, a: Message, b: Message)
    requires i < |a.slots| == |b.slots|
    decreases f, 1
  {
    var x, y := a.slots[i], b.slots[i];
    match f.htype
    case Required | Singular => x.One? && y.One? && SameData(f, x.value, y.value)
    case Optional => x.Maybe? && y.Maybe? && x.has == y.has && (x.has ==> SameData(f, x.value, y.value))
    case Repeated => x.Many? && y.Many? && |x.items| == |y.items| && forall j :: 0 <= j < |x.items| ==> SameData(f, x.items[j], y.items[j])
    case OneOf(g) =>
      (Chosen(a, g, f.tag) <==> Chosen(b, g, f.tag)) && (Chosen(a, g, f.tag) ==> SameData(f, a.unions[g].value, b.unions[g].value))
  }

  ghost predicate SameMessage(fields: seq<Field>, a: Message, b: Message)
    decreases fields
  {
    |a.slots| == |b.slots| == |fields| && forall i :: 0 <= i < |fields| ==> SameSlot(fields[i], i, a, b)
  }

  // ----- Left out because zero: the default is zero too -----

  lemma {:induction false} ZeroIsDefault(f: Field, v: Value)
    requires FieldWellFormed(f) && f.htype.Singular? && Fits(f, v) && IsZero(f, v)
    ensures SameData(f, v, DefaultValue(f))
    decreases f, 0
  {
    match f.ltype
    case SubmessageType(fs) => NothingIsDefaults(fs, v.message);
    case FixedBytesType => assert v.bytes == Zeros(f.dataSize);
    case _ =>
  }

  lemma {:induction false} NothingIsDefaults(fields: seq<Field>, m: Message)
    requires WellFormed(fields) && MessageFits(fields, m) && AllDefault(fields, m)
    ensures SameMessage(fields, m, Defaults(fields))
    decreases fields
  {
    forall i | 0 <= i < |fields| ensures SameSlot(fields[i], i, m, Defaults(fields)) {
      var f := fields[i];
      assert FieldWellFormed(f) && SlotFits(f, i, m) && IsDefault(f, i, m);
      if f.htype.Singular? {
        ZeroIsDefault(f, m.slots[i].value);
      }
    }
  }

  // ----- What the decoded slots hold -----

  /** A slot after decoding: the default, or what was present. */
  ghost predicate SlotAfter(f: Field, after: Slot, vs: seq<Value>) {
    if vs == [] then after == DefaultSlot(f)
    else if f.htype.Repeated? then after == Many(CanonAll(f, vs))
    else after == (if f.htype.Optional? then Maybe(true, CanonValue(f, vs[0])) else One(CanonValue(f, vs[0])))
  }

  lemma DecodedSlot(fields: seq<Field>, m: Message, i: nat)
    requires WellFormed(fields) && MessageFits(fields, m) && i < |fields| && !fields[i].htype.OneOf?
    ensures SlotAfter(fields[i], After(fields, m, |fields|).slots[i], Present(fields[i], i, m))
  {
    var f, vs := fields[i], Present(fields[i], i, m);
    assert SlotFits(f, i, m);
    AfterSlot(fields, m, i, |fields|);
    AfterKeeps(fields, m, i);
    hide CanonValue, IsZero, DefaultValue, Fits, WellFormed, MessageFits, KnownUnions;
    var before, canon := After(fields, m, i), CanonAll(f, vs);
    assert After(fields, m, i + 1) == StoreAll(f, i, before, canon);
    if vs == [] {
      assert canon == [];
    } else if f.htype.Repeated? {
      StoreAllRepeated(f, i, before, canon);
      assert Items(before, i) + canon == canon;
    } else {
      assert canon == [CanonValue(f, vs[0])];
      assert StoreAll(f, i, before, canon) == Stored(f, i, before, CanonValue(f, vs[0]));
    }
  }

  lemma {:induction false} CanonIsSameData(f: Field, v: Value)
    requires FieldWellFormed(f) && Fits(f, v)
    ensures SameData(f, v, CanonValue(f, v))
    decreases f, 0
  {
    match f.ltype
    case StringType => TextOfText(f, v.bytes);
    case SubmessageType(fs) => DecodedIsSame(fs, v.message);
    case _ =>
  }

  lemma {:induction false} DecodedSlotIsSame(fields: seq<Field>, m: Message, i: nat)
    requires WellFormed(fields) && MessageFits(fields, m) && i < |fields|
    ensures SameSlot(fields[i], i, m, After(fields, m, |fields|))
    decreases fields, 0
  {
    var f := fields[i];
    assert FieldWellFormed(f) && SlotFits(f, i, m);
    if f.htype.OneOf? {
      UnionsAfter(fields, m, |fields|, i);
      if Chosen(m, f.htype.group, f.tag) {
        CanonIsSameData(f, m.unions[f.htype.group].value);
      }
    } else {
      DecodedSlot(fields, m, i);
      var vs := Present(f, i, m);
      forall j | 0 <= j < |vs| ensures SameData(f, vs[j], CanonValue(f, vs[j])) {
        PresentFits(f, i, m, j);
        CanonIsSameData(f, vs[j]);
      }
      if f.htype.Singular? && vs == [] {
        ZeroIsDefault(f, m.slots[i].value);
      }
      hide After, WellFormed, MessageFits, CanonValue, DefaultValue, SameData, Fits, IsZero;
    }
  }

  lemma {:induction false} DecodedIsSame(fields: seq<Field>, m: Message)
    requires WellFormed(fields) && MessageFits(fields, m)
    ensures SameMessage(fields, m, After(fields, m, |fields|))
    decreases fields
  {
    forall i | 0 <= i < |fields| ensures SameSlot(fields[i], i, m, After(fields, m, |fields|)) {
      DecodedSlotIsSame(fields, m, i);
    }
  }

  /** A message whose texts leave room for their terminators decodes to one with the same flags,
      counts, choices and data in every slot. */
  lemma RoundTripSlots(fields: seq<Field>, m: Message)
    requires WellFormed(fields) && MessageFits(fields, m)
    requires Encode(fields, m).Some? && |Encode(fields, m).value| < TWO32 && AllTerminated(fields, m, 0)
    ensures var r := Decode(fields, Encode(fields, m).value);
      r.Some? && SameMessage(fields, m, r.value)
  {
    MessageRoundTrip(fields, m);
    DecodedIsSame(fields, m);
  }
}
