/** A decoded message agrees with the encoded one on everything present. */
module PbAgreement {
  import opened Basics
  import opened Coding
  import opened PbTypes
  import opened PbEncoding
  import opened PbDecoding
  import opened PbRoundTrip

  /** Equal values; strings up to their end, submessages on what is present. */
  ghost predicate SameValue(f: Field, a: Value, b: Value)
    decreases f, 0
  {
    match f.ltype
    case StringType => a.Blob? && b.Blob? && Text(f, a.bytes) == Text(f, b.bytes)
    case SubmessageType(fs) =>
      a.Nested? && b.Nested? && |a.message.slots| == |b.message.slots| == |fs| && Agrees(fs, a.message, b.message)
    case _ => a == b
  }

  ghost predicate SameValues(f: Field, a: seq<Value>, b: seq<Value>)
    decreases f, 1
  {
    |a| == |b| && forall j :: 0 <= j < |a| ==> SameValue(f, a[j], b[j])
  }

  /** The same fields are present, as often, with the same values. */
  ghost predicate Agrees(fields: seq<Field>, a: Message, b: Message)
    requires |a.slots| == |b.slots| == |fields|
    decreases fields
  {
    forall i :: 0 <= i < |fields| ==> SameValues(fields[i], Present(fields[i], i, a), Present(fields[i], i, b))
  }

  // ----- Agreeing messages have the same encoding -----

  lemma {:induction false} SameValueEncoding(f: Field, a: Value, b: Value)
    requires SameValue(f, a, b)
    ensures EncodeValue(f, a) == EncodeValue(f, b)
    decreases f, 0
  {
    if f.ltype.SubmessageType? {
      SameEncoding(f.ltype.fields, a.message, b.message, 0);
    }
  }

  lemma {:induction false} SameTagged(f: Field, a: seq<Value>, b: seq<Value>)
    requires SameValues(f, a, b)
    ensures EncodeTagged(f, a) == EncodeTagged(f, b)
    ensures f.ltype.Packable() ==> EncodePacked(f, a) == EncodePacked(f, b)
    decreases f, 1, |a|
  {
    if a != [] {
      SameValueEncoding(f, a[0], b[0]);
      assert SameValues(f, a[1..], b[1..]);
      SameTagged(f, a[1..], b[1..]);
    }
  }

  lemma {:induction false} SameEncoding(fields: seq<Field>, a: Message, b: Message, k: nat)
    requires |a.slots| == |b.slots| == |fields| && Agrees(fields, a, b) && k <= |fields|
    ensures EncodeFrom(fields, a, k) == EncodeFrom(fields, b, k)
    decreases fields, |fields| - k
  {
    if k < |fields| {
      SameTagged(fields[k], Present(fields[k], k, a), Present(fields[k], k, b));
      SameEncoding(fields, a, b, k + 1);
    }
  }

  // ----- Nothing present, nothing but defaults -----

  predicate SlotKind(f: Field, s: Slot) {
    match f.htype
    case Required | Singular => s.One?
    case Optional => s.Maybe?
    case Repeated => s.Many?
    case OneOf(_) => s.InUnion?
  }

  ghost predicate Structured(fields: seq<Field>, m: Message) {
    |m.slots| == |fields| && KnownChoices(fields, m) &&
    forall i :: 0 <= i < |fields| ==> SlotKind(fields[i], m.slots[i])
  }

  lemma FitsIsStructured(fields: seq<Field>, m: Message)
    requires MessageFits(fields, m)
    ensures Structured(fields, m)
  {
    forall i | 0 <= i < |fields| ensures SlotKind(fields[i], m.slots[i]) {
      assert SlotFits(fields[i], i, m);
    }
  }

  ghost predicate NothingPresent(fields: seq<Field>, m: Message)
    requires |m.slots| == |fields|
  {
    forall i :: 0 <= i < |fields| ==> Present(fields[i], i, m) == []
  }

  lemma DefaultIsAbsent(fields: seq<Field>, m: Message, i: nat)
    requires WellFormed(fields) && Structured(fields, m) && i < |fields|
    ensures IsDefault(fields[i], i, m) ==> Present(fields[i], i, m) == []
    ensures NothingPresent(fields, m) ==> IsDefault(fields[i], i, m)
  {
    var f := fields[i];
    assert FieldWellFormed(f) && SlotKind(f, m.slots[i]);
    if !IsDefault(f, i, m) {
      if f.htype.OneOf? {
        var g := f.htype.group;
        var j: nat :| IsMember(fields, j, g, m.unions[g].tag);
        assert Present(fields[j], j, m) != [];
      } else {
        assert Present(f, i, m) != [];
      }
    }
  }

  /** The library's test for a default submessage says whether anything in it is present. */
  lemma AllDefaultIsNothingPresent(fields: seq<Field>, m: Message)
    requires WellFormed(fields) && Structured(fields, m)
    ensures AllDefault(fields, m) <==> NothingPresent(fields, m)
  {
    forall i | 0 <= i < |fields|
      ensures IsDefault(fields[i], i, m) ==> Present(fields[i], i, m) == []
      ensures NothingPresent(fields, m) ==> IsDefault(fields[i], i, m)
    {
      DefaultIsAbsent(fields, m, i);
    }
  }

  // ----- The decoded message -----

  lemma DefaultsAreStructured(fields: seq<Field>)
    ensures Structured(fields, Defaults(fields))
  {
  }

  lemma {:induction false} StoreAllStructured(fields: seq<Field>, k: nat, m: Message, vs: seq<Value>)
    requires Structured(fields, m) && k < |fields|
    ensures Structured(fields, StoreAll(fields[k], k, m, vs))
    decreases |vs|
  {
    if vs != [] {
      var f := fields[k];
      assert SlotKind(f, m.slots[k]);
      var next := Stored(f, k, m, vs[0]);
      if f.htype.OneOf? {
        assert IsMember(fields, k, f.htype.group, f.tag);
      }
      StoreAllStructured(fields, k, next, vs[1..]);
    }
  }

  lemma {:induction false} AfterIsStructured(fields: seq<Field>, m: Message, k: nat)
    requires |m.slots| == |fields| && k <= |fields|
    ensures Structured(fields, After(fields, m, k))
    decreases k
  {
    if k == 0 {
      DefaultsAreStructured(fields);
    } else {
      AfterIsStructured(fields, m, k - 1);
      StoreAllStructured(fields, k - 1, After(fields, m, k - 1), CanonAll(fields[k - 1], Present(fields[k - 1], k - 1, m)));
    }
  }

  /** Later fields leave an earlier slot alone. */
  lemma {:induction false} AfterSlot(fields: seq<Field>, m: Message, i: nat, k: nat)
    requires WellFormed(fields) && |m.slots| == |fields| && i < k <= |fields|
    ensures After(fields, m, k).slots[i] == After(fields, m, i + 1).slots[i]
    decreases k
  {
    hide Present, WellFormed, StoreAll, KnownUnions;
    if i + 1 < k {
      AfterSlot(fields, m, i, k - 1);
      AfterKeeps(fields, m, k - 1);
      StoreAllKeeps(fields, k - 1, After(fields, m, k - 1), CanonAll(fields[k - 1], Present(fields[k - 1], k - 1, m)));
    }
  }

  /** What a union holds after the first fields: the member that was chosen, if reached. */
  ghost predicate UnionAfter(fields: seq<Field>, m: Message, k: nat, i: nat)
    requires |m.slots| == |fields| && k <= |fields| && i < |fields| && fields[i].htype.OneOf?
  {
    var f := fields[i];
    var g := f.htype.group;
    var r := After(fields, m, k);
    (Chosen(r, g, f.tag) <==> i < k && Chosen(m, g, f.tag)) &&
    (Chosen(r, g, f.tag) ==> r.unions[g].value == CanonValue(f, m.unions[g].value))
  }

  lemma {:induction false} UnionsAfter(fields: seq<Field>, m: Message, k: nat, i: nat)
    requires WellFormed(fields) && MessageFits(fields, m) && k <= |fields| && i < |fields| && fields[i].htype.OneOf?
    ensures UnionAfter(fields, m, k, i)
    decreases k
  {
    if k > 0 {
      UnionsAfter(fields, m, k - 1, i);
      var f := fields[k - 1];
      var vs := CanonAll(f, Present(f, k - 1, m));
      UnionStep(f, k - 1, After(fields, m, k - 1), vs);
      assert fields[i].tag == f.tag ==> i == k - 1;
      hide MessageFits, WellFormed, CanonValue, StoreAll;
    }
  }

  lemma {:induction false} UnionStep(f: Field, k: nat, m: Message, vs: seq<Value>)
    requires k < |m.slots|
    ensures !f.htype.OneOf? || vs == [] ==> StoreAll(f, k, m, vs).unions == m.unions
    ensures f.htype.OneOf? && |vs| == 1 ==> StoreAll(f, k, m, vs).unions == m.unions[f.htype.group := Choice(f.tag, vs[0])]
    decreases |vs|
  {
    if vs != [] {
      UnionStep(f, k, Stored(f, k, m, vs[0]), vs[1..]);
    }
  }

  predicate ZeroKept(f: Field, v: Value) {
    (IsZero(f, CanonValue(f, v)) <==> IsZero(f, v)) && (IsZero(f, v) ==> IsZero(f, DefaultValue(f)))
  }

  /** A value is zero exactly if its decoded form is; the default of a field that may be left
      out is zero. */
  lemma {:induction false} ZeroStaysZero(f: Field, v: Value)
    requires FieldWellFormed(f) && Fits(f, v) && f.htype.Singular?
    ensures ZeroKept(f, v)
    decreases f, 0
  {
    if f.ltype.SubmessageType? {
      var fs, m := f.ltype.fields, v.message;
      FitsIsStructured(fs, m);
      AfterIsStructured(fs, m, |fs|);
      AllDefaultIsNothingPresent(fs, m);
      AllDefaultIsNothingPresent(fs, After(fs, m, |fs|));
      forall i | 0 <= i < |fs|
        ensures Present(fs[i], i, After(fs, m, |fs|)) == CanonAll(fs[i], Present(fs[i], i, m))
      {
        PresentAfter(fs, m, i);
      }
      if AllDefault(fs, m) {
        forall i | 0 <= i < |fs| ensures IsDefault(fs[i], i, Defaults(fs)) {
          DefaultOfAbsent(fs, m, i);
        }
      }
    }
  }

  lemma {:induction false} DefaultOfAbsent(fields: seq<Field>, m: Message, i: nat)
    requires WellFormed(fields) && MessageFits(fields, m) && i < |fields| && IsDefault(fields[i], i, m)
    ensures IsDefault(fields[i], i, Defaults(fields))
    decreases fields, 0
  {
    var f := fields[i];
    assert FieldWellFormed(f) && SlotFits(f, i, m);
    if f.htype.Singular? {
      ZeroStaysZero(f, m.slots[i].value);
    }
  }

  /** Every field is present in the decoded message as it was in the original. */
  lemma {:induction false} PresentAfter(fields: seq<Field>, m: Message, i: nat)
    requires WellFormed(fields) && MessageFits(fields, m) && i < |fields|
    ensures Present(fields[i], i, After(fields, m, |fields|)) == CanonAll(fields[i], Present(fields[i], i, m))
    decreases fields, 1
  {
    var f := fields[i];
    assert FieldWellFormed(f) && SlotFits(f, i, m);
    if f.htype.OneOf? {
      UnionsAfter(fields, m, |fields|, i);
    } else {
      AfterSlot(fields, m, i, |fields|);
      AfterKeeps(fields, m, i);
      if f.htype.Singular? {
        ZeroStaysZero(f, m.slots[i].value);
      }
      PresentInSlot(fields, m, i);
    }
  }

  lemma PresentInSlot(fields: seq<Field>, m: Message, i: nat)
    requires WellFormed(fields) && MessageFits(fields, m) && i < |fields| && !fields[i].htype.OneOf?
    requires After(fields, m, i).slots[i] == DefaultSlot(fields[i])
    requires After(fields, m, |fields|).slots[i] == After(fields, m, i + 1).slots[i]
    requires fields[i].htype.Singular? ==> m.slots[i].One? && ZeroKept(fields[i], m.slots[i].value)
    ensures Present(fields[i], i, After(fields, m, |fields|)) == CanonAll(fields[i], Present(fields[i], i, m))
  {
    var f := fields[i];
    var before := After(fields, m, i);
    var vs := Present(f, i, m);
    var canon := CanonAll(f, vs);
    assert SlotFits(f, i, m);
    hide CanonValue, IsZero, DefaultValue, Fits, WellFormed, MessageFits;
    assert After(fields, m, i + 1) == StoreAll(f, i, before, canon);
    if vs == [] {
      assert canon == [];
    } else if f.htype.Repeated? {
      StoreAllRepeated(f, i, before, canon);
      assert Items(before, i) + canon == canon;
    } else {
      assert canon == [CanonValue(f, vs[0])];
      assert StoreAll(f, i, before, canon) == Stored(f, i, before, CanonValue(f, vs[0]));
    }
  }

  lemma {:induction false} CanonIsSame(f: Field, v: Value)
    requires FieldWellFormed(f) && Fits(f, v)
    ensures SameValue(f, v, CanonValue(f, v))
    decreases f, 0
  {
    match f.ltype
    case StringType => TextOfText(f, v.bytes);
    case SubmessageType(fs) => CanonAgrees(fs, v.message);
    case _ =>
  }

  lemma TextOfText(f: Field, b: Bytes)
    ensures Text(f, Text(f, b)) == Text(f, b)
  {
    var t := Text(f, b);
    assert forall k :: 0 <= k < |t| ==> t[k] != 0;
    assert TextLength(t, f.dataSize) == |t|;
    assert t[..|t|] == t;
  }

  lemma {:induction false} CanonAgrees(fields: seq<Field>, m: Message)
    requires WellFormed(fields) && MessageFits(fields, m)
    ensures Agrees(fields, m, After(fields, m, |fields|))
    decreases fields
  {
    forall i | 0 <= i < |fields|
      ensures SameValues(fields[i], Present(fields[i], i, m), Present(fields[i], i, After(fields, m, |fields|)))
    {
      PresentAfter(fields, m, i);
      var vs := Present(fields[i], i, m);
      assert FieldWellFormed(fields[i]) && SlotFits(fields[i], i, m);
      forall j | 0 <= j < |vs| ensures SameValue(fields[i], vs[j], CanonValue(fields[i], vs[j])) {
        PresentFits(fields[i], i, m, j);
        CanonIsSame(fields[i], vs[j]);
      }
    }
  }

  // ----- The main result -----

  /** Decoding an encoded message succeeds exactly if every string present leaves room for its
      terminator. Then the same fields are present with the same values, required ones included,
      and encoding again gives the same bytes. */
  lemma RoundTrip(fields: seq<Field>, m: Message)
    requires WellFormed(fields) && MessageFits(fields, m)
    requires Encode(fields, m).Some? && |Encode(fields, m).value| < TWO32
    ensures var r := Decode(fields, Encode(fields, m).value);
      (r.Some? <==> AllTerminated(fields, m, 0)) &&
      (r.Some? ==> |r.value.slots| == |fields| && Agrees(fields, m, r.value) && Encode(fields, r.value) == Encode(fields, m))
  {
    MessageRoundTrip(fields, m);
    CanonAgrees(fields, m);
    SameEncoding(fields, m, After(fields, m, |fields|), 0);
  }

  // ----- Where it fails -----

  function TextField(text: Bytes): Field {
    Field(1, StringType, Required, |text|, 0, None)
  }

  lemma FullTextLength(text: Bytes, limit: nat)
    requires limit == |text| && forall i | 0 <= i < |text| :: text[i] != 0
    ensures TextLength(text, limit) == limit
  {
  }

  /** A text that fills its buffer is encoded in full, and the encoding is refused. */
  lemma FullStringIsRefused(text: Bytes)
    requires text != [] && |text| < 0x1000_0000 && forall i | 0 <= i < |text| :: text[i] != 0
    ensures var fields, m := [TextField(text)], Message([One(Blob(text))], map[]);
      && WellFormed(fields) && MessageFits(fields, m)
      && Encode(fields, m) == Some(Key(1, 2) + Delimited(text))
      && Decode(fields, Key(1, 2) + Delimited(text)) == None
  {
    var f := TextField(text);
    var fields, m := [f], Message([One(Blob(text))], map[]);
    FullTextLength(text, |text|);
    assert text[..|text|] == text;
    assert SlotFits(f, 0, m);
    assert FieldWellFormed(f);
    assert Present(f, 0, m) == [Blob(text)] && [Blob(text)][1..] == [];
    var b := Key(1, 2) + Delimited(text);
    assert b + [] == b;
    assert EncodeValue(f, Blob(text)) == Some(Delimited(text));
    assert EncodeFrom(fields, m, 1) == Some([]);
    assert EncodeTagged(f, []) == Some([]);
    assert EncodeTagged(f, [Blob(text)]) == Some(b + []);
    assert EncodeField(fields[0], Present(fields[0], 0, m)) == Some(b);
    assert EncodeFrom(fields, m, 0) == Some(b + []);
    ShortVarint(|text|);
    assert !Terminated(f, Blob(text));
    RoundTrip(fields, m);
  }

  lemma ShortVarint(v: nat)
    requires v < 0x1000_0000
    ensures |Varint(v)| <= 4 && |Key(1, 2)| == 1
  {
    assert Varint(v / 128) == if v / 128 < 128 then [v / 128] else [v / 128 % 128 + 128] + Varint(v / 128 / 128);
    assert v / 128 / 128 / 128 < 128;
  }
}
