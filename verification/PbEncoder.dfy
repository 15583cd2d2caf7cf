/** The encoder: streams that write into a buffer or only count, and the two passes over a
    submessage. */
module PbEncoder {
  import opened Basics
  import opened Coding
  import opened PbTypes
  import opened PbEncoding
  import opened PbFieldIter

  datatype View = View(out: Bytes, written: nat)

  class OStream {
    /** A sizing stream has no callback and keeps no bytes. */
    const sizing: bool
    const maxSize: nat
    var out: Bytes
    var written: nat

    constructor (sizing: bool, maxSize: nat, out: Bytes)
      ensures this.sizing == sizing && this.maxSize == maxSize && Now() == View(out, 0)
    {
      this.sizing := sizing;
      this.maxSize := maxSize;
      this.out := out;
      written := 0;
    }

    ghost function Now(): View
      reads this
    {
      View(out, written)
    }

    ghost predicate Valid(v: View) {
      sizing || v.written <= maxSize
    }

    ghost predicate Room(from: View, size: nat) {
      sizing || from.written + size <= maxSize
    }

    /** From one state to another exactly an encoding was written; or that was impossible. */
    ghost predicate Wrote(from: View, to: View, enc: Option<Bytes>, ok: bool) {
      if ok then
        enc.Some? && Room(from, |enc.value|) &&
        to == View(if sizing then from.out else from.out + enc.value, from.written + |enc.value|)
      else enc.None? || !Room(from, |enc.value|)
    }

    method Write(buf: Bytes) returns (ok: bool)
      modifies this
      ensures Wrote(old(Now()), Now(), Some(buf), ok)
    {
      if !sizing {
        if written + |buf| > maxSize {
          return false;
        }
        out := out + buf;
      }
      written := written + |buf|;
      return true;
    }

    /** A write without a buffer, for streams that only count. */
    method Count(size: nat) returns (ok: bool)
      requires sizing
      modifies this
      ensures ok && Now() == View(old(out), old(written) + size)
    {
      written := written + size;
      return true;
    }
  }

  ghost function Join(done: Bytes, more: Option<Bytes>): Option<Bytes> {
    match more
    case None => None
    case Some(b) => Some(done + b)
  }

  lemma WroteNothing(s: OStream, a: View)
    requires s.Valid(a)
    ensures s.Wrote(a, a, Some([]), true)
  {
  }

  lemma JoinNothing(e: Option<Bytes>)
    ensures Join([], e) == e
  {
    if e.Some? {
      assert [] + e.value == e.value;
    }
  }

  lemma WroteMore(s: OStream, a: View, b: View, c: View, done: Bytes, enc: Option<Bytes>, ok: bool)
    requires s.Wrote(a, b, Some(done), true) && s.Wrote(b, c, enc, ok)
    ensures s.Wrote(a, c, Join(done, enc), ok)
  {
    if ok {
      assert a.out + done + enc.value == a.out + (done + enc.value);
    }
  }

  /** What does not fit does not fit with more behind it. */
  lemma FailedEarly(s: OStream, a: View, b: View, enc: Option<Bytes>, more: Option<Bytes>)
    requires s.Wrote(a, b, enc, false)
    ensures s.Wrote(a, b, match enc case None => None case Some(e) => Join(e, more), false)
  {
  }

  // ----- Helpers -----

  /** The varint is built in a buffer with every continuation bit set; the last one is cleared. */
  method EncodeVarint(s: OStream, v: nat) returns (ok: bool)
    modifies s
    ensures s.Wrote(old(s.Now()), s.Now(), Some(Varint(v)), ok)
  {
    if v <= 0x7F {
      ok := s.Write([v]);
      return;
    }
    var buffer := VarintBuffer(v);
    ok := s.Write(buffer);
  }

  method VarintBuffer(v: nat) returns (buffer: Bytes)
    requires v > 0x7F
    ensures buffer == Varint(v)
  {
    hide Varint;
    buffer := [];
    ghost var head: Bytes, last: byte := [], 0;
    var value: nat := v;
    while value > 0
      invariant value == 0 ==> last < 128 && buffer == head + [last + 128] && head + [last] == Varint(v)
      invariant value > 0 ==> buffer + Varint(value) == Varint(v)
    {
      VarintFirst(value);
      head, last := buffer, value % 128;
      buffer := buffer + [value % 128 + 128];
      assert value >= 128 ==> buffer + Varint(value / 128) == head + Varint(value);
      value := value / 128;
    }
    assert buffer[..|buffer| - 1] == head;
    buffer := buffer[..|buffer| - 1] + [buffer[|buffer| - 1] - 128];
  }

  /** Complemented shift for negative numbers, in 64 bits. */
  method EncodeSvarint(s: OStream, n: int) returns (ok: bool)
    requires -0x8000_0000_0000_0000 <= n < 0x8000_0000_0000_0000
    modifies s
    ensures s.Wrote(old(s.Now()), s.Now(), Some(Varint(Zigzag(n))), ok)
  {
    var zigzagged: nat;
    if n < 0 {
      var shifted := 2 * (n % TWO64) % TWO64;
      assert n % TWO64 == n + TWO64 && shifted == 2 * n + TWO64;
      zigzagged := TWO64 - 1 - shifted;
    } else {
      zigzagged := 2 * n;
    }
    ok := EncodeVarint(s, zigzagged);
  }

  method EncodeFixed32(s: OStream, v: Word) returns (ok: bool)
    modifies s
    ensures s.Wrote(old(s.Now()), s.Now(), Some(Fixed(v, 4)), ok)
  {
    var bytes: Bytes := [v % 256, v / 0x100 % 256, v / 0x1_0000 % 256, v / 0x100_0000 % 256];
    FourBytes(v);
    ok := s.Write(bytes);
  }

  lemma FourBytes(v: nat)
    ensures Fixed(v, 4) == [v % 256, v / 0x100 % 256, v / 0x1_0000 % 256, v / 0x100_0000 % 256]
  {
    assert v / 0x100 / 256 == v / 0x1_0000 && v / 0x1_0000 / 256 == v / 0x100_0000;
    assert Fixed(v / 0x100_0000, 1) == [v / 0x100_0000 % 256];
    assert Fixed(v / 0x1_0000, 2) == [v / 0x1_0000 % 256] + Fixed(v / 0x100_0000, 1);
    assert Fixed(v / 0x100, 3) == [v / 0x100 % 256] + Fixed(v / 0x1_0000, 2);
  }

  method EncodeFixed64(s: OStream, v: nat) returns (ok: bool)
    requires v < TWO64
    modifies s
    ensures s.Wrote(old(s.Now()), s.Now(), Some(Fixed(v, 8)), ok)
  {
    var high := v / TWO32;
    var bytes: Bytes := [v % 256, v / 0x100 % 256, v / 0x1_0000 % 256, v / 0x100_0000 % 256,
                         high % 256, high / 0x100 % 256, high / 0x1_0000 % 256, high / 0x100_0000 % 256];
    EightBytes(v);
    ok := s.Write(bytes);
  }

  lemma EightBytes(v: nat)
    ensures var high := v / TWO32;
      Fixed(v, 8) == [v % 256, v / 0x100 % 256, v / 0x1_0000 % 256, v / 0x100_0000 % 256,
                      high % 256, high / 0x100 % 256, high / 0x1_0000 % 256, high / 0x100_0000 % 256]
  {
    FourBytes(v / TWO32);
    LowFourBytes(v);
    hide Fixed;
  }

  lemma LowFourBytes(v: nat)
    ensures Fixed(v, 8) == [v % 256, v / 0x100 % 256, v / 0x1_0000 % 256, v / 0x100_0000 % 256] + Fixed(v / TWO32, 4)
  {
    assert v / 0x100 / 256 == v / 0x1_0000 && v / 0x1_0000 / 256 == v / 0x100_0000 && v / 0x100_0000 / 256 == v / TWO32;
    assert Fixed(v / 0x100_0000, 5) == [v / 0x100_0000 % 256] + Fixed(v / TWO32, 4);
    assert Fixed(v / 0x1_0000, 6) == [v / 0x1_0000 % 256] + Fixed(v / 0x100_0000, 5);
    assert Fixed(v / 0x100, 7) == [v / 0x100 % 256] + Fixed(v / 0x1_0000, 6);
  }

  method EncodeTag(s: OStream, wireType: nat, tag: nat) returns (ok: bool)
    modifies s
    ensures s.Wrote(old(s.Now()), s.Now(), Some(Key(tag, wireType)), ok)
  {
    ok := EncodeVarint(s, tag * 8 + wireType);
  }

  /** pb_encode_string. */
  method EncodeDelimited(s: OStream, b: Bytes) returns (ok: bool)
    modifies s
    ensures s.Wrote(old(s.Now()), s.Now(), Some(Delimited(b)), ok)
  {
    ghost var a := s.Now();
    ok := EncodeVarint(s, |b|);
    ghost var mid := s.Now();
    if !ok {
      FailedEarly(s, a, mid, Some(Varint(|b|)), Some(b));
      return;
    }
    ok := s.Write(b);
    WroteMore(s, a, mid, s.Now(), Varint(|b|), Some(b), ok);
  }

  /** The value of one item, by the field's type. */
  method EncodeItem(s: OStream, f: Field, v: Value) returns (ok: bool)
    requires Fits(f, v)
    requires s.Valid(s.Now())
    modifies s
    ensures s.Wrote(old(s.Now()), s.Now(), EncodeValue(f, v), ok)
    decreases f, 0
  {
    match f.ltype {
      case BytesType =>
        if |v.bytes| + BYTES_HEADER > f.dataSize {
          return false;
        }
        ok := EncodeDelimited(s, v.bytes);
      case StringType =>
        var size := MeasureText(v.bytes, f.dataSize);
        ok := EncodeDelimited(s, v.bytes[..size]);
      case SubmessageType(fs) =>
        ok := EncodeSubmessage(s, fs, v.message);
      case FixedBytesType =>
        ok := EncodeDelimited(s, v.bytes);
      case _ =>
        ok := EncodeScalar(s, f, v);
    }
  }

  method EncodeScalar(s: OStream, f: Field, v: Value) returns (ok: bool)
    requires f.ltype.Packable() && Fits(f, v)
    modifies s
    ensures s.Wrote(old(s.Now()), s.Now(), EncodeNumber(f, v), ok)
  {
    hide Varint, Fixed, Zigzag;
    var n := v.n;
    if f.ltype.Fixed32Type? {
      assert n % TWO32 == n;
      ok := EncodeFixed32(s, n);
    } else if f.ltype.Fixed64Type? {
      assert n % TWO64 == n;
      ok := EncodeFixed64(s, n);
    } else if !IntegerSize(f.dataSize) {
      return false;
    } else if f.ltype.SVarintType? {
      ok := EncodeSvarint(s, n);
    } else {
      ok := EncodeVarint(s, n % TWO64);
    }
  }

  /** strnlen. */
  method MeasureText(b: Bytes, limit: nat) returns (size: nat)
    ensures size == TextLength(b, limit)
  {
    size := 0;
    while size < limit && size < |b| && b[size] != 0
      invariant size <= limit && size <= |b|
      invariant TextLength(b, limit) == size + TextLength(b[size..], limit - size)
    {
      assert b[size..][1..] == b[size + 1..];
      size := size + 1;
    }
  }

  /** First count, then write behind the count. That the second pass writes as much as the first
      counted is proved here: the error for a changed size is never returned. */
  method EncodeSubmessage(s: OStream, fields: seq<Field>, m: Message) returns (ok: bool)
    requires MessageFits(fields, m)
    requires s.Valid(s.Now())
    modifies s
    ensures s.Wrote(old(s.Now()), s.Now(),
                    match Encode(fields, m) case None => None case Some(b) => Some(Delimited(b)), ok)
    decreases fields, 1
  {
    ghost var a := s.Now();
    var counter := new OStream(true, 0, []);
    ok := EncodeMessage(counter, fields, m);
    if !ok {
      return false;
    }
    var size := counter.written;
    ghost var e := Encode(fields, m).value;
    ok := EncodeVarint(s, size);
    ghost var mid := s.Now();
    if !ok {
      FailedEarly(s, a, mid, Some(Varint(|e|)), Some(e));
      return;
    }
    if s.sizing {
      ok := s.Count(size);
      return;
    }
    if s.written + size > s.maxSize {
      return false;
    }
    var sub := new OStream(false, size, s.out);
    ok := EncodeMessage(sub, fields, m);
    s.written := s.written + sub.written;
    s.out := sub.out;
    if sub.written != size {
      assert false;
    }
    WroteMore(s, a, mid, s.Now(), Varint(|e|), Some(e), ok);
  }

  /** The numbers of a packed array, without keys. */
  method EncodePackedItems(s: OStream, f: Field, vs: seq<Value>) returns (ok: bool)
    requires f.ltype.Packable() && forall j :: 0 <= j < |vs| ==> Fits(f, vs[j])
    requires s.Valid(s.Now())
    modifies s
    ensures s.Wrote(old(s.Now()), s.Now(), EncodePacked(f, vs), ok)
  {
    hide EncodeNumber, Fits;
    ghost var a := s.Now();
    ghost var done: Bytes := [];
    WroteNothing(s, a);
    JoinNothing(EncodePacked(f, vs));
    assert vs[0..] == vs;
    for i := 0 to |vs|
      invariant s.Wrote(a, s.Now(), Some(done), true)
      invariant Join(done, EncodePacked(f, vs[i..])) == EncodePacked(f, vs)
    {
      ghost var mid := s.Now();
      ghost var rest := vs[i..];
      assert rest[0] == vs[i] && rest[1..] == vs[i + 1..];
      ok := EncodeScalar(s, f, vs[i]);
      WroteMore(s, a, mid, s.Now(), done, EncodeNumber(f, vs[i]), ok);
      if !ok {
        FailedEarly(s, a, s.Now(), Join(done, EncodeNumber(f, vs[i])), EncodePacked(f, rest[1..]));
        JoinMore(done, EncodeNumber(f, vs[i]), EncodePacked(f, rest[1..]));
        return false;
      }
      JoinMore(done, EncodeNumber(f, vs[i]), EncodePacked(f, rest[1..]));
      done := done + EncodeNumber(f, vs[i]).value;
    }
    return true;
  }

  ghost function Both(a: Option<Bytes>, b: Option<Bytes>): Option<Bytes> {
    match (a, b)
    case (Some(x), Some(y)) => Some(x + y)
    case _ => None
  }

  lemma JoinMore(done: Bytes, x: Option<Bytes>, more: Option<Bytes>)
    ensures Join(done, Both(x, more)) == match Join(done, x) case None => None case Some(e) => Join(e, more)
  {
    if x.Some? && more.Some? {
      assert done + (x.value + more.value) == done + x.value + more.value;
    }
  }

  /** Each item behind its key. */
  method EncodeTaggedItems(s: OStream, f: Field, vs: seq<Value>) returns (ok: bool)
    requires forall j :: 0 <= j < |vs| ==> Fits(f, vs[j])
    requires s.Valid(s.Now())
    modifies s
    ensures s.Wrote(old(s.Now()), s.Now(), EncodeTagged(f, vs), ok)
    decreases f, 2
  {
    hide EncodeValue, Fits;
    ghost var a := s.Now();
    ghost var done: Bytes := [];
    WroteNothing(s, a);
    JoinNothing(EncodeTagged(f, vs));
    assert vs[0..] == vs;
    for i := 0 to |vs|
      invariant s.Wrote(a, s.Now(), Some(done), true)
      invariant Join(done, EncodeTagged(f, vs[i..])) == EncodeTagged(f, vs)
    {
      ghost var mid := s.Now();
      ghost var rest := vs[i..];
      assert rest[0] == vs[i] && rest[1..] == vs[i + 1..];
      ok := EncodeTaggedItem(s, f, vs[i]);
      ghost var e := TaggedItem(f, vs[i]);
      TaggedIsBoth(f, rest);
      WroteMore(s, a, mid, s.Now(), done, e, ok);
      JoinMore(done, e, EncodeTagged(f, rest[1..]));
      if !ok {
        FailedEarly(s, a, s.Now(), Join(done, e), EncodeTagged(f, rest[1..]));
        return false;
      }
      done := done + e.value;
    }
    return true;
  }

  ghost function TaggedItem(f: Field, v: Value): Option<Bytes> {
    match EncodeValue(f, v)
    case None => None
    case Some(b) => Some(Key(f.tag, f.ltype.WireType()) + b)
  }

  lemma TaggedIsBoth(f: Field, vs: seq<Value>)
    requires vs != []
    ensures EncodeTagged(f, vs) == Both(TaggedItem(f, vs[0]), EncodeTagged(f, vs[1..]))
  {
  }

  method EncodeTaggedItem(s: OStream, f: Field, v: Value) returns (ok: bool)
    requires Fits(f, v)
    requires s.Valid(s.Now())
    modifies s
    ensures s.Wrote(old(s.Now()), s.Now(), TaggedItem(f, v), ok)
    decreases f, 1
  {
    ghost var a := s.Now();
    ghost var key := Key(f.tag, f.ltype.WireType());
    ok := EncodeTag(s, f.ltype.WireType(), f.tag);
    ghost var mid := s.Now();
    if !ok {
      FailedEarly(s, a, mid, Some(key), EncodeValue(f, v));
      return;
    }
    ok := EncodeItem(s, f, v);
    WroteMore(s, a, mid, s.Now(), key, EncodeValue(f, v), ok);
  }

  /** The total size of a packed array: fixed-width numbers are multiplied, others counted. */
  method PackedSize(f: Field, vs: seq<Value>) returns (ok: bool, size: nat)
    requires f.ltype.Packable() && forall j :: 0 <= j < |vs| ==> Fits(f, vs[j])
    ensures ok == EncodePacked(f, vs).Some?
    ensures ok ==> size == |EncodePacked(f, vs).value|
  {
    ok, size := true, 0;
    if f.ltype.Fixed32Type? {
      FixedPacked(f, vs, 4);
      size := 4 * |vs|;
    } else if f.ltype.Fixed64Type? {
      FixedPacked(f, vs, 8);
      size := 8 * |vs|;
    } else {
      var counter := new OStream(true, 0, []);
      ok := EncodePackedItems(counter, f, vs);
      size := counter.written;
    }
  }

  lemma {:induction false} FixedPacked(f: Field, vs: seq<Value>, width: nat)
    requires (f.ltype.Fixed32Type? && width == 4) || (f.ltype.Fixed64Type? && width == 8)
    requires forall j :: 0 <= j < |vs| ==> Fits(f, vs[j])
    ensures EncodePacked(f, vs).Some? && |EncodePacked(f, vs).value| == width * |vs|
    decreases |vs|
  {
    if vs != [] {
      FixedPacked(f, vs[1..], width);
    }
  }

  method EncodePackedArray(s: OStream, f: Field, vs: seq<Value>) returns (ok: bool)
    requires f.ltype.Packable() && vs != [] && forall j :: 0 <= j < |vs| ==> Fits(f, vs[j])
    requires s.Valid(s.Now())
    modifies s
    ensures s.Wrote(old(s.Now()), s.Now(), PackedField(f, vs), ok)
  {
    hide Varint, EncodePacked, Fits;
    ghost var a, e, key := s.Now(), EncodePacked(f, vs), Key(f.tag, 2);
    ok := EncodeTag(s, 2, f.tag);
    ghost var keyed := s.Now();
    if !ok {
      FailedEarly(s, a, keyed, Some(key), LengthBehind(e));
      return;
    }
    var size: nat;
    ok, size := PackedSize(f, vs);
    if !ok {
      return;
    }
    ok := EncodePayload(s, f, vs, size);
    WroteMore(s, a, keyed, s.Now(), key, LengthBehind(e), ok);
  }

  ghost function LengthBehind(e: Option<Bytes>): Option<Bytes> {
    match e
    case None => None
    case Some(b) => Some(Delimited(b))
  }

  ghost function PackedField(f: Field, vs: seq<Value>): Option<Bytes>
    requires f.ltype.Packable()
  {
    Join(Key(f.tag, 2), LengthBehind(EncodePacked(f, vs)))
  }

  /** The length and, unless only counting, the numbers. */
  method EncodePayload(s: OStream, f: Field, vs: seq<Value>, size: nat) returns (ok: bool)
    requires f.ltype.Packable() && forall j :: 0 <= j < |vs| ==> Fits(f, vs[j])
    requires EncodePacked(f, vs).Some? && size == |EncodePacked(f, vs).value|
    requires s.Valid(s.Now())
    modifies s
    ensures s.Wrote(old(s.Now()), s.Now(), LengthBehind(EncodePacked(f, vs)), ok)
  {
    hide EncodePacked, Fits, Varint;
    ghost var a, e := s.Now(), EncodePacked(f, vs);
    ok := EncodeVarint(s, size);
    ghost var mid := s.Now();
    if !ok {
      FailedEarly(s, a, mid, Some(Varint(size)), e);
      return;
    }
    if s.sizing {
      ok := s.Count(size);
      return;
    }
    ok := EncodePackedItems(s, f, vs);
    WroteMore(s, a, mid, s.Now(), Varint(size), e, ok);
  }

  /** encode_array: packed where the type allows it. */
  method EncodeArray(s: OStream, f: Field, vs: seq<Value>) returns (ok: bool)
    requires f.htype.Repeated? && forall j :: 0 <= j < |vs| ==> Fits(f, vs[j])
    requires s.Valid(s.Now())
    modifies s
    ensures s.Wrote(old(s.Now()), s.Now(), EncodeField(f, vs), ok)
    decreases f, 3
  {
    hide Fits, EncodePacked, Delimited, Key;
    if |vs| == 0 {
      return true;
    }
    if |vs| > f.arraySize {
      return false;
    }
    if f.ltype.Packable() {
      ok := EncodePackedArray(s, f, vs);
    } else {
      ok := EncodeTaggedItems(s, f, vs);
    }
  }

  /** encode_basic_field: what is present is written, by the field's rule. */
  method EncodeBasicField(s: OStream, f: Field, i: nat, m: Message) returns (ok: bool)
    requires i < |m.slots| && SlotFits(f, i, m)
    requires s.Valid(s.Now())
    modifies s
    ensures s.Wrote(old(s.Now()), s.Now(), EncodeField(f, Present(f, i, m)), ok)
    decreases f, 4
  {
    ok := true;
    match f.htype {
      case Required =>
        ok := EncodeSingle(s, f, m.slots[i].value);
      case Optional =>
        if m.slots[i].has {
          ok := EncodeSingle(s, f, m.slots[i].value);
        }
      case Singular =>
        var has := !IsZero(f, m.slots[i].value);
        if has {
          ok := EncodeSingle(s, f, m.slots[i].value);
        }
      case Repeated =>
        ok := EncodeArray(s, f, m.slots[i].items);
      case OneOf(g) =>
        if Chosen(m, g, f.tag) {
          ok := EncodeSingle(s, f, m.unions[g].value);
        }
    }
  }

  method EncodeSingle(s: OStream, f: Field, v: Value) returns (ok: bool)
    requires !f.htype.Repeated? && Fits(f, v)
    requires s.Valid(s.Now())
    modifies s
    ensures s.Wrote(old(s.Now()), s.Now(), EncodeField(f, [v]), ok)
    decreases f, 3
  {
    ok := EncodeTaggedItem(s, f, v);
    assert [v][1..] == [];
    TaggedIsBoth(f, [v]);
    if TaggedItem(f, v).Some? {
      assert TaggedItem(f, v).value + [] == TaggedItem(f, v).value;
    }
  }

  /** pb_encode: the fields in order. */
  method EncodeMessage(s: OStream, fields: seq<Field>, m: Message) returns (ok: bool)
    requires MessageFits(fields, m)
    requires s.Valid(s.Now())
    modifies s
    ensures s.Wrote(old(s.Now()), s.Now(), Encode(fields, m), ok)
    decreases fields, 0
  {
    hide EncodeField, SlotFits, Present;
    ghost var a := s.Now();
    ghost var done: Bytes := [];
    ghost var k: nat := 0;
    WroteNothing(s, a);
    JoinNothing(EncodeFrom(fields, m, 0));
    var iter := new FieldIter(fields);
    var more := iter.Begin();
    while more
      invariant iter.Valid() && fresh(iter) && iter.fields == fields
      invariant k == (if more then iter.pos else |fields|) && k <= |fields| && (more ==> k < |fields|)
      invariant s.Wrote(a, s.Now(), Some(done), true)
      invariant Join(done, EncodeFrom(fields, m, k)) == EncodeFrom(fields, m, 0)
      decreases |fields| - k
    {
      ghost var mid := s.Now();
      ghost var e, rest := EncodeField(fields[k], Present(fields[k], k, m)), EncodeFrom(fields, m, k + 1);
      ok := EncodeBasicField(s, fields[iter.pos], iter.pos, m);
      assert EncodeFrom(fields, m, k) == Both(e, rest);
      WroteMore(s, a, mid, s.Now(), done, e, ok);
      JoinMore(done, e, rest);
      if !ok {
        FailedEarly(s, a, s.Now(), Join(done, e), rest);
        return false;
      }
      done := done + e.value;
      k := k + 1;
      more := iter.Next();
    }
    return true;
  }

  /** pb_get_encoded_size. */
  method GetEncodedSize(fields: seq<Field>, m: Message) returns (size: Option<nat>)
    requires MessageFits(fields, m)
    ensures size == match Encode(fields, m) case None => None case Some(b) => Some(|b|)
  {
    var counter := new OStream(true, 0, []);
    var ok := EncodeMessage(counter, fields, m);
    return if ok then Some(counter.written) else None;
  }

  /** Encoding into a buffer of a given size succeeds exactly if the encoding exists and fits. */
  method EncodeToBuffer(fields: seq<Field>, m: Message, bufferSize: nat) returns (r: Option<Bytes>)
    requires MessageFits(fields, m)
    ensures r == if Encode(fields, m).Some? && |Encode(fields, m).value| <= bufferSize then Encode(fields, m) else None
  {
    var stream := new OStream(false, bufferSize, []);
    var ok := EncodeMessage(stream, fields, m);
    assert ok ==> [] + Encode(fields, m).value == Encode(fields, m).value;
    return if ok then Some(stream.out) else None;
  }
}
