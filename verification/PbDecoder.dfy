/** The decoder: streams with a limited number of bytes left, and the loops over them. */
module PbDecoder {
  import opened Basics
  import opened Coding
  import opened PbTypes
  import opened PbDecoding
  import opened PbFieldIter
  import opened PbRequired
  import opened PbMissing
  import opened PbBounds

  class IStream {
    const data: Bytes
    var pos: nat
    var left: nat

    ghost predicate Valid()
      reads this
    {
      pos + left <= |data|
    }

    ghost function Rest(): Bytes
      requires Valid()
      reads this
    {
      data[pos..pos + left]
    }

    constructor (data: Bytes, pos: nat, left: nat)
      requires pos + left <= |data|
      ensures Valid() && this.data == data && this.pos == pos && this.left == left
    {
      this.data := data;
      this.pos, this.left := pos, left;
    }

    /** The stream was read up to a rest of the same input. */
    ghost predicate At(end: nat, rest: Bytes)
      reads this
    {
      Valid() && pos + left == end && Rest() == rest
    }

    method ReadByte() returns (b: Option<byte>)
      requires Valid()
      modifies this
      ensures Valid() && pos + left == old(pos + left)
      ensures b == if old(Rest()) == [] then None else Some(old(Rest())[0])
      ensures Rest() == if old(Rest()) == [] then [] else old(Rest())[1..]
    {
      if left == 0 {
        return None;
      }
      b := Some(data[pos]);
      pos, left := pos + 1, left - 1;
    }

    method Read(n: nat) returns (r: Option<Bytes>)
      requires Valid()
      modifies this
      ensures Valid() && pos + left == old(pos + left)
      ensures if |old(Rest())| < n then r == None && Rest() == old(Rest())
              else r == Some(old(Rest())[..n]) && Rest() == old(Rest())[n..]
    {
      if left < n {
        return None;
      }
      r := Some(data[pos..pos + n]);
      assert Rest()[..n] == r.value;
      pos, left := pos + n, left - n;
    }

    /** pb_decode_varint32. */
    method ReadVarint32() returns (r: Option<Word>)
      requires Valid()
      modifies this
      ensures Valid() && pos + left == old(pos + left)
      ensures match DecodeVarint32(old(Rest()))
              case None => r == None
              case Some(p) => r == Some(p.value) && Rest() == p.rest
    {
      ghost var input := Rest();
      var b := ReadByte();
      if b == None {
        return None;
      }
      if b.value < 128 {
        return Some(b.value);
      }
      var result: Word, bitpos: nat := b.value % 128, 7;
      while true
        invariant Valid() && pos + left == old(pos + left)
        invariant DecodeVarint32(input) == MoreVarint32(result, bitpos, Rest())
        decreases left
      {
        b := ReadByte();
        if b == None {
          return None;
        }
        var g := ReadGroup(result, bitpos, b.value);
        match g
        case Refused => return None;
        case Done(value) => return Some(value);
        case More(next) => result, bitpos := next, bitpos + 7;
      }
    }

    /** One byte's effect in the loop, with the check for a last byte that sticks out. */
    static method ReadGroup(result: Word, bitpos: nat, b: byte) returns (g: Group)
      ensures g == Group32(result, bitpos, b)
    {
      hide Pow;
      var next := result;
      if bitpos >= 32 {
        var extension := if bitpos < 63 then 0xFF else 0x01;
        if b % 128 != 0 && (result / 0x8000_0000 == 0 || b != extension) {
          return Refused;
        }
      } else {
        next := (result + b % 128 * Pow(2, bitpos)) % TWO32;
      }
      if b >= 128 {
        return More(next);
      }
      if bitpos + 7 == 35 && b / 16 % 8 != 0 {
        return Refused;
      }
      return Done(next);
    }

    /** pb_decode_varint: up to ten bytes; bits above the 64th are lost. */
    method ReadVarint() returns (r: Option<nat>)
      requires Valid()
      modifies this
      ensures Valid() && pos + left == old(pos + left)
      ensures match GetVarint64(old(Rest()))
              case None => r == None
              case Some(p) => r == Some(p.value) && Rest() == p.rest
    {
      hide ParseVarint, Placed;
      ghost var input := Rest();
      ghost var whole: nat, i: nat := 0, 0;
      var result: nat, bitpos: nat, scale: nat := 0, 0, 1;
      PlacedNowhere(input, 10);
      while true
        invariant Valid() && pos + left == old(pos + left)
        invariant i <= 10 && bitpos == 7 * i && result == whole % TWO64
        invariant ParseVarint(input, 10) == Placed(ParseVarint(Rest(), 10 - i), whole, scale)
        decreases 10 - i
      {
        PlacedAtEnd(Rest(), 10 - i, whole, scale);
        if bitpos >= 64 {
          return None;
        }
        ghost var rest := Rest();
        var b := ReadByte();
        if b == None {
          return None;
        }
        var digit: nat := b.value % 128;
        PlacedByte(rest, 10 - i, whole, scale);
        AddMod(whole, digit * scale, TWO64);
        result := (result + digit * scale) % TWO64;
        if b.value < 128 {
          return Some(result);
        }
        whole := whole + digit * scale;
        scale := scale * 128;
        bitpos, i := bitpos + 7, i + 1;
      }
    }

    method PassVarint() returns (ok: bool)
      requires Valid()
      modifies this
      ensures Valid() && pos + left == old(pos + left)
      ensures ok == SkipVarint(old(Rest())).Some?
      ensures ok ==> Rest() == SkipVarint(old(Rest())).value
    {
      ghost var input := Rest();
      while true
        invariant Valid() && pos + left == old(pos + left)
        invariant SkipVarint(input) == SkipVarint(Rest())
        decreases left
      {
        var b := ReadByte();
        if b == None {
          return false;
        }
        if b.value < 128 {
          return true;
        }
      }
    }

    /** pb_skip_field. */
    method SkipField(wireType: nat) returns (ok: bool)
      requires Valid()
      modifies this
      ensures Valid() && pos + left == old(pos + left)
      ensures ok == Skip(old(Rest()), wireType).Some?
      ensures ok ==> Rest() == Skip(old(Rest()), wireType).value
    {
      if wireType == 0 {
        ok := PassVarint();
      } else if wireType == 1 {
        var r := Read(8);
        ok := r.Some?;
      } else if wireType == 2 {
        var length := ReadVarint32();
        if length == None {
          return false;
        }
        var r := Read(length.value);
        ok := r.Some?;
      } else if wireType == 5 {
        var r := Read(4);
        ok := r.Some?;
      } else {
        return false;
      }
    }

    /** pb_make_string_substream: the parent gives up the bytes at once, but stays where it is
        until the substream is closed. */
    method MakeSubstream() returns (sub: Option<IStream>)
      requires Valid()
      modifies this
      ensures match TakeDelimited(old(Rest()))
              case None => sub == None && Valid()
              case Some(p) => sub.Some? && fresh(sub.value) && Opened(sub.value, p.value, p.rest, old(pos + left))
    {
      var size := ReadVarint32();
      if size == None || left < size.value {
        return None;
      }
      left := left - size.value;
      var s := new IStream(data, pos, size.value);
      return Some(s);
    }

    /** The parent of an open substream. */
    ghost predicate Opened(sub: IStream, payload: Bytes, rest: Bytes, end: nat)
      reads this, sub
    {
      sub != this && sub.data == data && sub.Valid() && sub.Rest() == payload &&
      HeldUntil(sub.pos + sub.left, rest, end)
    }

    ghost predicate HeldUntil(close: nat, rest: Bytes, end: nat)
      reads this
    {
      pos <= close && close + left == end && end <= |data| && rest == data[close..end]
    }

    /** pb_close_string_substream: what the substream did not read is skipped. */
    method CloseSubstream(sub: IStream, ghost rest: Bytes, ghost end: nat)
      requires sub != this && sub.Valid() && sub.data == data && HeldUntil(sub.pos + sub.left, rest, end)
      modifies this, sub
      ensures At(end, rest)
    {
      if sub.left > 0 {
        var _ := sub.Read(sub.left);
      }
      pos := sub.pos;
    }
  }

  // ----- Fields -----

  method ReadNumber(s: IStream, f: Field) returns (r: Option<Value>)
    requires f.ltype.Packable() && s.Valid()
    modifies s
    ensures s.Valid() && s.pos + s.left == old(s.pos + s.left)
    ensures match DecodeNumber(f, old(s.Rest()))
            case None => r == None
            case Some(p) => r == Some(p.value) && s.Rest() == p.rest
  {
    if f.ltype.Fixed32Type? || f.ltype.Fixed64Type? {
      var bytes := s.Read(if f.ltype.Fixed32Type? then 4 else 8);
      return if bytes == None then None else Some(Number(FromFixed(bytes.value)));
    }
    var v := s.ReadVarint();
    return if v == None then None else StoreNumber(f, v.value);
  }

  /** A value with a length in front: its bytes are checked against the room there is, or
      decoded as a message of their own. */
  method ReadPayload(s: IStream, f: Field, was: Value) returns (r: Option<Value>)
    requires !f.ltype.Packable() && s.Valid() && FieldWellFormed(f)
    modifies s
    ensures s.Valid() && (r.Some? ==> s.pos + s.left == old(s.pos + s.left))
    ensures r == DecodePayload(f, was, old(s.Rest()))
    decreases f, 0
  {
    var size := s.left;
    match f.ltype {
      case BytesType =>
        if size + BYTES_HEADER > f.dataSize {
          return None;
        }
      case StringType =>
        if size + 1 > f.dataSize {
          return None;
        }
      case FixedBytesType =>
        if size == 0 {
          return Some(Zero(f));
        }
        if size != f.dataSize {
          return None;
        }
      case SubmessageType(fs) =>
        var start := if f.htype.Repeated? then Defaults(fs) else Inner(fs, was);
        var m := DecodeNoInit(s, fs, start);
        return if m == None then None else Some(Nested(m.value));
    }
    assert s.Rest()[..size] == s.Rest();
    var bytes := s.Read(size);
    return Some(Blob(bytes.value));
  }

  method ReadValue(s: IStream, f: Field, was: Value) returns (r: Option<Value>)
    requires s.Valid() && FieldWellFormed(f)
    modifies s
    ensures s.Valid()
    ensures match DecodeValue(f, was, old(s.Rest()))
            case None => r == None
            case Some(p) => r == Some(p.value) && s.At(old(s.pos + s.left), p.rest)
    decreases f, 1
  {
    hide DecodeNumber, DecodePayload, TakeDelimited, Zero;
    if f.ltype.Packable() {
      r := ReadNumber(s, f);
      return;
    }
    ghost var end, taken := s.pos + s.left, TakeDelimited(s.Rest());
    var sub := s.MakeSubstream();
    if sub == None {
      return None;
    }
    r := ReadPayload(sub.value, f, was);
    if r == None {
      return;
    }
    s.CloseSubstream(sub.value, taken.value.rest, end);
  }

  /** A packed array: items until the substream is empty or the array full. */
  method ReadPacked(s: IStream, f: Field, had: seq<Value>) returns (r: Option<seq<Value>>)
    requires f.ltype.Packable() && s.Valid()
    modifies s
    ensures s.Valid()
    ensures match TakeDelimited(old(s.Rest()))
            case None => r == None
            case Some(p) =>
              r == DecodePacked(f, had, p.value) && (r.Some? ==> s.At(old(s.pos + s.left), p.rest))
  {
    hide DecodeNumber, TakeDelimited;
    ghost var end, taken := s.pos + s.left, TakeDelimited(s.Rest());
    var made := s.MakeSubstream();
    if made == None {
      return None;
    }
    var sub := made.value;
    var items, status := had, true;
    while status && sub.left > 0 && |items| < f.arraySize
      invariant fresh(sub) && sub.Valid() && s.Opened(sub, sub.Rest(), taken.value.rest, end)
      invariant if status then DecodePacked(f, had, taken.value.value) == DecodePacked(f, items, sub.Rest())
                else DecodePacked(f, had, taken.value.value) == None
      decreases status, sub.left
    {
      var v := ReadNumber(sub, f);
      if v == None {
        status := false;
      } else {
        items := items + [v.value];
      }
    }
    if sub.left != 0 {
      return None;
    }
    s.CloseSubstream(sub, taken.value.rest, end);
    return if status then Some(items) else None;
  }

  /** decode_field: the destination is updated by the field's rule. */
  method ReadField(s: IStream, fields: seq<Field>, i: nat, wireType: nat, m: Message) returns (r: Option<Message>)
    requires s.Valid() && WellFormed(fields) && i < |fields| == |m.slots|
    modifies s
    ensures s.Valid()
    ensures match DecodeField(fields, i, wireType, m, old(s.Rest()))
            case None => r == None
            case Some(p) => r == Some(p.value) && s.At(old(s.pos + s.left), p.rest)
    decreases fields, 0
  {
    var f := fields[i];
    assert FieldWellFormed(f);
    if f.htype.Repeated? && wireType == 2 && f.ltype.Packable() {
      hide DecodePacked, TakeDelimited;
      var items := ReadPacked(s, f, Items(m, i));
      return if items == None then None else Some(SetSlot(m, i, Many(items.value)));
    }
    hide DecodeValue;
    if f.htype.Repeated? && |Items(m, i)| >= f.arraySize {
      return None;
    }
    if UnionBroken(fields, i, m) {
      return None;
    }
    ghost var input := s.Rest();
    assert DecodeField(fields, i, wireType, m, input) == DecodeSingle(f, i, m, input);
    hide DecodeField;
    var was := if f.htype.OneOf? || f.htype.Repeated? then DefaultValue(f) else Current(m, i);
    var v := ReadValue(s, f, was);
    return if v == None then None else Some(Stored(f, i, m, v.value));
  }

  lemma NoFields(st: State, key: Word, input: Bytes)
    requires st.m.slots == [] && key / 8 == 0
    ensures DecodeRecord([], st, key, input) == None
  {
  }

  lemma UnknownRecord(fields: seq<Field>, st: State, key: Word, input: Bytes)
    requires |st.m.slots| == |fields| && forall k :: 0 <= k < |fields| ==> fields[k].tag != key / 8
    requires fields != [] || key / 8 != 0
    ensures DecodeRecord(fields, st, key, input)
         == match Skip(input, key % 8) case None => None case Some(rest) => Some(Parsed(st, rest))
  {
    hide Skip, DecodeField;
  }

  ghost function SeenWith(fields: seq<Field>, i: nat, seen: set<nat>): set<nat>
    requires i < |fields|
  {
    if fields[i].htype.Required? then seen + {i} else seen
  }

  lemma KnownRecord(fields: seq<Field>, st: State, key: Word, input: Bytes, i: nat)
    requires |st.m.slots| == |fields| && i < |fields| && WellFormed(fields) && fields[i].tag == key / 8
    ensures DecodeRecord(fields, st, key, input)
         == match DecodeField(fields, i, key % 8, st.m, input)
            case None => None
            case Some(p) => Some(Parsed(State(p.value, SeenWith(fields, i, st.seen)), p.rest))
  {
    FindIsIndex(fields, key / 8, i);
    hide Skip, DecodeField;
  }

  /** One record: find its field, from wherever the cursor stands, or skip it. */
  method ReadRecord(s: IStream, iter: FieldIter, words: Bitmap, m: Message, key: Word, ghost seen: set<nat>)
    returns (r: Option<Message>, seenWords: Bitmap)
    requires s.Valid() && iter.Valid() && WellFormed(iter.fields) && |m.slots| == |iter.fields|
    requires Tracks(iter.fields, words, seen)
    modifies s, iter
    ensures s.Valid() && iter.Valid()
    ensures match DecodeRecord(iter.fields, State(m, seen), key, old(s.Rest()))
            case None => r == None
            case Some(p) =>
              r == Some(p.value.m) && Tracks(iter.fields, seenWords, p.value.seen) && s.At(old(s.pos + s.left), p.rest)
    decreases iter.fields, 1
  {
    hide DecodeField, Skip, DecodeRecord, Tracks;
    ghost var input, st := s.Rest(), State(m, seen);
    var fields := iter.fields;
    var tag, wireType := key / 8, key % 8;
    seenWords := words;
    var found := iter.Find(tag);
    if !found {
      UnknownRecord(fields, st, key, input);
      var ok := s.SkipField(wireType);
      return if ok then Some(m) else None, words;
    }
    if fields == [] {
      // The terminator has no room for a number.
      NoFields(st, key, input);
      var _ := s.ReadVarint();
      return None, words;
    }
    assert FieldWellFormed(fields[iter.pos]);
    KnownRecord(fields, st, key, input, iter.pos);
    if fields[iter.pos].htype.Required? {
      seenWords := Track(fields, words, iter.pos, seen);
    }
    r := ReadField(s, fields, iter.pos, wireType, m);
  }

  /** pb_decode_noinit. */
  method DecodeNoInit(s: IStream, fields: seq<Field>, start: Message) returns (r: Option<Message>)
    requires s.Valid() && WellFormed(fields) && |start.slots| == |fields|
    modifies s
    ensures s.Valid() && (r.Some? ==> s.pos + s.left == old(s.pos + s.left))
    ensures r == DecodeInto(fields, start, old(s.Rest()))
    ensures r.Some? ==> NoneMissing(fields, old(s.Rest()))
    decreases fields, 2
  {
    DecodedHasRequired(fields, start, s.Rest());
    hide DecodeRecord, DecodeVarint32, NoneMissing;
    ghost var input, end := s.Rest(), s.pos + s.left;
    var iter := new FieldIter(fields);
    var words: Bitmap, m := [{}, {}], start;
    ghost var seen: set<nat> := {};
    while s.left > 0
      invariant s.Valid() && s.pos + s.left == end
      invariant fresh(iter) && iter.Valid() && iter.fields == fields && |m.slots| == |fields|
      invariant Tracks(fields, words, seen)
      invariant DecodeFields(fields, State(start, {}), input) == DecodeFields(fields, State(m, seen), s.Rest())
      decreases s.left
    {
      var key := s.ReadVarint32();
      if key == None {
        return None;
      }
      if key.value == 0 {
        break;
      }
      ghost var step := DecodeRecord(fields, State(m, seen), key.value, s.Rest());
      var next: Option<Message>;
      next, words := ReadRecord(s, iter, words, m, key.value, seen);
      if next == None {
        return None;
      }
      m, seen := next.value, step.value.value.seen;
    }
    var count := CountRequired(iter);
    var ok := Complete(words, count);
    CompleteIsSeen(fields, words, seen);
    return if ok then Some(m) else None;
  }

  lemma DecodedWithin(fields: seq<Field>, data: Bytes)
    requires WellFormed(fields)
    ensures Decode(fields, data).Some? && DefaultsFit(fields) ==> InBounds(fields, Decode(fields, data).value)
  {
    hide InBounds, WellFormed, DefaultsFit, DecodeInto;
    if DefaultsFit(fields) {
      DefaultsInBounds(fields);
      DecodedInBounds(fields, Defaults(fields), data);
    }
  }

  /** pb_decode from a buffer. */
  method DecodeBuffer(fields: seq<Field>, data: Bytes) returns (r: Option<Message>)
    requires WellFormed(fields)
    ensures r == Decode(fields, data)
    ensures r.Some? ==> NoneMissing(fields, data)
    ensures r.Some? && DefaultsFit(fields) ==> InBounds(fields, r.value)
  {
    hide NoneMissing, InBounds, DefaultsFit, WellFormed;
    DecodedWithin(fields, data);
    var s := new IStream(data, 0, |data|);
    assert s.Rest() == data;
    r := DecodeNoInit(s, fields, Defaults(fields));
  }
}
