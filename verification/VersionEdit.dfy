/** The edits a manifest records, and their encoding. */
module VersionEdits {
  import opened Basics
  import opened Coding

  const LEVELS: nat := 7

  datatype FileMeta = FileMeta(number: nat, size: nat, smallest: Bytes, largest: Bytes)

  /** deleted holds (level, file number) pairs in increasing order, like the set it models. */
  datatype Edit = Edit(comparator: Option<Bytes>, logNumber: Option<nat>, prevLogNumber: Option<nat>,
                       nextFile: Option<nat>, lastSequence: Option<nat>, pointers: seq<(nat, Bytes)>,
                       deleted: seq<(nat, nat)>, added: seq<(nat, FileMeta)>)

  function NewEdit(): Edit {
    Edit(None, None, None, None, None, [], [], [])
  }

  /** VersionEdit::Clear does not forget the compaction pointers. */
  function Clear(e: Edit): Edit {
    NewEdit().(pointers := e.pointers)
  }

  datatype Field =
    | Comparator(name: Bytes)
    | LogNumber(number: nat)
    | PrevLogNumber(number: nat)
    | NextFile(number: nat)
    | LastSequence(number: nat)
    | Pointer(level: nat, key: Bytes)
    | Deleted(level: nat, file: nat)
    | NewFile(level: nat, meta: FileMeta)

  predicate MetaOk(f: FileMeta) {
    f.number < TWO64 && f.size < TWO64 && |f.smallest| < TWO32 && |f.largest| < TWO32
  }

  predicate FieldOk(f: Field) {
    match f
    case Comparator(name) => |name| < TWO32
    case Pointer(level, key) => level < LEVELS && |key| < TWO32
    case Deleted(level, file) => level < LEVELS && file < TWO64
    case NewFile(level, meta) => level < LEVELS && MetaOk(meta)
    case _ => f.number < TWO64
  }

  function TagOf(f: Field): Word {
    match f
    case Comparator(_) => 1
    case LogNumber(_) => 2
    case NextFile(_) => 3
    case LastSequence(_) => 4
    case Pointer(_, _) => 5
    case Deleted(_, _) => 6
    case NewFile(_, _) => 7
    case PrevLogNumber(_) => 9
  }

  function Payload(f: Field): Bytes {
    match f
    case Comparator(name) => LengthPrefixed(name)
    case Pointer(level, key) => Varint(level) + LengthPrefixed(key)
    case Deleted(level, file) => Varint(level) + Varint(file)
    case NewFile(level, m) =>
      Varint(level) + (Varint(m.number) + (Varint(m.size) + (LengthPrefixed(m.smallest) + LengthPrefixed(m.largest))))
    case _ => Varint(f.number)
  }

  function EncodeField(f: Field): (r: Bytes)
    ensures r != []
  {
    Varint(TagOf(f)) + Payload(f)
  }

  function EncodeFields(fs: seq<Field>): Bytes {
    if fs == [] then [] else EncodeField(fs[0]) + EncodeFields(fs[1..])
  }

  /** The fields that hold one number. */
  function NumberOf(tag: nat, n: nat): Field {
    if tag == 2 then LogNumber(n) else if tag == 3 then NextFile(n) else if tag == 4 then LastSequence(n) else PrevLogNumber(n)
  }

  function Optional(x: Option<nat>, tag: nat): seq<Field> {
    if x.Some? then [NumberOf(tag, x.value)] else []
  }

  function PointerFields(ps: seq<(nat, Bytes)>): (r: seq<Field>)
    ensures |r| == |ps| && forall i | 0 <= i < |ps| :: r[i] == Pointer(ps[i].0, ps[i].1)
  {
    seq(|ps|, i requires 0 <= i < |ps| => Pointer(ps[i].0, ps[i].1))
  }

  function DeletedFields(ds: seq<(nat, nat)>): (r: seq<Field>)
    ensures |r| == |ds| && forall i | 0 <= i < |ds| :: r[i] == Deleted(ds[i].0, ds[i].1)
  {
    seq(|ds|, i requires 0 <= i < |ds| => Deleted(ds[i].0, ds[i].1))
  }

  function AddedFields(fs: seq<(nat, FileMeta)>): (r: seq<Field>)
    ensures |r| == |fs| && forall i | 0 <= i < |fs| :: r[i] == NewFile(fs[i].0, fs[i].1)
  {
    seq(|fs|, i requires 0 <= i < |fs| => NewFile(fs[i].0, fs[i].1))
  }

  function HeadFields(e: Edit): seq<Field> {
    (if e.comparator.Some? then [Comparator(e.comparator.value)] else [])
    + Optional(e.logNumber, 2) + Optional(e.prevLogNumber, 9) + Optional(e.nextFile, 3) + Optional(e.lastSequence, 4)
  }

  /** The fields of an edit, in the order they are written. */
  function FieldsOf(e: Edit): seq<Field> {
    HeadFields(e) + PointerFields(e.pointers) + DeletedFields(e.deleted) + AddedFields(e.added)
  }

  // ----- Decoding -----

  datatype Failure = BadComparator | BadLogNumber | BadPrevLogNumber | BadNextFile | BadLastSequence
                   | BadPointer | BadDeletedFile | BadNewFile | UnknownTag | InvalidTag

  datatype FieldResult = Ok(field: Field, rest: Bytes) | Bad(failure: Failure)

  function GetLevel(input: Bytes): (r: Option<Parsed<nat>>)
    ensures r.Some? ==> r.value.value < LEVELS && |r.value.rest| < |input|
  {
    Shorter(input);
    match GetVarint32(input)
    case None => None
    case Some(p) => if p.value < LEVELS then Some(Parsed(p.value, p.rest)) else None
  }

  lemma Shorter(input: Bytes)
    ensures GetVarint32(input).Some? ==> |GetVarint32(input).value.rest| < |input|
    ensures GetVarint64(input).Some? ==> |GetVarint64(input).value.rest| < |input|
    ensures GetLengthPrefixed(input).Some? ==> |GetLengthPrefixed(input).value.rest| < |input|
  {
    if ParseVarint(input, 5).Some? {
      ParseVarintConsumes(input, 5);
    }
    if ParseVarint(input, 10).Some? {
      ParseVarintConsumes(input, 10);
    }
    GetLengthPrefixedShrinks(input);
  }

  function NumberField(input: Bytes, tag: nat, failure: Failure): (r: FieldResult)
    ensures r.Ok? ==> |r.rest| < |input|
  {
    Shorter(input);
    match GetVarint64(input)
    case None => Bad(failure)
    case Some(p) => Ok(NumberOf(tag, p.value), p.rest)
  }

  function ParseNewFile(input: Bytes): (r: FieldResult)
    ensures r.Ok? ==> |r.rest| < |input|
  {
    match GetLevel(input)
    case None => Bad(BadNewFile)
    case Some(level) =>
      Shorter(level.rest);
      match GetVarint64(level.rest)
      case None => Bad(BadNewFile)
      case Some(number) =>
        Shorter(number.rest);
        match GetVarint64(number.rest)
        case None => Bad(BadNewFile)
        case Some(size) =>
          Shorter(size.rest);
          match GetLengthPrefixed(size.rest)
          case None => Bad(BadNewFile)
          case Some(smallest) =>
            Shorter(smallest.rest);
            match GetLengthPrefixed(smallest.rest)
            case None => Bad(BadNewFile)
            case Some(largest) =>
              Ok(NewFile(level.value, FileMeta(number.value, size.value, smallest.value, largest.value)), largest.rest)
  }

  function ParsePointer(input: Bytes): (r: FieldResult)
    ensures r.Ok? ==> |r.rest| < |input|
  {
    match GetLevel(input)
    case None => Bad(BadPointer)
    case Some(level) =>
      Shorter(level.rest);
      match GetLengthPrefixed(level.rest)
      case None => Bad(BadPointer)
      case Some(key) => Ok(Pointer(level.value, key.value), key.rest)
  }

  function ParseDeleted(input: Bytes): (r: FieldResult)
    ensures r.Ok? ==> |r.rest| < |input|
  {
    match GetLevel(input)
    case None => Bad(BadDeletedFile)
    case Some(level) =>
      Shorter(level.rest);
      match GetVarint64(level.rest)
      case None => Bad(BadDeletedFile)
      case Some(number) => Ok(Deleted(level.value, number.value), number.rest)
  }

  /** The field behind a tag. */
  function ParsePayload(tag: nat, input: Bytes): (r: FieldResult)
    ensures r.Ok? ==> |r.rest| < |input|
  {
    if tag == 1 then
      Shorter(input);
      match GetLengthPrefixed(input)
      case None => Bad(BadComparator)
      case Some(p) => Ok(Comparator(p.value), p.rest)
    else if tag == 2 then NumberField(input, 2, BadLogNumber)
    else if tag == 9 then NumberField(input, 9, BadPrevLogNumber)
    else if tag == 3 then NumberField(input, 3, BadNextFile)
    else if tag == 4 then NumberField(input, 4, BadLastSequence)
    else if tag == 5 then ParsePointer(input)
    else if tag == 6 then ParseDeleted(input)
    else if tag == 7 then ParseNewFile(input)
    else Bad(UnknownTag)
  }

  predicate PairBefore(a: (nat, nat), b: (nat, nat)) {
    a.0 < b.0 || (a.0 == b.0 && a.1 < b.1)
  }

  ghost predicate PairsSorted(ds: seq<(nat, nat)>) {
    forall i, j | 0 <= i < j < |ds| :: PairBefore(ds[i], ds[j])
  }

  /** Insertion into the ordered set of deleted files. */
  function InsertPair(ds: seq<(nat, nat)>, d: (nat, nat)): seq<(nat, nat)> {
    if ds == [] then [d]
    else if ds[0] == d then ds
    else if PairBefore(d, ds[0]) then [d] + ds
    else [ds[0]] + InsertPair(ds[1..], d)
  }

  function SetField(e: Edit, f: Field): Edit {
    match f
    case Comparator(name) => e.(comparator := Some(name))
    case LogNumber(n) => e.(logNumber := Some(n))
    case PrevLogNumber(n) => e.(prevLogNumber := Some(n))
    case NextFile(n) => e.(nextFile := Some(n))
    case LastSequence(n) => e.(lastSequence := Some(n))
    case Pointer(level, key) => e.(pointers := e.pointers + [(level, key)])
    case Deleted(level, file) => e.(deleted := InsertPair(e.deleted, (level, file)))
    case NewFile(level, m) => e.(added := e.added + [(level, m)])
  }

  function DecodeFields(e: Edit, input: Bytes): (Edit, Option<Failure>)
    decreases |input|
  {
    match GetVarint32(input)
    case None => (e, if input == [] then None else Some(InvalidTag))
    case Some(tag) =>
      Shorter(input);
      match ParsePayload(tag.value, tag.rest)
      case Bad(failure) => (e, Some(failure))
      case Ok(f, rest) => DecodeFields(SetField(e, f), rest)
  }

  /** VersionEdit::DecodeFrom. */
  method DecodeFrom(before: Edit, src: Bytes) returns (e: Edit, failure: Option<Failure>)
    ensures (e, failure) == DecodeFields(Clear(before), src)
  {
    e := Clear(before);
    var input := src;
    var tag := GetVarint32(input);
    while tag.Some?
      invariant tag == GetVarint32(input)
      invariant DecodeFields(Clear(before), src) == DecodeFields(e, input)
      decreases |input|
    {
      Shorter(input);
      match ParsePayload(tag.value.value, tag.value.rest) {
        case Bad(why) => return e, Some(why);
        case Ok(f, rest) =>
          e := SetField(e, f);
          input := rest;
      }
      tag := GetVarint32(input);
    }
    failure := if input == [] then None else Some(InvalidTag);
  }

  // ----- Encoding an edit and decoding it again -----

  method AppendFields(dst: Bytes, fs: seq<Field>) returns (r: Bytes)
    ensures r == dst + EncodeFields(fs)
  {
    hide EncodeField;
    r := dst;
    for i := 0 to |fs|
      invariant dst + EncodeFields(fs) == r + EncodeFields(fs[i..])
    {
      FirstField(r, fs[i..]);
      assert fs[i..][1..] == fs[i + 1..];
      r := r + EncodeField(fs[i]);
    }
    assert r + [] == r;
  }

  lemma FirstField(r: Bytes, fs: seq<Field>)
    requires fs != []
    ensures r + EncodeFields(fs) == (r + EncodeField(fs[0])) + EncodeFields(fs[1..])
  {
    hide EncodeField;
  }

  /** VersionEdit::EncodeTo. */
  method EncodeTo(e: Edit, dst: Bytes) returns (r: Bytes)
    ensures r == dst + EncodeFields(FieldsOf(e))
  {
    r := AppendFields(dst, FieldsOf(e));
  }

  lemma LevelRoundTrip(level: nat, rest: Bytes)
    requires level < LEVELS
    ensures GetLevel(Varint(level) + rest) == Some(Parsed(level, rest))
  {
    Varint32RoundTrip(level, rest);
  }

  lemma NewFileRoundTrip(level: nat, m: FileMeta, rest: Bytes)
    requires level < LEVELS && MetaOk(m)
    ensures ParseNewFile(Payload(NewFile(level, m)) + rest) == Ok(NewFile(level, m), rest)
  {
    hide Varint, GetVarint64, GetLengthPrefixed, GetLevel, LengthPrefixed;
    var largest := LengthPrefixed(m.largest) + rest;
    var smallest := LengthPrefixed(m.smallest) + largest;
    var size := Varint(m.size) + smallest;
    var number := Varint(m.number) + size;
    assert Payload(NewFile(level, m)) + rest == Varint(level) + number;
    LevelRoundTrip(level, number);
    Varint64RoundTrip(m.number, size);
    Varint64RoundTrip(m.size, smallest);
    LengthPrefixedRoundTrip(m.smallest, largest);
    LengthPrefixedRoundTrip(m.largest, rest);
  }

  lemma PayloadRoundTrip(f: Field, rest: Bytes)
    requires FieldOk(f)
    ensures ParsePayload(TagOf(f), Payload(f) + rest) == Ok(f, rest)
  {
    hide Varint, GetVarint64, GetLengthPrefixed, GetLevel, LengthPrefixed, ParseNewFile;
    match f {
      case Comparator(name) => LengthPrefixedRoundTrip(name, rest);
      case Pointer(level, key) =>
        assert Payload(f) + rest == Varint(level) + (LengthPrefixed(key) + rest);
        LevelRoundTrip(level, LengthPrefixed(key) + rest);
        LengthPrefixedRoundTrip(key, rest);
      case Deleted(level, file) =>
        assert Payload(f) + rest == Varint(level) + (Varint(file) + rest);
        LevelRoundTrip(level, Varint(file) + rest);
        Varint64RoundTrip(file, rest);
      case NewFile(level, m) => NewFileRoundTrip(level, m, rest);
      case _ => Varint64RoundTrip(f.number, rest);
    }
  }

  function SetFields(e: Edit, fs: seq<Field>): Edit
    decreases |fs|
  {
    if fs == [] then e else SetFields(SetField(e, fs[0]), fs[1..])
  }

  lemma {:induction false} FieldsRoundTrip(e: Edit, fs: seq<Field>)
    requires forall i | 0 <= i < |fs| :: FieldOk(fs[i])
    ensures DecodeFields(e, EncodeFields(fs)) == (SetFields(e, fs), None)
    decreases |fs|
  {
    hide Varint, Payload, ParsePayload, SetField, FieldOk;
    if fs == [] {
      assert GetVarint32([]) == None;
    } else {
      var rest := EncodeFields(fs[1..]);
      assert EncodeFields(fs) == Varint(TagOf(fs[0])) + (Payload(fs[0]) + rest);
      Varint32RoundTrip(TagOf(fs[0]), Payload(fs[0]) + rest);
      PayloadRoundTrip(fs[0], rest);
      FieldsRoundTrip(SetField(e, fs[0]), fs[1..]);
    }
  }

  lemma {:induction false} SetFieldsSplit(e: Edit, a: seq<Field>, b: seq<Field>)
    ensures SetFields(e, a + b) == SetFields(SetFields(e, a), b)
    decreases |a|
  {
    if a == [] {
      assert a + b == b;
    } else {
      assert (a + b)[0] == a[0] && (a + b)[1..] == a[1..] + b;
      SetFieldsSplit(SetField(e, a[0]), a[1..], b);
    }
  }

  lemma {:induction false} SetPointers(e: Edit, ps: seq<(nat, Bytes)>)
    ensures SetFields(e, PointerFields(ps)) == e.(pointers := e.pointers + ps)
    decreases |ps|
  {
    if ps == [] {
      assert e.pointers + ps == e.pointers;
    } else {
      assert PointerFields(ps)[1..] == PointerFields(ps[1..]);
      SetPointers(e.(pointers := e.pointers + [ps[0]]), ps[1..]);
      assert (e.pointers + [ps[0]]) + ps[1..] == e.pointers + ps;
    }
  }

  lemma {:induction false} InsertLast(ds: seq<(nat, nat)>, d: (nat, nat))
    requires forall i | 0 <= i < |ds| :: PairBefore(ds[i], d)
    ensures InsertPair(ds, d) == ds + [d]
  {
    if ds != [] {
      InsertLast(ds[1..], d);
      assert ds[0] != d && !PairBefore(d, ds[0]);
    }
  }

  lemma {:induction false} SetDeleted(e: Edit, ds: seq<(nat, nat)>)
    requires PairsSorted(e.deleted + ds)
    ensures SetFields(e, DeletedFields(ds)) == e.(deleted := e.deleted + ds)
    decreases |ds|
  {
    if ds == [] {
      assert e.deleted + ds == e.deleted;
    } else {
      assert DeletedFields(ds)[1..] == DeletedFields(ds[1..]);
      var all := e.deleted + ds;
      forall i | 0 <= i < |e.deleted|
        ensures PairBefore(e.deleted[i], ds[0])
      {
        assert all[i] == e.deleted[i] && all[|e.deleted|] == ds[0];
      }
      InsertLast(e.deleted, ds[0]);
      assert (e.deleted + [ds[0]]) + ds[1..] == e.deleted + ds;
      SetDeleted(e.(deleted := e.deleted + [ds[0]]), ds[1..]);
    }
  }

  lemma {:induction false} SetAdded(e: Edit, fs: seq<(nat, FileMeta)>)
    ensures SetFields(e, AddedFields(fs)) == e.(added := e.added + fs)
    decreases |fs|
  {
    if fs == [] {
      assert e.added + fs == e.added;
    } else {
      assert AddedFields(fs)[1..] == AddedFields(fs[1..]);
      SetAdded(e.(added := e.added + [fs[0]]), fs[1..]);
      assert (e.added + [fs[0]]) + fs[1..] == e.added + fs;
    }
  }

  ghost predicate EditOk(e: Edit) {
    && PairsSorted(e.deleted)
    && forall i | 0 <= i < |FieldsOf(e)| :: FieldOk(FieldsOf(e)[i])
  }

  lemma SetHead(e0: Edit, e: Edit)
    requires e0 == Clear(e0)
    ensures SetFields(e0, HeadFields(e)) == e.(pointers := e0.pointers, deleted := [], added := [])
  {
    var c := if e.comparator.Some? then [Comparator(e.comparator.value)] else [];
    var l, p, n, q := Optional(e.logNumber, 2), Optional(e.prevLogNumber, 9), Optional(e.nextFile, 3), Optional(e.lastSequence, 4);
    SetFieldsSplit(e0, c + l + p + n, q);
    SetFieldsSplit(e0, c + l + p, n);
    SetFieldsSplit(e0, c + l, p);
    SetFieldsSplit(e0, c, l);
  }

  lemma SetAll(before: Edit, e: Edit)
    requires PairsSorted(e.deleted)
    ensures SetFields(Clear(before), FieldsOf(e)) == e.(pointers := before.pointers + e.pointers)
  {
    var e0 := Clear(before);
    var h, p, d, a := HeadFields(e), PointerFields(e.pointers), DeletedFields(e.deleted), AddedFields(e.added);
    var e1 := e.(pointers := before.pointers, deleted := [], added := []);
    SetHead(e0, e);
    FourParts(e0, h, p, d, a);
    hide SetFields, HeadFields, PointerFields, DeletedFields, AddedFields, PairsSorted;
    SetTail(e1, e);
  }

  lemma FourParts(e: Edit, h: seq<Field>, p: seq<Field>, d: seq<Field>, a: seq<Field>)
    ensures SetFields(e, h + p + d + a) == SetFields(SetFields(SetFields(SetFields(e, h), p), d), a)
  {
    SetFieldsSplit(e, h + p + d, a);
    SetFieldsSplit(e, h + p, d);
    SetFieldsSplit(e, h, p);
    hide SetFields;
  }

  lemma SetTail(e1: Edit, e: Edit)
    requires PairsSorted(e.deleted) && e1.deleted == [] && e1.added == []
    ensures SetFields(SetFields(SetFields(e1, PointerFields(e.pointers)), DeletedFields(e.deleted)), AddedFields(e.added))
         == e1.(pointers := e1.pointers + e.pointers, deleted := e.deleted, added := e.added)
  {
    SetPointers(e1, e.pointers);
    var e2 := e1.(pointers := e1.pointers + e.pointers);
    SetDeleted(e2, e.deleted);
    SetAdded(e2.(deleted := e.deleted), e.added);
    hide SetFields, PointerFields, DeletedFields, AddedFields, PairsSorted;
    assert [] + e.added == e.added && [] + e.deleted == e.deleted;
  }

  /** Decoding an encoded edit gives it back exactly when the edit decoded into held no
      compaction pointers: those survive the clearing and come first. */
  lemma EditRoundTrip(before: Edit, e: Edit)
    requires EditOk(e)
    ensures DecodeFields(Clear(before), EncodeFields(FieldsOf(e))) == (e.(pointers := before.pointers + e.pointers), None)
    ensures DecodeFields(Clear(before), EncodeFields(FieldsOf(e))).0 == e <==> before.pointers == []
  {
    FieldsRoundTrip(Clear(before), FieldsOf(e));
    SetAll(before, e);
    assert |before.pointers + e.pointers| == |before.pointers| + |e.pointers|;
    assert before.pointers == [] ==> before.pointers + e.pointers == e.pointers;
  }
}
