/** The write batch format and its replay into a memtable. */
module WriteBatches {
  import opened Coding

  const BATCH_HEADER: nat := 12
  const TAG_DELETION: byte := 0
  const TAG_VALUE: byte := 1

  datatype BatchOp = Put(key: Bytes, value: Bytes) | Delete(key: Bytes) {
    predicate Encodable() {
      |key| < TWO32 && (Put? ==> |value| < TWO32)
    }

    function Encoded(): (r: Bytes)
      ensures r != []
    {
      match this
      case Put(k, v) => [TAG_VALUE] + LengthPrefixed(k) + LengthPrefixed(v)
      case Delete(k) => [TAG_DELETION] + LengthPrefixed(k)
    }
  }

  datatype Status = Ok | TooSmall | BadPut | BadDelete | UnknownTag | WrongCount

  function Records(ops: seq<BatchOp>): Bytes {
    if ops == [] then [] else ops[0].Encoded() + Records(ops[1..])
  }

  function Batch(sequence: nat, ops: seq<BatchOp>): (r: Bytes)
    requires sequence < TWO64
    ensures |r| >= BATCH_HEADER
  {
    Fixed64(sequence) + Fixed32(|ops| % TWO32) + Records(ops)
  }

  function SequenceOf(rep: Bytes): (r: nat)
    requires |rep| >= BATCH_HEADER
    ensures r < TWO64
  {
    FixedIsBounded(rep[..8]);
    PowersOf256();
    FromFixed(rep[..8])
  }

  function CountOf(rep: Bytes): (r: nat)
    requires |rep| >= BATCH_HEADER
    ensures r < TWO32
  {
    FixedIsBounded(rep[8..12]);
    PowersOf256();
    FromFixed(rep[8..12])
  }

  /** One record: its operation and the rest, or what is wrong with it. */
  datatype OneOp = OneOp(op: BatchOp, rest: Bytes) | Bad(status: Status)

  function ParseOp(input: Bytes): (r: OneOp)
    requires input != []
    ensures r.OneOp? ==> |r.rest| < |input|
    ensures r.Bad? ==> r.status != Ok
  {
    var tag := input[0];
    if tag == TAG_VALUE then
      match GetLengthPrefixed(input[1..])
      case None => Bad(BadPut)
      case Some(k) =>
        GetLengthPrefixedShrinks(input[1..]);
        GetLengthPrefixedShrinks(k.rest);
        match GetLengthPrefixed(k.rest)
        case None => Bad(BadPut)
        case Some(v) => OneOp(Put(k.value, v.value), v.rest)
    else if tag == TAG_DELETION then
      match GetLengthPrefixed(input[1..])
      case None => Bad(BadDelete)
      case Some(k) =>
        GetLengthPrefixedShrinks(input[1..]);
        OneOp(Delete(k.value), k.rest)
    else Bad(UnknownTag)
  }

  /** The operations handed to the handler before the end or the first bad record. */
  function ParseOps(input: Bytes): (r: (seq<BatchOp>, Status))
    decreases |input|
  {
    if input == [] then ([], Ok)
    else
      match ParseOp(input)
      case Bad(status) => ([], status)
      case OneOp(op, rest) =>
        var more := ParseOps(rest);
        ([op] + more.0, more.1)
  }

  /** What WriteBatch::Iterate hands over and returns. */
  function Parse(rep: Bytes): (r: (seq<BatchOp>, Status)) {
    if |rep| < BATCH_HEADER then ([], TooSmall)
    else
      var p := ParseOps(rep[BATCH_HEADER..]);
      (p.0, if p.1 != Ok then p.1 else if |p.0| % TWO32 != CountOf(rep) then WrongCount else Ok)
  }

  ghost predicate Encodable(ops: seq<BatchOp>) {
    forall i | 0 <= i < |ops| :: ops[i].Encodable()
  }

  lemma ParseOpRoundTrip(op: BatchOp, rest: Bytes)
    requires op.Encodable()
    ensures ParseOp(op.Encoded() + rest) == OneOp(op, rest)
  {
    hide LengthPrefixed, GetLengthPrefixed;
    var all := op.Encoded() + rest;
    if op.Put? {
      LengthPrefixedRoundTrip(op.key, LengthPrefixed(op.value) + rest);
      LengthPrefixedRoundTrip(op.value, rest);
      assert all[1..] == LengthPrefixed(op.key) + (LengthPrefixed(op.value) + rest);
    } else {
      LengthPrefixedRoundTrip(op.key, rest);
      assert all[1..] == LengthPrefixed(op.key) + rest;
    }
  }

  lemma {:induction false} ParseOpsRoundTrip(ops: seq<BatchOp>)
    requires Encodable(ops)
    ensures ParseOps(Records(ops)) == (ops, Ok)
  {
    hide ParseOp, BatchOp.Encoded;
    if ops != [] {
      ParseOpRoundTrip(ops[0], Records(ops[1..]));
      ParseOpsRoundTrip(ops[1..]);
      assert ops == [ops[0]] + ops[1..];
    }
  }

  lemma BatchFields(sequence: nat, ops: seq<BatchOp>)
    requires sequence < TWO64
    ensures var rep := Batch(sequence, ops);
      SequenceOf(rep) == sequence && CountOf(rep) == |ops| % TWO32 && rep[BATCH_HEADER..] == Records(ops)
  {
    var rep := Batch(sequence, ops);
    assert rep[..8] == Fixed64(sequence);
    assert rep[8..12] == Fixed32(|ops| % TWO32);
  }

  /** Iterating over an encoded batch hands back its operations in order. */
  lemma BatchRoundTrip(sequence: nat, ops: seq<BatchOp>)
    requires sequence < TWO64 && Encodable(ops)
    ensures Parse(Batch(sequence, ops)) == (ops, Ok)
  {
    BatchFields(sequence, ops);
    ParseOpsRoundTrip(ops);
  }

  /** Records are handed over up to the first bad one, whose status is returned. */
  lemma {:induction false} BadRecordStops(ops: seq<BatchOp>, tail: Bytes)
    requires Encodable(ops) && tail != [] && ParseOp(tail).Bad?
    ensures ParseOps(Records(ops) + tail) == (ops, ParseOp(tail).status)
    decreases |ops|
  {
    hide ParseOp, BatchOp.Encoded;
    if ops == [] {
      assert Records(ops) + tail == tail;
    } else {
      var rest := Records(ops[1..]) + tail;
      ParseOpRoundTrip(ops[0], rest);
      BadRecordStops(ops[1..], tail);
      Joined(ops[0].Encoded(), Records(ops[1..]), tail);
      assert ops == [ops[0]] + ops[1..];
    }
  }

  /** A batch whose records go on with an unknown tag, or whose count is not that of its records,
      is not accepted. */
  lemma BadBatchIsRefused(header: Bytes, ops: seq<BatchOp>, tail: Bytes)
    requires |header| == BATCH_HEADER && Encodable(ops)
    requires tail == [] || (tail[0] != TAG_VALUE && tail[0] != TAG_DELETION)
    ensures Parse(header + (Records(ops) + tail)).0 == ops
    ensures tail != [] ==> Parse(header + (Records(ops) + tail)).1 == UnknownTag
    ensures tail == [] ==> (Parse(header + (Records(ops) + tail)).1 == Ok <==> FromFixed(header[8..12]) == |ops| % TWO32)
  {
    var rep := header + (Records(ops) + tail);
    assert rep[BATCH_HEADER..] == Records(ops) + tail;
    CountField(header, rep);
    if tail != [] {
      BadRecordStops(ops, tail);
    } else {
      assert Records(ops) + tail == Records(ops);
      ParseOpsRoundTrip(ops);
    }
    hide ParseOps, ParseOp;
  }

  lemma CountField(header: Bytes, rep: Bytes)
    requires |header| == BATCH_HEADER <= |rep| && rep[..BATCH_HEADER] == header
    ensures CountOf(rep) == FromFixed(header[8..12])
  {
    assert rep[8..12] == header[8..12];
    FixedIsBounded(header[8..12]);
    PowersOf256();
    hide FromFixed, Pow;
  }

  lemma {:induction false} RecordsAppend(a: seq<BatchOp>, b: seq<BatchOp>)
    ensures Records(a + b) == Records(a) + Records(b)
  {
    hide BatchOp.Encoded;
    if a == [] {
      assert a + b == b;
    } else {
      RecordsAppend(a[1..], b);
      assert (a + b)[0] == a[0] && (a + b)[1..] == a[1..] + b;
      Joined(a[0].Encoded(), Records(a[1..]), Records(b));
    }
  }

  lemma CountsAdd(a: nat, b: nat)
    ensures (a % TWO32 + b % TWO32) % TWO32 == (a + b) % TWO32
  {
  }

  lemma Joined(a: Bytes, b: Bytes, c: Bytes)
    ensures (a + b) + c == a + (b + c)
  {
  }

  // ----- Into a memtable -----

  datatype MemEntry = MemEntry(sequence: nat, op: BatchOp)

  /** Operations with consecutive sequence numbers. */
  function Numbered(ops: seq<BatchOp>, first: nat): (r: seq<MemEntry>)
    ensures |r| == |ops| && forall i | 0 <= i < |ops| :: r[i] == MemEntry(first + i, ops[i])
  {
    seq(|ops|, i requires 0 <= i < |ops| => MemEntry(first + i, ops[i]))
  }

  /** MemTableInserter: numbers what it is handed and adds it to the table. */
  class MemTableInserter {
    var sequence: nat
    var mem: seq<MemEntry>

    constructor (sequence: nat, mem: seq<MemEntry>)
      ensures this.sequence == sequence && this.mem == mem
    {
      this.sequence, this.mem := sequence, mem;
    }

    method Put(key: Bytes, value: Bytes)
      modifies this
      ensures mem == old(mem) + [MemEntry(old(sequence), BatchOp.Put(key, value))] && sequence == old(sequence) + 1
    {
      mem := mem + [MemEntry(sequence, BatchOp.Put(key, value))];
      sequence := sequence + 1;
    }

    method Delete(key: Bytes)
      modifies this
      ensures mem == old(mem) + [MemEntry(old(sequence), BatchOp.Delete(key))] && sequence == old(sequence) + 1
    {
      mem := mem + [MemEntry(sequence, BatchOp.Delete(key))];
      sequence := sequence + 1;
    }
  }

  lemma {:induction false} ZeroBytes(n: nat)
    ensures |Fixed(0, n)| == n && forall i | 0 <= i < n :: Fixed(0, n)[i] == 0
  {
    if n > 0 {
      ZeroBytes(n - 1);
    }
  }

  lemma EmptyBatch()
    ensures Batch(0, []) == [0, 0, 0, 0, 0, 0, 0, 0, 0, 0, 0, 0]
  {
    ZeroBytes(8);
    ZeroBytes(4);
    hide Fixed;
  }

  class WriteBatch {
    var rep: Bytes
    ghost var sequence: nat
    ghost var ops: seq<BatchOp>

    ghost predicate Valid()
      reads this
    {
      sequence < TWO64 && rep == Batch(sequence, ops)
    }

    constructor ()
      ensures Valid() && sequence == 0 && ops == []
    {
      rep := [0, 0, 0, 0, 0, 0, 0, 0, 0, 0, 0, 0];
      sequence, ops := 0, [];
      new;
      EmptyBatch();
    }

    method SetCount(n: nat)
      requires |rep| >= BATCH_HEADER
      modifies this`rep
      ensures rep == old(rep[..8]) + Fixed32(n % TWO32) + old(rep[12..])
    {
      rep := rep[..8] + Fixed32(n % TWO32) + rep[12..];
    }

    method SetSequence(s: nat)
      requires Valid() && s < TWO64
      modifies this
      ensures Valid() && sequence == s && ops == old(ops)
    {
      rep := Fixed64(s) + rep[8..];
      sequence := s;
    }

    /** The count field counts modulo 2^32. */
    method AddToCount(n: nat, ghost added: nat)
      requires Valid() && n == added % TWO32
      modifies this`rep
      ensures rep == Fixed64(sequence) + Fixed32((|ops| + added) % TWO32) + Records(ops)
    {
      hide Records, Fixed64, Fixed32, CountOf, SequenceOf;
      BatchFields(sequence, ops);
      CountsAdd(|ops|, added);
      assert rep[..8] == Fixed64(sequence);
      SetCount(CountOf(rep) + n);
    }

    ghost method ExtendAll(more: seq<BatchOp>)
      requires sequence < TWO64
      requires rep == (Fixed64(sequence) + Fixed32((|ops| + |more|) % TWO32) + Records(ops)) + Records(more)
      modifies this`ops
      ensures Valid() && ops == old(ops) + more
    {
      hide Records, BatchOp.Encoded, Fixed64, Fixed32;
      RecordsAppend(ops, more);
      Joined(Fixed64(sequence) + Fixed32((|ops| + |more|) % TWO32), Records(ops), Records(more));
      ops := ops + more;
    }

    ghost method Extend(op: BatchOp)
      requires sequence < TWO64
      requires rep == (Fixed64(sequence) + Fixed32((|ops| + 1) % TWO32) + Records(ops)) + op.Encoded()
      modifies this`ops
      ensures Valid() && ops == old(ops) + [op]
    {
      assert Records([op]) == op.Encoded() by {
        assert [op][1..] == [] && op.Encoded() + [] == op.Encoded();
      }
      ExtendAll([op]);
    }

    method Put(key: Bytes, value: Bytes)
      requires Valid() && |key| < TWO32 && |value| < TWO32
      modifies this
      ensures Valid() && ops == old(ops) + [BatchOp.Put(key, value)] && sequence == old(sequence)
    {
      hide Records, LengthPrefixed, Fixed64, Fixed32;
      AddToCount(1, 1);
      rep := rep + [TAG_VALUE];
      rep := rep + LengthPrefixed(key);
      rep := rep + LengthPrefixed(value);
      Extend(BatchOp.Put(key, value));
    }

    method Delete(key: Bytes)
      requires Valid() && |key| < TWO32
      modifies this
      ensures Valid() && ops == old(ops) + [BatchOp.Delete(key)] && sequence == old(sequence)
    {
      hide Records, LengthPrefixed, Fixed64, Fixed32;
      AddToCount(1, 1);
      rep := rep + [TAG_DELETION];
      rep := rep + LengthPrefixed(key);
      Extend(BatchOp.Delete(key));
    }

    method Append(src: WriteBatch)
      requires Valid() && src.Valid() && src != this
      modifies this
      ensures Valid() && ops == old(ops) + src.ops && sequence == old(sequence)
    {
      hide Records, Fixed64, Fixed32, CountOf, SequenceOf, Batch, BatchOp.Encoded;
      BatchFields(src.sequence, src.ops);
      AddToCount(CountOf(src.rep), |src.ops|);
      rep := rep + src.rep[BATCH_HEADER..];
      ExtendAll(src.ops);
    }
  }

  /** What an iteration has still to hand over, after what it has handed over. */
  ghost predicate Remaining(all: (seq<BatchOp>, Status), done: seq<BatchOp>, input: Bytes) {
    all == (done + ParseOps(input).0, ParseOps(input).1)
  }

  lemma RemainingStep(all: (seq<BatchOp>, Status), done: seq<BatchOp>, input: Bytes, first: nat)
    requires input != [] && Remaining(all, done, input)
    ensures match ParseOp(input)
            case Bad(status) => all == (done, status)
            case OneOp(op, rest) =>
              && Remaining(all, done + [op], rest)
              && Numbered(done + [op], first) == Numbered(done, first) + [MemEntry(first + |done|, op)]
  {
    hide ParseOp;
    match ParseOp(input)
    case Bad(status) => assert done + [] == done;
    case OneOp(op, rest) => assert done + ([op] + ParseOps(rest).0) == (done + [op]) + ParseOps(rest).0;
  }

  /** The loop of WriteBatch::Iterate, over a memtable inserter. */
  method IterateRecords(records: Bytes, handler: MemTableInserter) returns (found: nat, status: Status)
    modifies handler
    ensures var all := ParseOps(records);
      status == all.1 && (status == Ok ==> found == |all.0|) && handler.mem == old(handler.mem) + Numbered(all.0, old(handler.sequence))
  {
    hide Numbered, Remaining, ParseOp, ParseOps;
    var input := records;
    ghost var all := ParseOps(input);
    ghost var mem, first := handler.mem, handler.sequence;
    ghost var done: seq<BatchOp> := [];
    found := 0;
    RemainingAll(all, input, mem, first);
    while input != []
      invariant |done| == found && handler.sequence == first + found
      invariant handler.mem == mem + Numbered(done, first)
      invariant Remaining(all, done, input)
      decreases |input|
    {
      found := found + 1;
      RemainingStep(all, done, input, first);
      match ParseOp(input) {
        case Bad(bad) =>
          return found, bad;
        case OneOp(op, rest) =>
          match op {
            case Put(k, v) => handler.Put(k, v);
            case Delete(k) => handler.Delete(k);
          }
          done := done + [op];
          input := rest;
      }
    }
    RemainingNone(all, done);
    status := Ok;
  }

  lemma RemainingAll(all: (seq<BatchOp>, Status), input: Bytes, mem: seq<MemEntry>, first: nat)
    requires all == ParseOps(input)
    ensures Remaining(all, [], input) && mem + Numbered([], first) == mem
  {
    assert [] + all.0 == all.0;
  }

  lemma RemainingNone(all: (seq<BatchOp>, Status), done: seq<BatchOp>)
    requires Remaining(all, done, [])
    ensures all == (done, Ok)
  {
    assert done + [] == done;
  }

  /** WriteBatch::Iterate. */
  method Iterate(rep: Bytes, handler: MemTableInserter) returns (status: Status)
    modifies handler
    ensures status == Parse(rep).1
    ensures handler.mem == old(handler.mem) + Numbered(Parse(rep).0, old(handler.sequence))
  {
    hide Numbered, ParseOps, CountOf;
    if |rep| < BATCH_HEADER {
      EmptyNumbered(handler.mem, handler.sequence);
      return TooSmall;
    }
    var found;
    found, status := IterateRecords(rep[BATCH_HEADER..], handler);
    if status == Ok && found % TWO32 != CountOf(rep) {
      status := WrongCount;
    }
  }

  lemma EmptyNumbered(mem: seq<MemEntry>, first: nat)
    ensures mem + Numbered([], first) == mem
  {
  }

  /** WriteBatchInternal::InsertInto. */
  method InsertInto(rep: Bytes, mem: seq<MemEntry>) returns (table: seq<MemEntry>, status: Status)
    requires |rep| >= BATCH_HEADER
    ensures status == Parse(rep).1 && table == mem + Numbered(Parse(rep).0, SequenceOf(rep))
  {
    var inserter := new MemTableInserter(SequenceOf(rep), mem);
    status := Iterate(rep, inserter);
    table := inserter.mem;
  }
}
