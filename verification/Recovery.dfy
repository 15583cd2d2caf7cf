/** Replaying a write-ahead log after a crash. */
module Recovery {
  import opened Basics
  import opened Coding
  import opened LogFormat
  import opened LogReader
  import opened WriteBatches

  /** One committed write group: a batch with its first sequence number. */
  datatype Group = Group(sequence: nat, ops: seq<BatchOp>) {
    ghost predicate Ok() {
      sequence > 0 && sequence + |ops| < TWO64 && |ops| < TWO32 && Encodable(ops)
    }

    function Last(): int {
      sequence + |ops| - 1
    }
  }

  /** What a replay has gathered, and whether it may go on. */
  datatype Replay = Replay(mem: seq<MemEntry>, maxSequence: nat, ok: bool)

  function LastOf(record: Bytes): (r: nat)
    requires |record| >= BATCH_HEADER
  {
    (SequenceOf(record) + CountOf(record) - 1) % TWO64
  }

  /** One record handed to the replay; errors stop it only under paranoid checks. */
  function Apply(r: Replay, record: Bytes, paranoid: bool): Replay {
    if |record| < BATCH_HEADER then r.(ok := !paranoid)
    else
      var p := Parse(record);
      var mem := r.mem + Numbered(p.0, SequenceOf(record));
      if p.1 != Status.Ok && paranoid then r.(mem := mem, ok := false)
      else r.(mem := mem, maxSequence := if LastOf(record) > r.maxSequence then LastOf(record) else r.maxSequence)
  }

  function ReplayLog(crc: Checksum, s: Input, r: Replay, paranoid: bool): Replay
    decreases |s.Unread()|
  {
    var o := NextRecord(crc, s, false, []);
    var r' := if paranoid && o.drops != [] then r.(ok := false) else r;
    if o.record.None? || !r'.ok then r' else ReplayLog(crc, o.input, Apply(r', o.record.value, paranoid), paranoid)
  }

  /** DBImpl::RecoverLogFile up to the tables it writes. */
  method RecoverLogFile(crc: Checksum, file: Bytes, paranoid: bool, before: nat) returns (r: Replay)
    ensures r == ReplayLog(crc, Opened(file), Replay([], before, true), paranoid)
  {
    hide NextRecord, Apply;
    var reader := new Reader(crc, file);
    var mem: seq<MemEntry>, maxSequence, ok := [], before, true;
    var reported := 0;
    var record := reader.ReadRecord();
    if paranoid && |reader.drops| > reported {
      ok := false;
    }
    reported := |reader.drops|;
    while record.Some? && ok
      invariant reported == |reader.drops| && reader.crc == crc
      invariant ReplayLog(crc, Opened(file), Replay([], before, true), paranoid) ==
        if record.None? || !ok then Replay(mem, maxSequence, ok)
        else ReplayLog(crc, reader.Abs(), Apply(Replay(mem, maxSequence, ok), record.value, paranoid), paranoid)
      decreases record.Some?, |reader.Abs().Unread()|
    {
      mem, maxSequence, ok := ApplyRecord(mem, maxSequence, record.value, paranoid);
      record := reader.ReadRecord();
      if paranoid && |reader.drops| > reported {
        ok := false;
      }
      reported := |reader.drops|;
    }
    r := Replay(mem, maxSequence, ok);
  }

  method ApplyRecord(mem: seq<MemEntry>, maxSequence: nat, record: Bytes, paranoid: bool)
    returns (mem': seq<MemEntry>, maxSequence': nat, ok: bool)
    ensures Replay(mem', maxSequence', ok) == Apply(Replay(mem, maxSequence, true), record, paranoid)
  {
    if |record| < BATCH_HEADER {
      return mem, maxSequence, !paranoid;
    }
    var status;
    mem', status := InsertInto(record, mem);
    maxSequence', ok := maxSequence, true;
    if status != Status.Ok && paranoid {
      ok := false;
    } else {
      var lastSeq := LastOf(record);
      if lastSeq > maxSequence {
        maxSequence' := lastSeq;
      }
    }
  }

  // ----- What a cut log of committed groups replays to -----

  ghost predicate AllOk(gs: seq<Group>) {
    forall i | 0 <= i < |gs| :: gs[i].Ok()
  }

  /** The log records of the groups, in commit order. */
  ghost function Encodings(gs: seq<Group>): (r: seq<Bytes>)
    requires AllOk(gs)
    ensures |r| == |gs| && forall i | 0 <= i < |gs| :: r[i] == Batch(gs[i].sequence, gs[i].ops)
  {
    seq(|gs|, i requires 0 <= i < |gs| => Batch(gs[i].sequence, gs[i].ops))
  }

  /** The entries of the groups with the numbers they were committed under. */
  function Entries(gs: seq<Group>): seq<MemEntry> {
    if gs == [] then [] else Numbered(gs[0].ops, gs[0].sequence) + Entries(gs[1..])
  }

  function MaxLast(before: nat, gs: seq<Group>): nat
    decreases |gs|
  {
    if gs == [] then before else MaxLast(if gs[0].Last() > before then gs[0].Last() else before, gs[1..])
  }

  lemma GroupLast(g: Group)
    requires g.Ok()
    ensures LastOf(Batch(g.sequence, g.ops)) == g.Last()
  {
    BatchFields(g.sequence, g.ops);
    hide SequenceOf, CountOf, Batch, Encodable;
    SmallMod(|g.ops|, TWO32);
    SmallMod(g.Last(), TWO64);
  }

  lemma SmallMod(n: nat, m: nat)
    requires n < m
    ensures n % m == n
  {
  }

  lemma ApplyGroup(r: Replay, g: Group, paranoid: bool)
    requires g.Ok()
    ensures Apply(r, Batch(g.sequence, g.ops), paranoid)
         == r.(mem := r.mem + Numbered(g.ops, g.sequence), maxSequence := if g.Last() > r.maxSequence then g.Last() else r.maxSequence)
  {
    BatchRoundTrip(g.sequence, g.ops);
    BatchFields(g.sequence, g.ops);
    GroupLast(g);
    hide Parse, SequenceOf, CountOf, Batch, Numbered, Encodable, LastOf;
  }

  lemma {:induction false} ReplayWritten(crc: Checksum, s: Input, r: Replay, paranoid: bool, off: nat, gs: seq<Group>, n: nat)
    requires AllOk(gs) && r.ok && off <= BLOCK_SIZE && StateAt(s, off) && Cut(s.Unread(), Log(crc, off, Encodings(gs)), n)
    ensures var k := WholeRecords(crc, off, Encodings(gs), n);
      ReplayLog(crc, s, r, paranoid) == Replay(r.mem + Entries(gs[..k]), MaxLast(r.maxSequence, gs[..k]), true)
    decreases |gs|
  {
    hide NextRecord, Fragments, LogFormat.After, StateAt, Apply, Numbered, Batch;
    var records := Encodings(gs);
    assert gs[..0] == [] && r.mem + Entries([]) == r.mem;
    if gs == [] {
      NothingLeft(crc, s);
    } else {
      var size := |Fragments(crc, off, records[0], true)|;
      var off' := After(off, |records[0]|);
      WholeRecordRead(crc, s, off, records[0], Log(crc, off', records[1..]), n);
      if n >= size {
        var o := NextRecord(crc, s, false, []);
        var r' := Apply(r, records[0], paranoid);
        ApplyGroup(r, gs[0], paranoid);
        assert records[1..] == Encodings(gs[1..]);
        ReplayWritten(crc, o.input, r', paranoid, off', gs[1..], n - size);
        Prefix(r.mem, gs, WholeRecords(crc, off', records[1..], n - size));
      }
    }
  }

  lemma Prefix(mem: seq<MemEntry>, gs: seq<Group>, k: nat)
    requires gs != [] && k < |gs|
    ensures mem + Entries(gs[..k + 1]) == (mem + Numbered(gs[0].ops, gs[0].sequence)) + Entries(gs[1..][..k])
    ensures gs[..k + 1][0] == gs[0] && gs[..k + 1][1..] == gs[1..][..k]
  {
    assert gs[..k + 1][1..] == gs[1..][..k];
  }

  lemma NothingLeft(crc: Checksum, s: Input)
    requires s.Unread() == []
    ensures NextRecord(crc, s, false, []).record == None && NextRecord(crc, s, false, []).drops == []
  {
  }

  /** Each group starts after the one before it; a failed write leaves a gap. */
  ghost predicate InOrder(gs: seq<Group>, first: int)
    decreases |gs|
  {
    gs == [] || (gs[0].sequence >= first && InOrder(gs[1..], gs[0].Last() + 1))
  }

  lemma {:induction false} LastIsMax(gs: seq<Group>, before: nat, first: int)
    requires AllOk(gs) && InOrder(gs, first) && before < first
    ensures MaxLast(before, gs) == if gs == [] then before else gs[|gs| - 1].Last()
    decreases |gs|
  {
    if gs != [] {
      assert gs[0].Ok();
      LastIsMax(gs[1..], gs[0].Last(), gs[0].Last() + 1);
    }
  }

  lemma {:induction false} InOrderPrefix(gs: seq<Group>, first: int, k: nat)
    requires InOrder(gs, first) && k <= |gs|
    ensures InOrder(gs[..k], first)
    decreases |gs|
  {
    if k > 0 {
      InOrderPrefix(gs[1..], gs[0].Last() + 1, k - 1);
      assert gs[..k][1..] == gs[1..][..k - 1];
    }
  }

  /** Whatever byte a crash cuts the log at, recovery brings back exactly the entries of the
      groups written completely before it, under their own sequence numbers, reports no
      error, and resumes after the last of them. */
  lemma CrashRecovery(crc: Checksum, gs: seq<Group>, first: nat, before: nat, paranoid: bool, n: nat)
    requires AllOk(gs) && InOrder(gs, first) && before < first
    requires n <= |Log(crc, 0, Encodings(gs))|
    ensures var k := WholeRecords(crc, 0, Encodings(gs), n);
      ReplayLog(crc, Opened(Log(crc, 0, Encodings(gs))[..n]), Replay([], before, true), paranoid)
      == Replay(Entries(gs[..k]), if k == 0 then before else gs[k - 1].Last(), true)
  {
    hide ReplayLog, Log, WholeRecords, Group.Ok, Entries;
    var k := WholeRecords(crc, 0, Encodings(gs), n);
    StartOfFile(crc, Encodings(gs), n);
    ReplayWritten(crc, Opened(Log(crc, 0, Encodings(gs))[..n]), Replay([], before, true), paranoid, BLOCK_SIZE, gs, n);
    InOrderPrefix(gs, first, k);
    LastIsMax(gs[..k], before, first);
    assert [] + Entries(gs[..k]) == Entries(gs[..k]);
  }

  // ----- Damaged logs -----

  /** With paranoid checks, a replay stops without success at the first thing reported. */
  lemma ParanoidStops(crc: Checksum, s: Input, r: Replay)
    requires NextRecord(crc, s, false, []).drops != []
    ensures ReplayLog(crc, s, r, true) == r.(ok := false)
  {
    hide NextRecord, Apply;
  }

  /** So it does at a record that is no whole batch; the entries before the damage stay. */
  lemma ParanoidRefuses(crc: Checksum, s: Input, r: Replay)
    requires r.ok && NextRecord(crc, s, false, []).record.Some? && NextRecord(crc, s, false, []).drops == []
    requires var record := NextRecord(crc, s, false, []).record.value; |record| < BATCH_HEADER || Parse(record).1 != Status.Ok
    ensures !ReplayLog(crc, s, r, true).ok && r.mem <= ReplayLog(crc, s, r, true).mem
  {
    hide NextRecord, Parse;
    var o := NextRecord(crc, s, false, []);
    var r' := Apply(r, o.record.value, true);
    assert !r'.ok && r.mem <= r'.mem;
    var o' := NextRecord(crc, o.input, false, []);
    assert ReplayLog(crc, o.input, r', true) == r'.(ok := false);
  }

  /** Without them a replay never fails. */
  lemma {:induction false} LenientGoesOn(crc: Checksum, s: Input, r: Replay)
    requires r.ok
    ensures ReplayLog(crc, s, r, false).ok
    decreases |s.Unread()|
  {
    hide NextRecord, Parse;
    var o := NextRecord(crc, s, false, []);
    if o.record.Some? {
      LenientGoesOn(crc, o.input, Apply(r, o.record.value, false));
    }
  }
}
