/** The store as a state machine: memtables, versions, snapshots and one background job. */
module Store {
  import opened Basics
  import opened DbFormat
  import opened MultiVersion
  import opened VersionFiles
  import opened VersionRead
  import opened CompactionMeaning
  import opened CompactionWork
  import opened CompactionSetup
  import opened Install

  /** A compaction between the choice of its inputs and the installation of its outputs. */
  datatype Job = Job(level: nat, in0: seq<File>, in1: seq<File>, base: Version, smallest: nat) {
    ghost function Inputs(): set<Entry> {
      LevelContent(in0) + LevelContent(in1)
    }

    ghost function Base(): iset<UserKey> {
      BaseKeys(base, level)
    }

    /** What the outputs will hold, known from the start. */
    ghost function Remaining(): set<Entry> {
      Kept(Inputs(), smallest, Base())
    }
  }

  datatype State = State(mem: seq<Entry>, imm: Option<seq<Entry>>, version: Version, lastSequence: nat,
                         snapshots: seq<nat>, nextFile: nat, job: Option<Job>) {
    function ImmEntries(): seq<Entry> {
      if imm.Some? then imm.value else []
    }

    /** Everything the store holds, newest layer first. */
    ghost function All(): set<Entry> {
      EntrySet(mem) + (EntrySet(ImmEntries()) + Content(version))
    }

    /** The sequence number below which superseded entries are not needed by anyone. */
    function SmallestSnapshot(): nat {
      if snapshots == [] then lastSequence else snapshots[0]
    }
  }

  datatype Update = Update(kind: Kind, key: UserKey, value: string)

  /** WriteBatch::InsertInto: consecutive sequence numbers from the batch's first. */
  function BatchEntries(batch: seq<Update>, first: nat): (es: seq<Entry>)
    ensures |es| == |batch|
    ensures forall i | 0 <= i < |es| :: es[i].ik == InternalKey(batch[i].key, first + i, batch[i].kind)
  {
    seq(|batch|, i requires 0 <= i < |batch| => Entry(InternalKey(batch[i].key, first + i, batch[i].kind), batch[i].value))
  }

  function Insert(es: seq<Entry>, e: Entry): (r: seq<Entry>)
    ensures EntrySet(r) == EntrySet(es) + {e}
    ensures SortedEntries(es) && (forall x | x in es :: Before(x.ik, e.ik) || Before(e.ik, x.ik)) ==> SortedEntries(r)
  {
    if es == [] || Before(e.ik, es[0].ik) then [e] + es
    else
      assert forall x :: x in es <==> x == es[0] || x in es[1..];
      var rest := Insert(es[1..], e);
      assert forall x :: x in rest <==> x in EntrySet(rest);
      assert forall i | 0 <= i < |rest| :: rest[i] in EntrySet(rest);
      [es[0]] + rest
  }

  /** Entries added to a memtable one by one. */
  function AddAll(es: seq<Entry>, added: seq<Entry>): (r: seq<Entry>)
    ensures EntrySet(r) == EntrySet(es) + EntrySet(added)
    decreases |added|
  {
    if added == [] then es
    else
      assert added == [added[0]] + added[1..];
      AddAll(Insert(es, added[0]), added[1..])
  }

  lemma {:induction false} AddAllSorted(es: seq<Entry>, added: seq<Entry>, first: nat)
    requires SortedEntries(es) && forall x | x in es :: x.ik.sequence < first
    requires forall i | 0 <= i < |added| :: added[i].ik.sequence == first + i
    ensures SortedEntries(AddAll(es, added))
    decreases |added|
  {
    if added != [] {
      var more := Insert(es, added[0]);
      assert forall x :: x in more <==> x in EntrySet(more);
      AddAllSorted(more, added[1..], first + 1);
    }
  }

  // ----- Steps -----

  ghost predicate Write(s: State, batch: seq<Update>, s': State) {
    && s.lastSequence + |batch| < MAX_SEQUENCE
    && s' == s.(mem := AddAll(s.mem, BatchEntries(batch, s.lastSequence + 1)), lastSequence := s.lastSequence + |batch|)
  }

  /** MakeRoomForWrite: the full memtable becomes the immutable one. */
  ghost predicate Rotate(s: State, s': State) {
    s.imm.None? && s' == s.(imm := Some(s.mem), mem := [])
  }

  /** A table flushed to the output level of a running compaction must not land between the
      entries the compaction keeps: FlushInside shows that this is exactly what is needed. */
  ghost predicate Tolerated(s: State, level: nat, f: File) {
    s.job.Some? && level == s.job.value.level + 1 ==> Aside(f, s.job.value.Remaining())
  }

  /** CompactMemTable: an empty memtable leaves no table behind. */
  ghost predicate PlainFlush(s: State, level: nat, size: nat, s': State) {
    && s.imm.Some?
    && if s.imm.value == [] then
         s' == s.(imm := None, nextFile := s.nextFile + 1)
       else
         var f := FileData(s.nextFile, size, s.imm.value);
         && f.Ok() && level <= MAX_MEM_COMPACT_LEVEL
         && (level > 0 ==> forall l | 0 <= l <= level :: Apart(s.version[l], f.Smallest().user, f.Largest().user))
         && s' == s.(imm := None, version := FlushInto(s.version, level, f), nextFile := s.nextFile + 1)
  }

  ghost predicate Flush(s: State, level: nat, size: nat, s': State) {
    PlainFlush(s, level, size, s') &&
    (s.imm.value != [] ==> Tolerated(s, level, FileData(s.nextFile, size, s.imm.value)))
  }

  ghost predicate TrivialMove(s: State, level: nat, f: File, s': State) {
    && s.job.None? && ClosedInputs(s.version, level, [f], [])
    && s' == s.(version := InstallInto(s.version, level, [f], [], [f]))
  }

  ghost predicate StartCompaction(s: State, level: nat, in0: seq<File>, in1: seq<File>, s': State) {
    && s.job.None? && ClosedInputs(s.version, level, in0, in1)
    && s' == s.(job := Some(Job(level, in0, in1, s.version, s.SmallestSnapshot())))
  }

  ghost predicate FinishCompaction(s: State, outs: seq<File>, s': State) {
    && s.job.Some? && s.job.value.level + 1 < NUM_LEVELS
    && LevelSorted(outs)
    && LevelContent(outs) == s.job.value.Remaining()
    && FreshNumbers(outs, s.nextFile, s'.nextFile) && s.nextFile <= s'.nextFile
    && s' == s.(version := InstallInto(s.version, s.job.value.level, s.job.value.in0, s.job.value.in1, outs),
                job := None, nextFile := s'.nextFile)
  }

  ghost predicate AbortCompaction(s: State, s': State) {
    s' == s.(job := None)
  }

  ghost predicate GetSnapshot(s: State, s': State) {
    s' == s.(snapshots := s.snapshots + [s.lastSequence])
  }

  ghost predicate ReleaseSnapshot(s: State, i: nat, s': State) {
    i < |s.snapshots| && s' == s.(snapshots := s.snapshots[..i] + s.snapshots[i + 1..])
  }

  ghost predicate Init(s: State) {
    && s.mem == [] && s.imm == None && s.version == [[], [], [], [], [], [], []]
    && s.lastSequence == 0 && s.snapshots == [] && s.job == None
  }

  datatype Op =
    | DoWrite(batch: seq<Update>)
    | DoRotate
    | DoFlush(flushLevel: nat, size: nat)
    | DoMove(moveLevel: nat, file: File)
    | DoStart(level: nat, in0: seq<File>, in1: seq<File>)
    | DoFinish(outs: seq<File>)
    | DoAbort
    | DoSnapshot
    | DoRelease(index: nat)

  ghost predicate Step(s: State, op: Op, s': State) {
    match op
    case DoWrite(batch) => Write(s, batch, s')
    case DoRotate => Rotate(s, s')
    case DoFlush(level, size) => Flush(s, level, size, s')
    case DoMove(level, f) => TrivialMove(s, level, f, s')
    case DoStart(level, in0, in1) => StartCompaction(s, level, in0, in1, s')
    case DoFinish(outs) => FinishCompaction(s, outs, s')
    case DoAbort => AbortCompaction(s, s')
    case DoSnapshot => GetSnapshot(s, s')
    case DoRelease(i) => ReleaseSnapshot(s, i, s')
  }

  // ----- Invariant -----

  ghost predicate Bounded(es: set<Entry>, top: nat) {
    forall e | e in es :: e.ik.sequence <= top
  }

  ghost predicate Layered(s: State) {
    && SortedEntries(s.mem) && SortedEntries(s.ImmEntries())
    && NewerThan(EntrySet(s.mem), EntrySet(s.ImmEntries()))
    && NewerThan(EntrySet(s.mem), Content(s.version))
    && NewerThan(EntrySet(s.ImmEntries()), Content(s.version))
  }

  ghost predicate SnapshotsOk(s: State) {
    && (forall i, j | 0 <= i < j < |s.snapshots| :: s.snapshots[i] <= s.snapshots[j])
    && (forall q | q in s.snapshots :: q <= s.lastSequence)
  }

  /** Input keys found to be at their base level still have nothing below. */
  ghost predicate BaseHolds(v: Version, j: Job) {
    forall x, l, g, y | x in j.Inputs() && x.ik.user in j.Base()
                        && j.level + 2 <= l < NUM_LEVELS && g in v[l] && y in g.Content() :: y.ik.user != x.ik.user
  }

  ghost predicate JobOk(s: State, j: Job) {
    && Selected(s.version, j.level, j.in0, j.in1) && AllAside(s.version[j.level + 1], j.in1, j.Remaining())
    && BaseHolds(s.version, j) && (forall l | 1 <= l < NUM_LEVELS :: LevelSorted(j.base[l]))
    && j.smallest <= s.lastSequence && forall q | q in s.snapshots :: j.smallest <= q
  }

  ghost predicate Inv(s: State) {
    && Layered(s)
    && Sound(s.version) && NumbersUnique(s.version, s.nextFile)
    && Bounded(s.All(), s.lastSequence) && s.lastSequence < MAX_SEQUENCE
    && SnapshotsOk(s)
    && (s.job.Some? ==> JobOk(s, s.job.value))
  }

  lemma InitInv(s: State)
    requires Init(s)
    ensures Inv(s)
  {
    assert forall l | 0 <= l < NUM_LEVELS :: s.version[l] == [];
    assert Content(s.version) == {};
  }

  lemma VersionHas(v: Version, e: Entry)
    ensures e in Content(v) <==> exists l, f :: 0 <= l < NUM_LEVELS && f in v[l] && e in f.Content()
  {
    if e in Content(v) {
      var l :| 0 <= l < NUM_LEVELS && e in LevelContent(v[l]);
      InLevel(v[l], e);
    }
    if l, f :| 0 <= l < NUM_LEVELS && f in v[l] && e in f.Content() {
      InLevel(v[l], e);
    }
  }

  /** The store is one multi-version map, read layer by layer. */
  lemma ReadByLayers(s: State, u: UserKey, q: nat)
    requires Layered(s) && Sound(s.version)
    ensures Distinct(s.All())
    ensures Newest(s.All(), u, q)
         == Newest(EntrySet(s.mem), u, q).Or(Newest(EntrySet(s.ImmEntries()), u, q).Or(Newest(Content(s.version), u, q)))
  {
    SoundIsOrdered(s.version);
    LevelsLayer(s.version, 0);
    assert s.version[0..] == s.version;
    SortedDistinct(s.mem);
    SortedDistinct(s.ImmEntries());
    NewestOfLayers(EntrySet(s.ImmEntries()), Content(s.version), u, q);
    NewestOfLayers(EntrySet(s.mem), EntrySet(s.ImmEntries()) + Content(s.version), u, q);
  }
}
