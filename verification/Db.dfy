/** The database object: every public operation is one step of the store, or a read of it. */
module Database {
  import opened Basics
  import opened DbFormat
  import opened MultiVersion
  import opened VersionFiles
  import opened VersionRead
  import opened CompactionMeaning
  import opened CompactionWork
  import opened CompactionSetup
  import opened Install
  import opened Store
  import opened StoreInvariant
  import opened StoreReads
  import opened WriteReads
  import opened Snapshots
  import opened Merging
  import opened MergeInputs
  import opened DbIterator
  import opened DbInputs

  /** WriteBatchInternal::InsertInto: one memtable insertion per update. */
  method InsertInto(mem: seq<Entry>, batch: seq<Update>, first: nat) returns (table: seq<Entry>)
    ensures table == AddAll(mem, BatchEntries(batch, first))
  {
    var es := BatchEntries(batch, first);
    table := mem;
    for i := 0 to |batch|
      invariant AddAll(table, es[i..]) == AddAll(mem, es)
    {
      assert es[i..][1..] == es[i + 1..];
      table := Insert(table, es[i]);
    }
  }

  function NewStore(): State {
    State([], None, [[], [], [], [], [], [], []], 0, [], 2, None)
  }

  lemma EmptyStore()
    ensures Init(NewStore()) && Inv(NewStore())
  {
    InitInv(NewStore());
  }

  class Db {
    var mem: seq<Entry>
    var imm: Option<seq<Entry>>
    var version: Version
    var lastSequence: nat
    var nextFile: nat
    var job: Option<Job>
    const snapshots: SnapshotList

    ghost function Abs(): State
      reads this, snapshots
    {
      State(mem, imm, version, lastSequence, SequencesOf(snapshots.nodes), nextFile, job)
    }

    /** The store's invariant. That the snapshot list is well linked is a separate condition,
        which only the snapshot operations can affect. */
    ghost predicate Valid()
      reads this, snapshots
    {
      Inv(Abs())
    }

    constructor ()
      ensures Valid() && snapshots.Valid() && Init(Abs())
    {
      mem, imm, version, lastSequence, nextFile, job := [], None, [[], [], [], [], [], [], []], 0, 2, None;
      snapshots := new SnapshotList();
      new;
      hide Inv, Init;
      EmptyStore();
      assert Abs() == NewStore();
    }

    /** DBImpl::Get: the memtable, the immutable memtable, then the levels. */
    method Get(u: UserKey, snapshot: SnapshotImpl?) returns (r: Answer)
      requires Valid()
      ensures r == Read(Abs(), u, if snapshot != null then snapshot.sequence else lastSequence)
    {
      var q := if snapshot != null then snapshot.sequence else lastSequence;
      ReadByLayers(Abs(), u, q);
      SoundIsOrdered(version);
      var state := SeekGet(mem, u, q);
      if state != Missing {
        return state.Answer();
      }
      if imm.Some? {
        state := SeekGet(imm.value, u, q);
        if state != Missing {
          return state.Answer();
        }
      } else {
        NewestMissing(EntrySet([]), u, q);
      }
      r := VersionGet(version, u, q);
    }

    /** Apply a batch to the memtable with consecutive sequence numbers: from then on every key
        reads as the batch's last update of it. */
    method Write(batch: seq<Update>)
      requires Valid() && lastSequence + |batch| < MAX_SEQUENCE
      modifies this
      ensures Valid() && Step(old(Abs()), DoWrite(batch), Abs())
      ensures ReadsBack(old(Abs()), batch, Abs())
    {
      hide Inv, AddAll, BatchEntries, Step;
      ghost var before := Abs();
      mem := InsertInto(mem, batch, lastSequence + 1);
      lastSequence := lastSequence + |batch|;
      WriteStep(before, batch, Abs());
      WriteReadsBack(before, batch, Abs());
    }

    /** DB::Put. */
    method Put(key: UserKey, value: string)
      requires Valid() && lastSequence + 1 < MAX_SEQUENCE
      modifies this
      ensures Valid() && Read(Abs(), key, lastSequence) == Answer.Ok(value)
      ensures forall u | u != key :: Read(Abs(), u, lastSequence) == old(Read(Abs(), u, lastSequence))
    {
      hide Inv, Step, Read;
      Write([Update(Value, key, value)]);
      OneUpdate(Update(Value, key, value));
    }

    /** DB::Delete. */
    method Delete(key: UserKey)
      requires Valid() && lastSequence + 1 < MAX_SEQUENCE
      modifies this
      ensures Valid() && Read(Abs(), key, lastSequence) == NotFound
      ensures forall u | u != key :: Read(Abs(), u, lastSequence) == old(Read(Abs(), u, lastSequence))
    {
      hide Inv, Step, Read;
      Write([Update(Deletion, key, "")]);
      OneUpdate(Update(Deletion, key, ""));
    }

    /** MakeRoomForWrite once the memtable is full and the previous one has been flushed. */
    method MakeRoomForWrite()
      requires Valid() && imm.None?
      modifies this
      ensures Valid() && Step(old(Abs()), DoRotate, Abs())
    {
      imm, mem := Some(mem), [];
      StepKeepsInv(old(Abs()), DoRotate, Abs());
    }

    method GetSnapshot() returns (s: SnapshotImpl)
      requires Valid() && snapshots.Valid()
      modifies snapshots, snapshots.Ring()
      ensures Valid() && snapshots.Valid() && Step(old(Abs()), DoSnapshot, Abs())
      ensures s.sequence == lastSequence && snapshots.nodes == old(snapshots.nodes) + [s]
    {
      assert snapshots.nodes != [] ==> Abs().snapshots[|snapshots.nodes| - 1] in Abs().snapshots;
      s := snapshots.New(lastSequence);
      assert Abs().snapshots == old(Abs().snapshots) + [lastSequence];
      StepKeepsInv(old(Abs()), DoSnapshot, Abs());
    }

    method ReleaseSnapshot(s: SnapshotImpl, ghost k: nat)
      requires Valid() && snapshots.Valid() && k < |snapshots.nodes| && snapshots.nodes[k] == s
      modifies snapshots, snapshots.Ring()
      ensures Valid() && snapshots.Valid() && Step(old(Abs()), DoRelease(k), Abs())
      ensures snapshots.nodes == old(Without(snapshots.nodes, k))
    {
      snapshots.Delete(s, k);
      assert Abs().snapshots == old(Abs().snapshots[..k] + Abs().snapshots[k + 1..]);
      StepKeepsInv(old(Abs()), DoRelease(k), Abs());
    }

    /** WriteLevel0Table: build a table and choose the level it goes to. */
    method WriteLevel0Table(entries: seq<Entry>, size: nat, maxOverlap: nat) returns (f: File, level: nat)
      requires Ordered(version) && entries != [] && FileData(nextFile, size, entries).Ok()
      ensures f == FileData(nextFile, size, entries) && level <= MAX_MEM_COMPACT_LEVEL
      ensures level > 0 ==> forall l | 0 <= l <= level :: Apart(version[l], f.Smallest().user, f.Largest().user)
    {
      f := FileData(nextFile, size, entries);
      level := PickLevelForMemTableOutput(version, f.Smallest().user, f.Largest().user, maxOverlap);
    }

    /** What a flush during a compaction must not do (see FlushInside). */
    ghost predicate FlushTolerated(level: nat, size: nat)
      reads this, snapshots
    {
      imm.Some? && imm.value != [] && FileData(nextFile, size, imm.value).Ok() ==>
        Tolerated(Abs(), level, FileData(nextFile, size, imm.value))
    }

    /** CompactMemTable: write the immutable memtable as a table of the level picked for it. That
        level may be one a running compaction writes to; the level invariant then depends on
        where the table lies. */
    method CompactMemTable(size: nat, maxOverlap: nat) returns (level: nat)
      requires Valid() && imm.Some?
      modifies this
      ensures PlainFlush(old(Abs()), level, size, Abs())
      ensures old(FlushTolerated(level, size)) ==> Valid() && Step(old(Abs()), DoFlush(level, size), Abs())
    {
      hide Inv, Ordered, Sound, FlushInto, SortedEntries, Step, Apart, SequencesOf, Tolerated;
      ImmInRange(Abs());
      InvOrdered(Abs());
      ghost var before := Abs();
      level := 0;
      if imm.value != [] {
        var f;
        f, level := WriteLevel0Table(imm.value, size, maxOverlap);
        version := FlushInto(version, level, f);
      }
      imm, nextFile := None, nextFile + 1;
      assert PlainFlush(before, level, size, Abs());
      if old(FlushTolerated(level, size)) {
        FlushStep(before, level, size, Abs());
      }
    }

    /** BackgroundCompaction: move a lone file down, or start a compaction of the inputs. */
    method BackgroundCompaction(level: nat, index: nat, sizeLimit: nat, maxOverlap: nat) returns (moved: bool, ghost op: Op)
      requires Valid() && snapshots.Valid() && job.None? && level + 1 < NUM_LEVELS && index < |version[level]|
      modifies this
      ensures Valid() && Step(old(Abs()), op, Abs())
      ensures if moved then op == DoMove(level, old(version)[level][index]) else op.DoStart? && job.Some?
    {
      hide Inv, Step, InstallInto, ClosedInputs, Ordered, Sound;
      InvOrdered(Abs());
      var in0, in1, grandparents := PickCompaction(version, level, index, sizeLimit);
      moved := IsTrivialMove(in0, in1, grandparents, maxOverlap);
      if moved {
        assert in0 == [version[level][index]] && in1 == [];
        op := DoMove(level, version[level][index]);
        MoveDown(level, version[level][index]);
      } else {
        op := DoStart(level, in0, in1);
        Start(level, in0, in1);
      }
    }

    method MoveDown(level: nat, f: File)
      requires Valid() && job.None? && level + 1 < NUM_LEVELS && ClosedInputs(version, level, [f], [])
      modifies `version
      ensures Valid() && Step(old(Abs()), DoMove(level, f), Abs())
    {
      hide Inv, ClosedInputs, InstallInto;
      ghost var before := Abs();
      version := InstallInto(version, level, [f], [], [f]);
      assert Store.TrivialMove(before, level, f, Abs());
      StepKeepsInv(before, DoMove(level, f), Abs());
    }

    method Start(level: nat, in0: seq<File>, in1: seq<File>)
      requires Valid() && snapshots.Valid() && job.None? && ClosedInputs(version, level, in0, in1)
      modifies `job
      ensures Valid() && Step(old(Abs()), DoStart(level, in0, in1), Abs()) && job.Some?
    {
      hide Inv, ClosedInputs;
      ghost var before := Abs();
      var smallest := OldestSnapshot();
      job := Some(Job(level, in0, in1, version, smallest));
      assert Store.StartCompaction(before, level, in0, in1, Abs());
      StepKeepsInv(before, DoStart(level, in0, in1), Abs());
    }

    /** The running compaction: merge the inputs, drop what nobody needs, install the outputs.
        Other steps, flushes among them, may have happened since it started. */
    method FinishCompaction(stopBefore: seq<bool>, full: seq<bool>) returns (outs: seq<File>)
      requires Valid() && job.Some?
      modifies this
      ensures Valid() && Step(old(Abs()), DoFinish(outs), Abs())
    {
      ghost var before := Abs();
      hide Inv, Step, Ordered, Sound, ClosedInputs, InstallInto, BaseHolds, Kept, Mergeable, SequencesOf;
      JobInputs(before);
      var j := job.value;
      var children := EntriesOf(j.in0 + j.in1);
      ghost var merged, m := MergeExists(children);
      InputsMerged(before, merged);
      var iter := new MergingIterator(children, merged, m);
      var input := ReadAll(iter);
      var c := new Compaction(j.base, j.level);
      outs := DoCompactionWork(c, input, j.smallest, Padded(stopBefore, |input|), Padded(full, |input|), nextFile);
      version := InstallInto(version, j.level, j.in0, j.in1, outs);
      job, nextFile := None, nextFile + |outs|;
      FinishStep(before, outs, Abs());
    }

    /** NewInternalIterator and NewDBIterator: every layer merged, seen at a sequence number. */
    method NewIterator(snapshot: SnapshotImpl?) returns (r: DBIter)
      requires Valid()
      ensures fresh(r) && fresh(r.iter) && r.OK() && !r.valid
      ensures r.sequence == if snapshot != null then snapshot.sequence else lastSequence
      ensures EntrySet(r.Entries()) == Abs().All() && SortedEntries(r.Entries())
    {
      var q := if snapshot != null then snapshot.sequence else lastSequence;
      var children := Layers(mem, if imm.Some? then imm.value else [], version);
      LayersMergeable(Abs());
      hide Inv, Mergeable;
      ghost var merged, m := MergeExists(children);
      LayersHold(Abs(), merged);
      var iter := new MergingIterator(children, merged, m);
      r := new DBIter(iter, q);
    }

    method OldestSnapshot() returns (smallest: nat)
      requires snapshots.Valid()
      ensures smallest == Abs().SmallestSnapshot()
    {
      smallest := if snapshots.Empty() then lastSequence else snapshots.Oldest().sequence;
    }
  }

  lemma OneUpdate(x: Update)
    ensures LastUpdate([x], x.key, 0) && forall u | u != x.key :: !Named([x], u)
  {
  }

  /** A client's view: what a Get without a snapshot answers right after a write. */
  method ReadAfterWrite(db: Db, batch: seq<Update>, u: UserKey) returns (r: Answer)
    requires db.Valid() && db.lastSequence + |batch| < MAX_SEQUENCE
    modifies db
    ensures forall i: nat | LastUpdate(batch, u, i) :: r == if batch[i].kind.Value? then Answer.Ok(batch[i].value) else NotFound
    ensures !Named(batch, u) ==> r == old(Read(db.Abs(), u, db.lastSequence))
  {
    hide Inv, Step, Read;
    db.Write(batch);
    r := db.Get(u, null);
  }

  lemma WriteStep(s: State, batch: seq<Update>, s': State)
    requires Inv(s) && s.lastSequence + |batch| < MAX_SEQUENCE
    requires s' == s.(mem := AddAll(s.mem, BatchEntries(batch, s.lastSequence + 1)), lastSequence := s.lastSequence + |batch|)
    ensures Inv(s') && Step(s, DoWrite(batch), s')
  {
    hide Inv, AddAll, BatchEntries;
    assert Store.Write(s, batch, s');
    StepKeepsInv(s, DoWrite(batch), s');
  }

  lemma FlushStep(s: State, level: nat, size: nat, s': State)
    requires Inv(s) && Flush(s, level, size, s')
    ensures Inv(s') && Step(s, DoFlush(level, size), s')
  {
    hide Inv, Flush;
    FlushKeepsInv(s, level, size, s');
  }

  lemma InvOrdered(s: State)
    requires Inv(s)
    ensures Sound(s.version) && Ordered(s.version)
  {
    SoundIsOrdered(s.version);
  }

  lemma ImmInRange(s: State)
    requires Inv(s)
    ensures SortedEntries(s.ImmEntries())
    ensures s.imm.Some? && s.imm.value != [] ==> forall size :: FileData(s.nextFile, size, s.imm.value).Ok()
  {
    forall i | 0 <= i < |s.ImmEntries()|
      ensures s.ImmEntries()[i].ik.sequence <= MAX_SEQUENCE
    {
      assert s.ImmEntries()[i] in EntrySet(s.ImmEntries());
    }
  }

  /** What an iterator over all layers shows at q is exactly what a Get at q finds. */
  lemma IteratorShowsReads(s: State, es: seq<Entry>, q: nat, u: UserKey, value: string)
    requires SortedEntries(es) && EntrySet(es) == s.All()
    ensures Read(s, u, q) == Answer.Ok(value) <==> exists k :: Yields(es, q, k) && es[k].ik.user == u && es[k].value == value
  {
    if k :| Yields(es, q, k) && es[k].ik.user == u && es[k].value == value {
      YieldsIsFound(es, q, k);
    }
    if Newest(s.All(), u, q).Found? {
      NewestMissing(s.All(), u, q);
      var e :| e in s.All() && VisibleAt(e, u, q);
      var i :| 0 <= i < |es| && es[i] == e;
      YieldsIsFound(es, q, i);
      var k :| Yields(es, q, k) && es[k].ik.user == u;
      YieldsIsFound(es, q, k);
    }
  }
}
