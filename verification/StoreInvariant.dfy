/** Every step keeps the store's invariant; what each step does to the set of entries. */
module StoreInvariant {
  import opened Basics
  import opened DbFormat
  import opened MultiVersion
  import opened VersionFiles
  import opened VersionRead
  import opened CompactionMeaning
  import opened CompactionSetup
  import opened Install
  import opened Store

  lemma NewerAdd(a: set<Entry>, added: set<Entry>, b: set<Entry>, top: nat)
    requires NewerThan(a, b) && Bounded(b, top) && forall e | e in added :: e.ik.sequence > top
    ensures NewerThan(a + added, b)
  {
  }

  lemma BoundedParts(s: State, top: nat)
    requires Bounded(s.All(), top)
    ensures Bounded(EntrySet(s.mem), top) && Bounded(EntrySet(s.ImmEntries()), top) && Bounded(Content(s.version), top)
  {
  }

  lemma AboveMem(mem: seq<Entry>, es: seq<Entry>, top: nat)
    requires SortedEntries(mem) && Bounded(EntrySet(mem), top)
    requires forall i | 0 <= i < |es| :: es[i].ik.sequence == top + 1 + i
    ensures SortedEntries(AddAll(mem, es)) && forall e | e in EntrySet(es) :: e.ik.sequence > top
  {
    assert forall x | x in mem :: x in EntrySet(mem);
    AddAllSorted(mem, es, top + 1);
  }

  /** Fresh sequence numbers put a batch on top of everything. */
  lemma WriteLayers(s: State, es: seq<Entry>, s': State)
    requires Layered(s) && Bounded(s.All(), s.lastSequence)
    requires forall i | 0 <= i < |es| :: es[i].ik.sequence == s.lastSequence + 1 + i
    requires s'.mem == AddAll(s.mem, es) && s'.imm == s.imm && s'.version == s.version
    ensures Layered(s')
    ensures s'.All() == s.All() + EntrySet(es)
  {
    BoundedParts(s, s.lastSequence);
    AboveMem(s.mem, es, s.lastSequence);
    hide SortedEntries, NewerThan, Bounded;
    assert s'.ImmEntries() == s.ImmEntries();
    NewerAdd(EntrySet(s.mem), EntrySet(es), EntrySet(s.ImmEntries()), s.lastSequence);
    NewerAdd(EntrySet(s.mem), EntrySet(es), Content(s.version), s.lastSequence);
  }

  lemma WriteKeepsInv(s: State, batch: seq<Update>, s': State) returns (added: set<Entry>)
    requires Inv(s) && Write(s, batch, s')
    ensures Inv(s')
    ensures added == EntrySet(BatchEntries(batch, s.lastSequence + 1))
    ensures s'.All() == s.All() + added && forall e | e in added :: s.lastSequence < e.ik.sequence <= s'.lastSequence
  {
    var es := BatchEntries(batch, s.lastSequence + 1);
    added := EntrySet(es);
    assert forall e | e in added :: s.lastSequence < e.ik.sequence <= s'.lastSequence;
    WriteLayers(s, es, s');
    assert Bounded(s'.All(), s'.lastSequence);
    WriteKeepsJob(s, s');
  }

  lemma WriteKeepsJob(s: State, s': State)
    requires SnapshotsOk(s) && (s.job.Some? ==> JobOk(s, s.job.value))
    requires s' == s.(mem := s'.mem, lastSequence := s'.lastSequence) && s.lastSequence <= s'.lastSequence
    ensures SnapshotsOk(s') && (s'.job.Some? ==> JobOk(s', s'.job.value))
  {
  }

  lemma RotateKeepsInv(s: State, s': State)
    requires Inv(s) && Rotate(s, s')
    ensures Inv(s') && s'.All() == s.All()
  {
    assert EntrySet([]) == {};
  }

  lemma FlushContent(v: Version, level: nat, f: File)
    requires level < NUM_LEVELS
    ensures Content(FlushInto(v, level, f)) == Content(v) + f.Content()
  {
    var w := FlushInto(v, level, f);
    forall e
      ensures e in Content(w) <==> e in Content(v) + f.Content()
    {
      VersionHas(v, e);
      VersionHas(w, e);
      if e in Content(w) {
        var l, g :| 0 <= l < NUM_LEVELS && g in w[l] && e in g.Content();
        FlushMember(v, level, f, l, g);
      }
      if e in Content(v) {
        var l, g :| 0 <= l < NUM_LEVELS && g in v[l] && e in g.Content();
        FlushMember(v, level, f, l, g);
      }
      if e in f.Content() {
        FlushMember(v, level, f, level, f);
      }
    }
  }

  lemma FileNewer(s: State, f: File, l: nat, g: File)
    requires Layered(s) && f.entries == s.ImmEntries() && l < NUM_LEVELS && g in s.version[l]
    ensures NewerFile(f, g)
  {
    forall y | y in g.Content()
      ensures y in Content(s.version)
    {
      VersionHas(s.version, y);
    }
  }

  lemma FlushFitsImm(s: State, level: nat, f: File)
    requires Layered(s) && f.entries == s.ImmEntries() && level < NUM_LEVELS
    requires level > 0 ==> forall l | 0 <= l <= level :: Apart(s.version[l], f.Smallest().user, f.Largest().user)
    ensures FlushFits(s.version, level, f)
  {
    forall l, g | 0 <= l < NUM_LEVELS && g in s.version[l]
      ensures NewerFile(f, g)
    {
      FileNewer(s, f, l, g);
    }
  }

  lemma FlushLayers(s: State, s': State, f: File)
    requires Layered(s) && f.entries == s.ImmEntries()
    requires s'.mem == s.mem && s'.imm == None && Content(s'.version) == Content(s.version) + f.Content()
    ensures Layered(s') && s'.All() == s.All()
  {
    assert EntrySet(s'.ImmEntries()) == {};
  }

  lemma FlushKeepsInv(s: State, level: nat, size: nat, s': State)
    requires Inv(s) && Flush(s, level, size, s')
    ensures Inv(s') && s'.All() == s.All()
  {
    if s.imm.value != [] {
      var f: File := FileData(s.nextFile, size, s.imm.value);
      FlushFitsImm(s, level, f);
      hide Apart, Tolerated;
      TableKeepsInv(s, level, f, s');
    } else {
      EmptyFlush(s, s');
    }
  }

  lemma TableKeepsInv(s: State, level: nat, f: File, s': State)
    requires Inv(s) && f.entries == s.ImmEntries() && f.number == s.nextFile && level < NUM_LEVELS
    requires FlushFits(s.version, level, f) && Tolerated(s, level, f)
    requires s' == s.(imm := None, version := FlushInto(s.version, level, f), nextFile := s.nextFile + 1)
    ensures Inv(s') && s'.All() == s.All()
  {
    hide Sound, NumbersUnique, FlushFits, FlushInto, Tolerated, Layered, Selected, AllAside, BaseHolds;
    FlushKeepsSound(s.version, level, f, s.nextFile);
    FlushContent(s.version, level, f);
    FlushLayers(s, s', f);
    if s.job.Some? {
      FlushKeepsJob(s, s.job.value, level, f);
      assert JobOk(s', s.job.value);
    }
  }

  lemma EmptyFlush(s: State, s': State)
    requires Inv(s) && s.ImmEntries() == [] && s' == s.(imm := None, nextFile := s.nextFile + 1)
    ensures Inv(s') && s'.All() == s.All()
  {
    assert s'.ImmEntries() == s.ImmEntries();
    assert s'.All() == s.All();
    assert NumbersUnique(s'.version, s'.nextFile);
    assert s.job.Some? ==> JobOk(s', s.job.value);
  }

  lemma FlushKeepsJob(s: State, j: Job, level: nat, f: File)
    requires JobOk(s, j) && s.job == Some(j) && level < NUM_LEVELS
    requires FlushFits(s.version, level, f) && Tolerated(s, level, f)
    ensures Selected(FlushInto(s.version, level, f), j.level, j.in0, j.in1)
    ensures AllAside(FlushInto(s.version, level, f)[j.level + 1], j.in1, j.Remaining())
    ensures BaseHolds(FlushInto(s.version, level, f), j)
  {
    var v, w := s.version, FlushInto(s.version, level, f);
    FlushIsFlushed(v, level, f);
    FlushLeavesNewer(v, w, level, f, j);
    FlushAside(s, w, level, f, j);
    FlushBase(v, w, level, f, j);
  }

  lemma FlushLeavesNewer(v: Version, w: Version, level: nat, f: File, j: Job)
    requires Selected(v, j.level, j.in0, j.in1) && Flushed(v, w, level, f)
    requires forall l, g | 0 <= l < NUM_LEVELS && g in v[l] :: NewerFile(f, g)
    ensures LeavesOnlyNewer(w[j.level], j.in0)
    ensures forall g | g in j.in0 :: g in w[j.level]
    ensures forall g | g in j.in1 :: g in w[j.level + 1]
  {
    forall p, g, x, y | p in w[j.level] && p !in j.in0 && g in j.in0 && x in p.Content() && y in g.Content() && x.ik.user == y.ik.user
      ensures x.ik.sequence > y.ik.sequence
    {
      assert p in v[j.level] || NewerFile(f, g);
    }
  }

  lemma FlushAside(s: State, w: Version, level: nat, f: File, j: Job)
    requires JobOk(s, j) && Flushed(s.version, w, level, f) && s.job == Some(j) && Tolerated(s, level, f)
    ensures AllAside(w[j.level + 1], j.in1, j.Remaining())
  {
    hide Aside, Kept;
  }

  lemma FlushBase(v: Version, w: Version, level: nat, f: File, j: Job)
    requires Selected(v, j.level, j.in0, j.in1) && BaseHolds(v, j) && level < NUM_LEVELS
    requires FlushFits(v, level, f) && Flushed(v, w, level, f)
    ensures BaseHolds(w, j)
  {
    hide Selected, FlushFits, File.Content, Job.Inputs, Job.Base;
    forall x, l, g, y | x in j.Inputs() && x.ik.user in j.Base() && j.level + 2 <= l < NUM_LEVELS && g in w[l] && y in g.Content()
      ensures y.ik.user != x.ik.user
    {
      if g !in v[l] {
        InputApart(v, level, f, j, x, y);
      }
    }
  }

  lemma InputApart(v: Version, level: nat, f: File, j: Job, x: Entry, y: Entry)
    requires Selected(v, j.level, j.in0, j.in1) && FlushFits(v, level, f) && j.level + 1 <= level < NUM_LEVELS
    requires x in j.Inputs() && y in f.Content()
    ensures y.ik.user != x.ik.user
  {
    InputFile(j, x);
    var h :| (h in j.in0 || h in j.in1) && x in h.Content();
    var m := if h in j.in0 then j.level else j.level + 1;
    assert Apart(v[m], f.Smallest().user, f.Largest().user);
    assert !Overlaps(h, At(f.Smallest().user), At(f.Largest().user));
    FileRange(f, y);
    FileRange(h, x);
  }

  lemma InputFile(j: Job, x: Entry)
    ensures x in j.Inputs() <==> exists f :: (f in j.in0 || f in j.in1) && x in f.Content()
  {
    InLevel(j.in0, x);
    InLevel(j.in1, x);
  }

  /** Different files of a version hold different entries. */
  lemma FilesDisjoint(v: Version, l: nat, m: nat, f: File, g: File, e: Entry)
    requires Sound(v) && l < NUM_LEVELS && m < NUM_LEVELS && f in v[l] && g in v[m]
    requires l != m || f != g
    requires e in f.Content()
    ensures e !in g.Content()
  {
    if l < m {
      assert NewerFile(f, g);
    } else if m < l {
      assert NewerFile(g, f);
    } else if l == 0 {
      Level0Pair(v, f, g);
      Level0Pair(v, g, f);
      assert NewerFile(f, g) || NewerFile(g, f);
    } else {
      assert EntirelyBefore(f, g) || EntirelyBefore(g, f);
      FileRange(f, e);
      if e in g.Content() {
        FileRange(g, e);
      }
    }
  }

  lemma InputsHeld(v: Version, level: nat, in0: seq<File>, in1: seq<File>, e: Entry)
    requires Selected(v, level, in0, in1) && e in LevelContent(in0) + LevelContent(in1)
    ensures e in Content(v)
  {
    InLevel(in0, e);
    InLevel(in1, e);
    VersionHas(v, e);
  }

  /** An entry that stays comes from a file that is no input. */
  lemma StayedEntry(v: Version, level: nat, in0: seq<File>, in1: seq<File>, l: nat, g: File, e: Entry)
    requires Sound(v) && Selected(v, level, in0, in1)
    requires l < NUM_LEVELS && g in v[l] && e in g.Content()
    ensures e in LevelContent(in0) + LevelContent(in1) <==> (l == level && g in in0) || (l == level + 1 && g in in1)
  {
    InLevel(in0, e);
    InLevel(in1, e);
    if h :| h in in0 && e in h.Content() {
      if l != level || g != h {
        FilesDisjoint(v, l, level, g, h, e);
      }
    } else if h :| h in in1 && e in h.Content() {
      if l != level + 1 || g != h {
        FilesDisjoint(v, l, level + 1, g, h, e);
      }
    }
  }

  /** What the outputs replace is exactly the entries of the inputs. */
  lemma InstallContent(v: Version, level: nat, in0: seq<File>, in1: seq<File>, outs: seq<File>)
    requires Sound(v) && Selected(v, level, in0, in1)
    ensures Content(InstallInto(v, level, in0, in1, outs))
         == (Content(v) - (LevelContent(in0) + LevelContent(in1))) + LevelContent(outs)
    ensures LevelContent(in0) + LevelContent(in1) <= Content(v)
  {
    forall e | e in LevelContent(in0) + LevelContent(in1)
      ensures e in Content(v)
    {
      InputsHeld(v, level, in0, in1, e);
    }
    forall e
      ensures e in Content(InstallInto(v, level, in0, in1, outs)) <==>
              (e in Content(v) && e !in LevelContent(in0) + LevelContent(in1)) || e in LevelContent(outs)
    {
      InstalledEntry(v, level, in0, in1, outs, e);
    }
  }

  lemma InstalledEntry(v: Version, level: nat, in0: seq<File>, in1: seq<File>, outs: seq<File>, e: Entry)
    requires Sound(v) && Selected(v, level, in0, in1)
    ensures e in Content(InstallInto(v, level, in0, in1, outs)) <==>
            (e in Content(v) && e !in LevelContent(in0) + LevelContent(in1)) || e in LevelContent(outs)
  {
    var w := InstallInto(v, level, in0, in1, outs);
    VersionHas(w, e);
    InLevel(outs, e);
    if e in Content(w) {
      var l, g :| 0 <= l < NUM_LEVELS && g in w[l] && e in g.Content();
      InstallMember(v, level, in0, in1, outs, l, g);
      if g in v[l] && !(l == level + 1 && g in outs) {
        StayedEntry(v, level, in0, in1, l, g, e);
        VersionHas(v, e);
      }
    } else {
      if g :| g in outs && e in g.Content() {
        InstallMember(v, level, in0, in1, outs, level + 1, g);
      }
      if e in Content(v) {
        VersionHas(v, e);
        var l, g :| 0 <= l < NUM_LEVELS && g in v[l] && e in g.Content();
        InstallMember(v, level, in0, in1, outs, l, g);
        StayedEntry(v, level, in0, in1, l, g, e);
      }
    }
  }

  lemma InstallLayers(s: State, s': State, gone: set<Entry>, added: set<Entry>)
    requires Layered(s) && added <= gone <= Content(s.version)
    requires s'.mem == s.mem && s'.imm == s.imm && Content(s'.version) == (Content(s.version) - gone) + added
    ensures Layered(s') && s'.All() == (s.All() - gone) + added
    ensures gone <= s.All()
  {
    MemoryDisjoint(s);
    assert s'.ImmEntries() == s.ImmEntries();
  }

  lemma MovedVersion(v: Version, level: nat, f: File, next: nat)
    requires Sound(v) && NumbersUnique(v, next) && ClosedInputs(v, level, [f], [])
    ensures var w := InstallInto(v, level, [f], [], [f]); Sound(w) && NumbersUnique(w, next) && Content(w) == Content(v)
  {
    assert f in [f];
    assert FromInputs([f], [f], []);
    BesideIsAside(v[level + 1], [f], [], LevelContent([f]));
    InstallKeepsSound(v, level, [f], [], [f], next);
    InstallContent(v, level, [f], [], [f]);
    assert LevelContent([]) == {};
  }

  lemma MoveKeepsInv(s: State, level: nat, f: File, s': State)
    requires Inv(s) && TrivialMove(s, level, f, s')
    ensures Inv(s') && s'.All() == s.All()
  {
    hide ClosedInputs, Sound, NumbersUnique, InstallInto, SortedEntries, NewerThan, JobOk, Content;
    MovedVersion(s.version, level, f, s.nextFile);
    SameContent(s, s');
  }

  /** What is held depends on a version's entries only. */
  lemma SameContent(s: State, s': State)
    requires s'.mem == s.mem && s'.imm == s.imm && Content(s'.version) == Content(s.version)
    ensures s'.All() == s.All() && (Layered(s) ==> Layered(s'))
  {
    hide SortedEntries, NewerThan, Content;
    assert s'.ImmEntries() == s.ImmEntries();
  }

  lemma StartBase(v: Version, j: Job)
    requires Sound(v) && j.base == v
    ensures BaseHolds(v, j)
  {
    hide Sound;
    forall x, l, g, y | x in j.Inputs() && x.ik.user in j.Base() && j.level + 2 <= l < NUM_LEVELS && g in v[l] && y in g.Content()
      ensures y.ik.user != x.ik.user
    {
      FileRange(g, y);
      var i :| 0 <= i < |v[l]| && v[l][i] == g;
      assert !Covers(v[l][i], x.ik.user);
    }
  }

  lemma StartAside(v: Version, j: Job)
    requires ClosedInputs(v, j.level, j.in0, j.in1)
    ensures AllAside(v[j.level + 1], j.in1, j.Remaining())
  {
    assert j.Remaining() <= j.Inputs();
    BesideIsAside(v[j.level + 1], j.in0, j.in1, j.Remaining());
  }

  lemma StartJobOk(s: State, j: Job)
    requires Sound(s.version) && SnapshotsOk(s) && ClosedInputs(s.version, j.level, j.in0, j.in1)
    requires j.base == s.version && j.smallest == s.SmallestSnapshot()
    ensures JobOk(s, j)
  {
    StartAside(s.version, j);
    StartBase(s.version, j);
    SoundBelow(s.version);
    SnapshotsBelow(s);
    hide Selected, Beside, AllAside, BaseHolds, Sound, LevelSorted, SnapshotsOk, Kept;
  }

  lemma SnapshotsBelow(s: State)
    requires SnapshotsOk(s)
    ensures s.SmallestSnapshot() <= s.lastSequence && forall q | q in s.snapshots :: s.SmallestSnapshot() <= q
  {
    OldestIsSmallest(s);
  }

  lemma SoundBelow(v: Version)
    requires Sound(v)
    ensures forall l | 1 <= l < NUM_LEVELS :: LevelSorted(v[l])
  {
    SoundIsOrdered(v);
    hide Sound;
  }

  lemma StartKeepsInv(s: State, level: nat, in0: seq<File>, in1: seq<File>, s': State)
    requires Inv(s) && StartCompaction(s, level, in0, in1, s')
    ensures Inv(s') && s'.All() == s.All()
  {
    hide ClosedInputs, Sound, NumbersUnique, Bounded, JobOk, NewerThan, SortedEntries;
    assert s'.All() == s.All();
    StartJobOk(s, s'.job.value);
    SameJob(s, s', s'.job.value);
  }

  lemma SameJob(s: State, s': State, j: Job)
    requires JobOk(s, j) && s'.version == s.version && s'.snapshots == s.snapshots && s'.lastSequence == s.lastSequence
    ensures JobOk(s', j)
  {
  }

  lemma FinishKeepsVersion(s: State, outs: seq<File>, s': State)
    requires Inv(s) && FinishCompaction(s, outs, s') && FromInputs(outs, s.job.value.in0, s.job.value.in1)
    ensures Sound(s'.version) && NumbersUnique(s'.version, s'.nextFile)
  {
    hide InstallInto, LevelContent, LevelSorted, Sound, Layered, SnapshotsOk, Bounded, Selected, AllAside, BaseHolds;
    var j := s.job.value;
    assert NumbersUnique(s.version, s'.nextFile);
    InstallKeepsSound(s.version, j.level, j.in0, j.in1, outs, s'.nextFile);
  }

  lemma FinishKeepsInv(s: State, outs: seq<File>, s': State)
    requires Inv(s) && FinishCompaction(s, outs, s')
    ensures Inv(s')
    ensures var j := s.job.value;
      && j.Inputs() <= s.All()
      && s'.All() == (s.All() - j.Inputs()) + Kept(j.Inputs(), j.smallest, j.Base())
  {
    hide InstallInto, LevelContent, LevelSorted, Sound, Selected, AllAside, BaseHolds;
    var j := s.job.value;
    OutputsFromInputs(j, outs);
    FinishKeepsVersion(s, outs, s');
    hide NumbersUnique, Layered, FreshNumbers, FromInputs;
    InstallContent(s.version, j.level, j.in0, j.in1, outs);
    InstallLayers(s, s', j.Inputs(), LevelContent(outs));
  }

  lemma OutputsFromInputs(j: Job, outs: seq<File>)
    requires LevelContent(outs) <= j.Inputs()
    ensures FromInputs(outs, j.in0, j.in1)
  {
    forall o, x | o in outs && x in o.Content()
      ensures exists f :: (f in j.in0 || f in j.in1) && x in f.Content()
    {
      InLevel(outs, x);
      InputFile(j, x);
    }
  }

  lemma MemoryDisjoint(s: State)
    requires Layered(s)
    ensures EntrySet(s.mem) !! Content(s.version) && EntrySet(s.ImmEntries()) !! Content(s.version)
  {
    forall e | e in Content(s.version)
      ensures e !in EntrySet(s.mem) && e !in EntrySet(s.ImmEntries())
    {
    }
  }

  lemma SnapshotKeepsInv(s: State, s': State)
    requires Inv(s) && GetSnapshot(s, s')
    ensures Inv(s') && s'.All() == s.All()
  {
    forall i, j | 0 <= i < j < |s'.snapshots|
      ensures s'.snapshots[i] <= s'.snapshots[j]
    {
      assert s'.snapshots[i] == s.snapshots[i] && s.snapshots[i] in s.snapshots;
    }
    assert s.job.Some? ==> JobOk(s', s.job.value);
  }

  lemma ReleaseKeepsInv(s: State, i: nat, s': State)
    requires Inv(s) && ReleaseSnapshot(s, i, s')
    ensures Inv(s') && s'.All() == s.All()
  {
    forall k | 0 <= k < |s'.snapshots|
      ensures s'.snapshots[k] == s.snapshots[if k < i then k else k + 1] && s'.snapshots[k] in s.snapshots
    {
    }
    assert forall q | q in s'.snapshots :: q in s.snapshots;
    assert SnapshotsOk(s');
    assert s.job.Some? ==> JobOk(s', s.job.value);
    assert s'.All() == s.All();
  }

  /** The oldest listed snapshot is the smallest, so no job starts above a live one. */
  lemma OldestIsSmallest(s: State)
    requires SnapshotsOk(s)
    ensures s.SmallestSnapshot() <= s.lastSequence
    ensures forall q | q in s.snapshots :: s.SmallestSnapshot() <= q
  {
    assert s.snapshots != [] ==> s.snapshots[0] in s.snapshots;
  }

  lemma AbortKeepsInv(s: State, s': State)
    requires Inv(s) && AbortCompaction(s, s')
    ensures Inv(s') && s'.All() == s.All()
  {
  }

  lemma StepKeepsInv(s: State, op: Op, s': State)
    requires Inv(s) && Step(s, op, s')
    ensures Inv(s')
  {
    hide Inv;
    match op {
      case DoWrite(batch) => var _ := WriteKeepsInv(s, batch, s');
      case DoRotate => RotateKeepsInv(s, s');
      case DoFlush(level, size) => FlushKeepsInv(s, level, size, s');
      case DoMove(level, f) => MoveKeepsInv(s, level, f, s');
      case DoStart(level, in0, in1) => StartKeepsInv(s, level, in0, in1, s');
      case DoFinish(outs) => FinishKeepsInv(s, outs, s');
      case DoAbort => AbortKeepsInv(s, s');
      case DoSnapshot => SnapshotKeepsInv(s, s');
      case DoRelease(i) => ReleaseKeepsInv(s, i, s');
    }
  }
}
