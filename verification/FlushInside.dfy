/** Why a flush inside a running compaction needs care: the level for the flushed table is
    picked against the installed files only, so it can land between what the compaction keeps. */
module FlushInside {
  import opened Basics
  import opened DbFormat
  import opened MultiVersion
  import opened VersionFiles
  import opened VersionRead
  import opened CompactionMeaning
  import opened CompactionSetup
  import opened Install
  import opened Store
  import opened StoreInvariant
  import opened StoreReads
  import opened TwoLevels

  // ----- Exactly when the level stays sorted -----

  /** A table flushed to the output level of the running compaction. */
  ghost predicate FlushUnder(s: State, size: nat, s1: State) {
    && Inv(s) && s.job.Some? && s.imm.Some? && s.imm.value != []
    && PlainFlush(s, s.job.value.level + 1, size, s1)
  }

  function Table(s: State, size: nat): FileData {
    FileData(s.nextFile, size, s.ImmEntries())
  }

  ghost predicate Untangled(fs: seq<File>) {
    forall g, h | g in fs && h in fs && g != h :: EntirelyBefore(g, h) || EntirelyBefore(h, g)
  }

  lemma FlushedFits(s: State, size: nat, s1: State)
    requires FlushUnder(s, size, s1)
    ensures Table(s, size).Ok() && Sound(s1.version) && s1.job == s.job
    ensures Flushed(s.version, s1.version, s.job.value.level + 1, Table(s, size))
    ensures Table(s, size) !in s.version[s.job.value.level + 1]
  {
    var f: File, level := Table(s, size), s.job.value.level + 1;
    FlushFitsImm(s, level, f);
    FlushIsFlushed(s.version, level, f);
    hide Apart, FlushInto, FlushFits, Selected, AllAside;
    FlushKeepsSound(s.version, level, f, s.nextFile);
  }

  /** What the output level holds once the compaction is installed. */
  lemma OutputLevel(s: State, size: nat, s1: State, outs: seq<File>, s2: State, g: File)
    requires FlushUnder(s, size, s1) && FinishCompaction(s1, outs, s2)
    ensures var l := s.job.value.level + 1;
      g in s2.version[l] <==> (g in s1.version[l] && g !in s.job.value.in1) || g in outs
  {
    var j := s.job.value;
    FlushedFits(s, size, s1);
    InstallMember(s1.version, j.level, j.in0, j.in1, outs, j.level + 1, g);
  }

  lemma OutputsDiffer(s: State, size: nat, s1: State, outs: seq<File>, s2: State)
    requires FlushUnder(s, size, s1) && FinishCompaction(s1, outs, s2)
    ensures Table(s, size) in s1.version[s.job.value.level + 1] && Table(s, size) !in s.job.value.in1
    ensures Table(s, size) !in outs
  {
    FlushedFits(s, size, s1);
    hide Sound;
  }

  /** After a flush to its output level, an installed compaction leaves that level sorted
      exactly if each of its outputs lies before or after the flushed table. */
  lemma SplitStaysSorted(s: State, size: nat, s1: State, outs: seq<File>, s2: State)
    requires FlushUnder(s, size, s1) && FinishCompaction(s1, outs, s2)
    ensures Table(s, size).Ok() &&
      (Untangled(s2.version[s.job.value.level + 1])
       <==> forall o | o in outs :: EntirelyBefore(o, Table(s, size)) || EntirelyBefore(Table(s, size), o))
  {
    FlushedFits(s, size, s1);
    OutputsDiffer(s, size, s1, outs, s2);
    var j, l := s.job.value, s.job.value.level + 1;
    var f: File := Table(s, size);
    forall g: File ensures g in s2.version[l] <==> (g in s1.version[l] && g !in j.in1) || g in outs {
      OutputLevel(s, size, s1, outs, s2, g);
    }
    StaysAside(s);
    SoundIsUntangled(s1.version, l);
    hide Inv, PlainFlush, Sound, EntirelyBefore, AllAside, LevelSorted, Kept;
    if forall o | o in outs :: EntirelyBefore(o, f) || EntirelyBefore(f, o) {
      forall g, h | g in s2.version[l] && h in s2.version[l] && g != h
        ensures EntirelyBefore(g, h) || EntirelyBefore(h, g)
      {
        PairApart(s.version[l], s1.version[l], j.in1, outs, f, g, h);
      }
    } else {
      var o :| o in outs && !EntirelyBefore(o, f) && !EntirelyBefore(f, o);
      assert o in s2.version[l] && f in s2.version[l] && o != f;
    }
  }

  lemma PairApart(before: seq<File>, after: seq<File>, in1: seq<File>, outs: seq<File>, f: File, g: File, h: File)
    requires LevelSorted(outs) && AllAside(before, in1, LevelContent(outs)) && Untangled(after) && g != h
    requires f in after && f !in outs && forall x | x in after :: x in before || x == f
    requires (g in after && g !in in1) || g in outs
    requires (h in after && h !in in1) || h in outs
    requires forall o | o in outs :: EntirelyBefore(o, f) || EntirelyBefore(f, o)
    ensures EntirelyBefore(g, h) || EntirelyBefore(h, g)
  {
    hide EntirelyBefore, AllAside, LevelSorted, LevelContent;
    if (g in outs || h in outs) && g != f && h != f {
      InstalledApart(before, in1, outs, g, h);
    }
  }

  lemma StaysAside(s: State)
    requires Inv(s) && s.job.Some?
    ensures s.job.value.level + 1 < NUM_LEVELS
    ensures AllAside(s.version[s.job.value.level + 1], s.job.value.in1, s.job.value.Remaining())
  {
  }

  lemma {:induction false} SortedSequence(es: set<Entry>) returns (r: seq<Entry>)
    requires forall x, y | x in es && y in es && x != y :: Before(x.ik, y.ik) || Before(y.ik, x.ik)
    ensures SortedEntries(r) && EntrySet(r) == es
  {
    r := [];
    if x :| x in es {
      var rest := SortedSequence(es - {x});
      assert forall y | y in rest :: y in EntrySet(rest);
      r := Insert(rest, x);
      assert es == (es - {x}) + {x};
    }
  }

  lemma RemainingHeld(s: State)
    requires Inv(s) && s.job.Some?
    ensures s.job.value.Remaining() <= s.All()
    ensures forall e | e in s.job.value.Remaining() :: e.ik.sequence <= MAX_SEQUENCE
  {
    var j := s.job.value;
    forall e | e in j.Remaining() ensures e in s.All() {
      InputsHeld(s.version, j.level, j.in0, j.in1, e);
    }
  }

  /** Entries with sequence numbers of their own can be put in order. */
  lemma SortedPart(all: set<Entry>, es: set<Entry>) returns (r: seq<Entry>)
    requires Distinct(all) && es <= all && es != {} && forall e | e in es :: e.ik.sequence <= MAX_SEQUENCE
    ensures forall number, size :: FileData(number, size, r).Ok()
    ensures EntrySet(r) == es
  {
    r := SortedSequence(es);
    forall i | 0 <= i < |r| ensures r[i].ik.sequence <= MAX_SEQUENCE {
      assert r[i] in EntrySet(r);
    }
    assert EntrySet([]) == {};
  }

  /** The output that holds everything the compaction keeps. */
  lemma WholeOutput(s: State, number: nat) returns (o: File)
    requires Inv(s) && s.job.Some? && s.job.value.Remaining() != {}
    ensures o.number == number && o.Content() == s.job.value.Remaining()
  {
    InvDistinct(s);
    RemainingHeld(s);
    hide Inv, Kept, Distinct;
    var es := SortedPart(s.All(), s.job.value.Remaining());
    o := FileData(number, 0, es);
  }

  lemma WholeInstalls(s1: State, o: File) returns (s2: State)
    requires s1.job.Some? && s1.job.value.level + 1 < NUM_LEVELS
    requires o.number == s1.nextFile && o.Content() == s1.job.value.Remaining()
    ensures FinishCompaction(s1, [o], s2)
  {
    var j := s1.job.value;
    hide Kept, InstallInto;
    s2 := s1.(version := InstallInto(s1.version, j.level, j.in0, j.in1, [o]), job := None, nextFile := s1.nextFile + 1);
    assert LevelContent([o]) == o.Content() by {
      forall e ensures e in LevelContent([o]) <==> e in o.Content() {
        InLevel([o], e);
      }
    }
    assert LevelSorted([o]) && FreshNumbers([o], s1.nextFile, s2.nextFile);
  }

  lemma WholeIsAside(o: File, f: File)
    requires EntirelyBefore(o, f) || EntirelyBefore(f, o)
    ensures Aside(f, o.Content())
  {
    forall x | x in o.Content()
      ensures EntirelyBefore(o, f) ==> Before(x.ik, f.Smallest())
      ensures EntirelyBefore(f, o) ==> Before(f.Largest(), x.ik)
    {
      FileRange(o, x);
    }
  }

  /** A flush to the output level is tolerable, that is, however the outputs are split, their
      installation keeps the level invariant, exactly if the table lies before or after all the
      entries the compaction keeps. That much is known when the flush picks its level. */
  lemma ToleratedIsExact(s: State, size: nat, s1: State)
    requires FlushUnder(s, size, s1)
    ensures Table(s, size).Ok() &&
      (Tolerated(s, s.job.value.level + 1, Table(s, size))
       <==> forall outs, s2 | FinishCompaction(s1, outs, s2) :: Sound(s2.version))
  {
    FlushedFits(s, size, s1);
    if Tolerated(s, s.job.value.level + 1, Table(s, size)) {
      ToleratedIsEnough(s, size, s1);
    } else {
      var outs, s2 := ToleratedIsNeeded(s, size, s1);
    }
  }

  lemma ToleratedIsEnough(s: State, size: nat, s1: State)
    requires FlushUnder(s, size, s1) && Tolerated(s, s.job.value.level + 1, Table(s, size))
    ensures forall outs, s2 | FinishCompaction(s1, outs, s2) :: Sound(s2.version)
  {
    FlushKeepsInv(s, s.job.value.level + 1, size, s1);
    forall outs, s2 | FinishCompaction(s1, outs, s2) ensures Sound(s2.version) {
      FinishKeepsInv(s1, outs, s2);
      hide FinishCompaction, Sound;
    }
  }

  lemma ToleratedIsNeeded(s: State, size: nat, s1: State) returns (outs: seq<File>, s2: State)
    requires FlushUnder(s, size, s1) && Table(s, size).Ok() && !Tolerated(s, s.job.value.level + 1, Table(s, size))
    ensures FinishCompaction(s1, outs, s2) && !Sound(s2.version)
  {
    FlushedFits(s, size, s1);
    hide Kept, Sound, Flushed, PlainFlush, FinishCompaction, Layered, JobOk;
    var o := WholeOutput(s, s1.nextFile);
    LevelInRange(s);
    outs := [o];
    s2 := WholeInstalls(s1, o);
    BrokenByWhole(s, size, s1, o, s2);
  }

  lemma LevelInRange(s: State)
    requires Inv(s) && s.job.Some?
    ensures s.job.value.level + 1 < NUM_LEVELS
  {
  }

  lemma BrokenByWhole(s: State, size: nat, s1: State, o: File, s2: State)
    requires FlushUnder(s, size, s1) && FinishCompaction(s1, [o], s2)
    requires Table(s, size).Ok() && o.Content() == s.job.value.Remaining() && !Aside(Table(s, size), s.job.value.Remaining())
    ensures !Sound(s2.version)
  {
    SplitStaysSorted(s, size, s1, [o], s2);
    assert o in [o];
    var f: File, l := Table(s, size), s.job.value.level + 1;
    if EntirelyBefore(o, f) || EntirelyBefore(f, o) {
      WholeIsAside(o, f);
    }
    SoundIsUntangled(s2.version, l);
  }

  lemma SoundIsUntangled(v: Version, l: nat)
    requires 1 <= l < NUM_LEVELS
    ensures Sound(v) ==> Untangled(v[l])
  {
    hide NewerFile, EntirelyBefore, ListSorted;
  }

  // ----- A run in which it happens -----

  function One(number: nat, u: UserKey, sequence: nat): File
    requires sequence <= MAX_SEQUENCE
  {
    FileData(number, 1, [Put(u, sequence)])
  }

  function Put(u: UserKey, sequence: nat): Entry {
    Entry(InternalKey(u, sequence, Value), "x")
  }

  /** Keys 1 and 9 are each written twice: the first tables went to level 2, the second ones to
      level 1, since they overlap those. */
  function Low(): seq<File> { [One(2, 1, 1), One(3, 9, 2)] }
  function High(): seq<File> { [One(4, 1, 3), One(5, 9, 4)] }
  function Flushed5(): File { One(6, 5, 5) }
  function Output(): File { FileData(7, 2, [Put(1, 3), Put(9, 4)]) }

  function At4(): State { State([], None, Levels(High(), Low()), 4, [], 6, None) }
  function TheJob(): Job { Job(1, High(), Low(), Levels(High(), Low()), 4) }
  function Started(): State { At4().(job := Some(TheJob())) }
  function Waiting(): State { Started().(imm := Some([Put(5, 5)]), lastSequence := 5) }
  function Under(): State {
    State([], None, Levels(High(), Between2()), 5, [], 7, Some(TheJob()))
  }
  function Finished(): State { State([], None, Levels([], [Output(), Flushed5()]), 5, [], 8, None) }

  /** One key written, and its memtable flushed while nothing else goes on. */
  ghost predicate Tabled(s: State, u: UserKey, level: nat, s': State) {
    && s.mem == [] && s.imm == None && s.lastSequence + 1 < MAX_SEQUENCE && level <= 2
    && (level > 0 ==> forall l | 0 <= l <= level :: Apart(s.version[l], u, u))
    && s' == s.(version := FlushInto(s.version, level, One(s.nextFile, u, s.lastSequence + 1)),
                lastSequence := s.lastSequence + 1, nextFile := s.nextFile + 1)
  }

  lemma ReachImm(s: State, u: UserKey) returns (s2: State)
    requires Reachable(s) && s.mem == [] && s.imm == None && s.lastSequence + 1 < MAX_SEQUENCE
    ensures Reachable(s2) && s2 == s.(imm := Some([Put(u, s.lastSequence + 1)]), lastSequence := s.lastSequence + 1)
  {
    var e := Put(u, s.lastSequence + 1);
    var batch := [Update(Value, u, "x")];
    var s1 := s.(mem := [e], lastSequence := s.lastSequence + 1);
    assert BatchEntries(batch, s.lastSequence + 1) == [e];
    assert AddAll([], [e]) == [e] by { assert [e][1..] == []; }
    hide Reachable, AddAll, BatchEntries;
    ReachableStep(s, DoWrite(batch), s1);
    s2 := s1.(imm := Some([e]), mem := []);
    ReachableStep(s1, DoRotate, s2);
  }

  lemma ReachTable(s: State, u: UserKey, level: nat, s': State)
    requires Reachable(s) && s.job == None && Tabled(s, u, level, s')
    ensures Reachable(s')
  {
    hide Reachable, FlushInto, Apart;
    var s2 := ReachImm(s, u);
    ReachableStep(s2, DoFlush(level, 1), s');
  }

  lemma SavedSecond(g: File, f: File)
    requires !BySmallest(f, g)
    ensures SaveLevel([g], [], [f]) == [g, f]
  {
    RemoveNone([g], []);
    assert [f][1..] == [] && [g][1..] == [];
    assert InsertFile([g], f) == [g] + InsertFile([], f);
    assert InsertFiles([g], [f]) == InsertFile(InsertFiles([g], []), f);
  }

  lemma SavedBetween(g: File, f: File, h: File)
    requires !BySmallest(f, g) && BySmallest(f, h)
    ensures SaveLevel([g, h], [], [f]) == [g, f, h]
  {
    RemoveNone([g, h], []);
    assert [f][1..] == [] && [g, h][1..] == [h];
    assert InsertFile([g, h], f) == [g] + InsertFile([h], f);
    assert InsertFiles([g, h], [f]) == InsertFile(InsertFiles([g, h], []), f);
  }

  /** After n tables, with everything in them. */
  function Holding(l1: seq<File>, l2: seq<File>, n: nat): State {
    State([], None, Levels(l1, l2), n, [], 2 + n, None)
  }

  /** The levels are free for a table of key u down to the level it goes to. */
  lemma Free(l1: seq<File>, l2: seq<File>, u: UserKey, level: nat)
    requires level <= 2 && Apart([], u, u) && (level >= 1 ==> Apart(l1, u, u)) && (level >= 2 ==> Apart(l2, u, u))
    ensures forall l | 0 <= l <= level :: Apart(Levels(l1, l2)[l], u, u)
  {
    hide Apart;
  }

  lemma NothingIn(u: UserKey)
    ensures Apart([], u, u)
  {
  }

  lemma AloneIn(f: File, u: UserKey)
    requires u != f.Smallest().user && f.entries == [f.entries[0]]
    ensures Apart([f], u, u)
  {
  }

  lemma Table1()
    ensures Tabled(Holding([], [], 0), 1, 2, Holding([], [One(2, 1, 1)], 1))
  {
    SavedFirst(One(2, 1, 1));
    NothingIn(1);
    hide SaveLevel, FlushInto, Apart;
    FlushOne([], [], One(2, 1, 1), [One(2, 1, 1)]);
    Free([], [], 1, 2);
  }

  lemma Table2()
    ensures Tabled(Holding([], [One(2, 1, 1)], 1), 9, 2, Holding([], Low(), 2))
  {
    SavedSecond(One(2, 1, 1), One(3, 9, 2));
    NothingIn(9);
    AloneIn(One(2, 1, 1), 9);
    hide SaveLevel, FlushInto, Apart;
    FlushOne([], [One(2, 1, 1)], One(3, 9, 2), Low());
    Free([], [One(2, 1, 1)], 9, 2);
  }

  lemma Table3()
    ensures Tabled(Holding([], Low(), 2), 1, 1, Holding([One(4, 1, 3)], Low(), 3))
  {
    SavedFirst(One(4, 1, 3));
    NothingIn(1);
    hide SaveLevel, FlushInto, Apart;
    FlushOne([], Low(), One(4, 1, 3), [One(4, 1, 3)]);
    Free([], Low(), 1, 1);
  }

  lemma Table4()
    ensures Tabled(Holding([One(4, 1, 3)], Low(), 3), 9, 1, Holding(High(), Low(), 4))
  {
    SavedSecond(One(4, 1, 3), One(5, 9, 4));
    NothingIn(9);
    AloneIn(One(4, 1, 3), 9);
    hide SaveLevel, FlushInto, Apart;
    FlushOne([One(4, 1, 3)], Low(), One(5, 9, 4), High());
    Free([One(4, 1, 3)], Low(), 9, 1);
  }

  lemma ReachFour()
    ensures Reachable(At4())
  {
    ReachableInit(Holding([], [], 0));
    Table1();
    Table2();
    Table3();
    Table4();
    hide Reachable, Tabled, One;
    ReachTable(Holding([], [], 0), 1, 2, Holding([], [One(2, 1, 1)], 1));
    ReachTable(Holding([], [One(2, 1, 1)], 1), 9, 2, Holding([], Low(), 2));
    ReachTable(Holding([], Low(), 2), 1, 1, Holding([One(4, 1, 3)], Low(), 3));
    ReachTable(Holding([One(4, 1, 3)], Low(), 3), 9, 1, Holding(High(), Low(), 4));
  }

  /** A manual compaction takes all four tables. */
  lemma Starts()
    ensures StartCompaction(At4(), 1, High(), Low(), Started())
  {
    assert High()[0] != High()[1] && Low()[0] != Low()[1];
  }

  lemma ReachWaiting()
    ensures Reachable(Waiting())
  {
    ReachFour();
    Starts();
    hide Reachable, StartCompaction;
    ReachableStep(At4(), DoStart(1, High(), Low()), Started());
    var s := ReachImm(Started(), 5);
  }

  /** The table of key 5 overlaps no installed file of levels 0 to 2. */
  lemma FlushGoesUnder()
    ensures PlainFlush(Waiting(), 2, 1, Under())
  {
    NothingAtFive();
    SavedBetween(One(2, 1, 1), Flushed5(), One(3, 9, 2));
    hide Apart, FlushInto, SaveLevel;
    Free(High(), Low(), 5, 2);
    FlushOne(High(), Low(), Flushed5(), Between2());
  }

  lemma NothingAtFive()
    ensures Apart([], 5, 5) && Apart(High(), 5, 5) && Apart(Low(), 5, 5)
  {
  }

  function Between2(): seq<File> { [One(2, 1, 1), Flushed5(), One(3, 9, 2)] }

  lemma JobHolds()
    ensures TheJob().Inputs() == {Put(1, 1), Put(9, 2), Put(1, 3), Put(9, 4)}
    ensures LevelContent([Output()]) == {Put(1, 3), Put(9, 4)}
  {
    ContentOfTwo(One(2, 1, 1), One(3, 9, 2));
    ContentOfTwo(One(4, 1, 3), One(5, 9, 4));
    ContentOfOne(Output());
    hide LevelContent;
  }

  lemma KeptOfFour(base: iset<UserKey>)
    ensures Kept({Put(1, 1), Put(9, 2), Put(1, 3), Put(9, 4)}, 4, base) == {Put(1, 3), Put(9, 4)}
  {
    var inputs := {Put(1, 1), Put(9, 2), Put(1, 3), Put(9, 4)};
    assert Hidden(inputs, 4, Put(1, 1)) by { assert Put(1, 3) in inputs; }
    assert Hidden(inputs, 4, Put(9, 2)) by { assert Put(9, 4) in inputs; }
    assert !Hidden(inputs, 4, Put(1, 3)) && !Hidden(inputs, 4, Put(9, 4));
  }

  lemma Keeps()
    ensures LevelContent([Output()]) == TheJob().Remaining()
  {
    JobHolds();
    KeptOfFour(TheJob().Base());
    hide LevelContent, Kept;
  }

  lemma RemovedAll()
    ensures RemoveFiles(High(), High()) == []
    ensures RemoveFiles(Between2(), Low()) == [Flushed5()]
  {
    var fs := Between2();
    assert fs[1..] == [Flushed5(), One(3, 9, 2)] && fs[1..][1..] == [One(3, 9, 2)] && fs[1..][1..][1..] == [];
    assert High()[1..] == [One(5, 9, 4)] && High()[1..][1..] == [];
    assert Flushed5() !in Low();
    assert RemoveFiles(fs[1..][1..], Low()) == [];
    assert RemoveFiles(fs[1..], Low()) == [Flushed5()] + [];
  }

  lemma SavedLevels()
    ensures SaveLevel(High(), High(), []) == []
    ensures SaveLevel(Between2(), Low(), [Output()]) == [Output(), Flushed5()]
  {
    RemovedAll();
    InsertFirst([Flushed5()], Output());
    assert [Output()] + [Flushed5()] == [Output(), Flushed5()];
    hide RemoveFiles, InsertFile;
  }

  lemma Installs()
    ensures InstallInto(Under().version, 1, High(), Low(), [Output()]) == Finished().version
  {
    SavedLevels();
    hide SaveLevel, InstallInto;
    InstallOne(High(), Between2(), High(), Low(), [Output()], [], [Output(), Flushed5()]);
  }

  lemma Finishes()
    ensures FinishCompaction(Under(), [Output()], Finished())
  {
    Installs();
    Keeps();
    hide InstallInto;
    assert LevelSorted([Output()]) && FreshNumbers([Output()], 7, 8);
  }

  /** Key 5 is in the store, but the search of level 2 stops at the wrong file. */
  lemma SearchMisses()
    ensures Staged(Finished().version, 0, 5, 5) == Missing
  {
    var v := Finished().version;
    var fs := [Output(), Flushed5()];
    assert v[2] == fs;
    assert SearchRange(fs, SeekKey(5, 5), 0, 1) == 0;
    assert SearchRange(fs, SeekKey(5, 5), 0, 2) == 0;
    NewestMissing(EntrySet(Output().entries), 5, 5);
    assert LevelGet(fs, 5, 5) == Missing;
    assert Level0Get([], 5, 5) == Missing && LevelGet([], 5, 5) == Missing;
    hide LevelGet, Level0Get;
    assert Staged(v, 3, 5, 5) == Missing by {
      assert Staged(v, 6, 5, 5) == Missing && Staged(v, 5, 5, 5) == Missing && Staged(v, 4, 5, 5) == Missing;
    }
    assert Staged(v, 2, 5, 5) == Missing && Staged(v, 1, 5, 5) == Missing;
  }

  lemma AllFinished()
    ensures Finished().All() == {Put(1, 3), Put(9, 4), Put(5, 5)}
  {
    ContentOfLevels([], [Output(), Flushed5()]);
    assert LevelContent([]) == {};
    ContentOfTwo(Output(), Flushed5());
    hide Content, LevelContent;
  }

  lemma KeyIsThere()
    ensures Newest(Finished().All(), 5, 5) == Found("x")
  {
    AllFinished();
    var all := Finished().All();
    assert IsNewest(all, 5, 5, Put(5, 5));
    NewestIs(all, 5, 5, Put(5, 5));
  }

  /** From an empty store: a compaction of four tables starts, key 5 is written and flushed, the
      compaction ends, and the lookup of key 5 finds nothing, though the store holds it. */
  lemma FlushedKeyIsLost()
    ensures Reachable(Waiting()) && PlainFlush(Waiting(), 2, 1, Under()) && FinishCompaction(Under(), [Output()], Finished())
    ensures !Sound(Finished().version)
    ensures Finished().mem == [] && Finished().imm == None
    ensures Read(Finished(), 5, 5) == Ok("x") && Staged(Finished().version, 0, 5, 5).Answer() == NotFound
  {
    ReachWaiting();
    FlushGoesUnder();
    Finishes();
    SearchMisses();
    KeyIsThere();
    NotSorted();
  }

  lemma NotSorted()
    ensures !Sound(Finished().version)
  {
    var v := Finished().version;
    assert v[2] == [Output(), Flushed5()];
    assert Output() in v[2] && Flushed5() in v[2];
    assert !EntirelyBefore(Output(), Flushed5()) && !EntirelyBefore(Flushed5(), Output());
  }
}
