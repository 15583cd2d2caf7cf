/** A deleted key that comes back. AddBoundaryInputs completes the inputs of the compacted
    level only; when an older entry of a key lies in the next file of the output level,
    dropping the key's deletion marker uncovers it. */
module Resurrection {
  import opened Basics
  import opened DbFormat
  import opened MultiVersion
  import opened VersionFiles
  import opened VersionRead
  import opened CompactionMeaning
  import opened CompactionWork
  import opened CompactionInputs
  import opened CompactionSetup
  import opened Install
  import opened Store
  import opened StoreReads
  import opened TwoLevels

  const PUT2 := Entry(InternalKey(2, 1, Value), "old")
  const PUT3 := Entry(InternalKey(3, 2, Value), "c")
  const PUT1 := Entry(InternalKey(1, 3, Value), "a")
  const DEL2 := Entry(InternalKey(2, 4, Deletion), "")
  const PUT1B := Entry(InternalKey(1, 5, Value), "b")

  function FileA(): File { FileData(2, 10, [PUT2, PUT3]) }
  function FileB(): File { FileData(3, 10, [PUT1, DEL2]) }
  function FileF(): File { FileData(4, 10, [PUT1, DEL2]) }
  function FileG(): File { FileData(5, 10, [PUT2, PUT3]) }
  function FileC(): File { FileData(6, 10, [PUT1B]) }
  function FileD(): File { FileData(7, 10, [PUT1B]) }

  function S0(): State { State([], None, Levels([], []), 0, [], 2, None) }
  function S1(): State { State([PUT2, PUT3], None, Levels([], []), 2, [], 2, None) }
  function S2(): State { State([], Some([PUT2, PUT3]), Levels([], []), 2, [], 2, None) }
  function S3(): State { State([], None, Levels([], [FileA()]), 2, [], 3, None) }
  function S4(): State { State([], None, Levels([], [FileA()]), 2, [2], 3, None) }
  function S5(): State { State([PUT1, DEL2], None, Levels([], [FileA()]), 4, [2], 3, None) }
  function S6(): State { State([], Some([PUT1, DEL2]), Levels([], [FileA()]), 4, [2], 3, None) }
  function S7(): State { State([], None, Levels([FileB()], [FileA()]), 4, [2], 4, None) }
  function Job1(): Job { Job(1, [FileB()], [FileA()], Levels([FileB()], [FileA()]), 2) }
  function S8(): State { State([], None, Levels([FileB()], [FileA()]), 4, [2], 4, Some(Job1())) }
  function S9(): State { State([], None, Levels([], [FileF(), FileG()]), 4, [2], 6, None) }
  function S10(): State { State([], None, Levels([], [FileF(), FileG()]), 4, [], 6, None) }
  function S11(): State { State([PUT1B], None, Levels([], [FileF(), FileG()]), 5, [], 6, None) }
  function S12(): State { State([], Some([PUT1B]), Levels([], [FileF(), FileG()]), 5, [], 6, None) }
  function S13(): State { State([], None, Levels([FileC()], [FileF(), FileG()]), 5, [], 7, None) }
  function Job2(): Job { Job(1, [FileC()], [FileF()], Levels([FileC()], [FileF(), FileG()]), 5) }
  function S14(): State { State([], None, Levels([FileC()], [FileF(), FileG()]), 5, [], 7, Some(Job2())) }
  function S15(): State { State([], None, Levels([], [FileD(), FileG()]), 5, [], 8, None) }

  lemma Writes()
    ensures Write(S0(), [Update(Value, 2, "old"), Update(Value, 3, "c")], S1())
    ensures Write(S4(), [Update(Value, 1, "a"), Update(Deletion, 2, "")], S5())
    ensures Write(S10(), [Update(Value, 1, "b")], S11())
  {
    AddTwo(PUT2, PUT3);
    AddTwo(PUT1, DEL2);
    AddOne(PUT1B);
    hide AddAll;
    assert BatchEntries([Update(Value, 2, "old"), Update(Value, 3, "c")], 1) == [PUT2, PUT3];
    assert BatchEntries([Update(Value, 1, "a"), Update(Deletion, 2, "")], 3) == [PUT1, DEL2];
    assert BatchEntries([Update(Value, 1, "b")], 5) == [PUT1B];
  }

  lemma AddOne(a: Entry)
    ensures AddAll([], [a]) == [a]
  {
    assert [a][1..] == [];
  }

  lemma AddTwo(a: Entry, b: Entry)
    requires Before(a.ik, b.ik)
    ensures AddAll([], [a, b]) == [a, b]
  {
    assert [a, b][1..] == [b] && [b][1..] == [] && [a][1..] == [];
    assert Insert([a], b) == [a] + Insert([a][1..], b);
    assert AddAll([a], [b]) == AddAll(Insert([a], b), [b][1..]);
    assert AddAll([], [a, b]) == AddAll(Insert([], a), [a, b][1..]);
  }

  lemma FlushAlone(l1: seq<File>, l2: seq<File>, f: File)
    ensures l1 == [] ==> FlushInto(Levels(l1, l2), 1, f) == Levels([f], l2)
    ensures l2 == [] ==> FlushInto(Levels(l1, l2), 2, f) == Levels(l1, [f])
  {
    SavedFirst(f);
    hide SaveLevel, FlushInto;
    FlushOne(l1, l2, f, [f]);
  }

  lemma FlushesFirst()
    ensures Flush(S2(), 2, 10, S3())
  {
    FlushAlone([], [], FileA());
    hide FlushInto, SaveLevel;
  }

  lemma FlushesSecond()
    ensures Flush(S6(), 1, 10, S7())
  {
    FlushAlone([], [FileA()], FileB());
  }

  lemma FlushesThird()
    ensures Flush(S12(), 1, 10, S13())
  {
    FlushAlone([], [FileF(), FileG()], FileC());
  }

  lemma InstallLevels(l1: seq<File>, l2: seq<File>, in0: seq<File>, in1: seq<File>, outs: seq<File>, m1: seq<File>, m2: seq<File>)
    requires RemoveFiles(l1, in0) == m1 && InsertFiles(RemoveFiles(l2, in1), outs) == m2
    ensures InstallInto(Levels(l1, l2), 1, in0, in1, outs) == Levels(m1, m2)
  {
    assert SaveLevel(l1, in0, []) == m1 && SaveLevel(l2, in1, outs) == m2;
    hide SaveLevel, RemoveFiles, InsertFiles, InstallInto;
    InstallOne(l1, l2, in0, in1, outs, m1, m2);
  }

  lemma StartFirst()
    ensures StartCompaction(S7(), 1, [FileB()], [FileA()], S8())
  {
  }

  lemma FirstInstall()
    ensures InstallInto(S8().version, 1, [FileB()], [FileA()], [FileF(), FileG()]) == S9().version
  {
    RemoveFirst(FileB(), []);
    RemoveFirst(FileA(), []);
    InsertFirst([], FileG());
    assert [FileB()] + [] == [FileB()] && [FileA()] + [] == [FileA()];
    assert [FileF(), FileG()][1..] == [FileG()];
    assert InsertFile([FileG()], FileF()) == [FileF()] + [FileG()];
    assert InsertFiles([], [FileF(), FileG()]) == [FileF(), FileG()];
    InstallLevels([FileB()], [FileA()], [FileB()], [FileA()], [FileF(), FileG()], [], [FileF(), FileG()]);
  }

  /** The first compaction splits the two entries of key 2 over two tables. */
  lemma FinishFirst()
    ensures FinishCompaction(S8(), [FileF(), FileG()], S9())
  {
    FirstInstall();
    FirstContents();
    FirstShape();
    assert S8().job == Some(Job1());
  }

  lemma FirstShape()
    ensures LevelSorted([FileF(), FileG()]) && FreshNumbers([FileF(), FileG()], 4, 6)
  {
  }

  lemma FirstHeld()
    ensures LevelContent([FileF(), FileG()]) == {PUT1, DEL2, PUT2, PUT3}
    ensures Job1().Inputs() == {PUT1, DEL2, PUT2, PUT3}
  {
    ContentOfTwo(FileF(), FileG());
    ContentOfOne(FileB());
    ContentOfOne(FileA());
    hide LevelContent;
  }

  lemma FirstKept(base: iset<UserKey>)
    ensures Kept({PUT1, DEL2, PUT2, PUT3}, 2, base) == {PUT1, DEL2, PUT2, PUT3}
  {
  }

  lemma FirstContents()
    ensures LevelContent([FileF(), FileG()]) == Job1().Remaining()
  {
    FirstHeld();
    FirstKept(Job1().Base());
    hide LevelContent, Kept;
  }

  /** The second one takes the table with the marker and leaves the one with the value,
      as the overlap of user keys decides. */
  lemma StartSecond()
    ensures StartCompaction(S13(), 1, [FileC()], [FileF()], S14())
    ensures Overlapping(S13().version[2], At(1), At(1)) == [FileF()]
  {
    assert [FileF(), FileG()][..1] == [FileF()] && [FileF()][..0] == [];
    assert EntirelyBefore(FileC(), FileG()) && EntirelyBefore(FileF(), FileG());
    assert Beside([FileF(), FileG()], [FileC()], [FileF()]);
  }

  lemma SecondInstall()
    ensures InstallInto(S14().version, 1, [FileC()], [FileF()], [FileD()]) == S15().version
  {
    RemoveFirst(FileC(), []);
    RemoveFirst(FileF(), [FileG()]);
    InsertFirst([FileG()], FileD());
    assert [FileC()] + [] == [FileC()] && [FileF()] + [FileG()] == [FileF(), FileG()];
    hide RemoveFiles, InsertFiles, InstallInto;
    InstallLevels([FileC()], [FileF(), FileG()], [FileC()], [FileF()], [FileD()], [], [FileD(), FileG()]);
  }

  lemma FinishSecond()
    ensures FinishCompaction(S14(), [FileD()], S15())
  {
    SecondInstall();
    SecondContents();
    hide InstallInto, Kept, LevelContent;
  }

  lemma SecondContents()
    ensures Job2().Inputs() == {PUT1B, PUT1, DEL2}
    ensures LevelContent([FileD()]) == {PUT1B}
    ensures Kept(Job2().Inputs(), 5, Job2().Base()) == {PUT1B}
  {
    ContentOfOne(FileC());
    ContentOfOne(FileF());
    ContentOfOne(FileD());
    assert Hidden(Job2().Inputs(), 5, PUT1);
    assert Obsolete(5, Job2().Base(), DEL2);
  }

  lemma ReachQuarter()
    ensures Reachable(S2())
  {
    Writes();
    ReachableInit(S0());
    ReachableStep(S0(), DoWrite([Update(Value, 2, "old"), Update(Value, 3, "c")]), S1());
    ReachableStep(S1(), DoRotate, S2());
  }

  lemma ReachHalf()
    ensures Reachable(S6())
  {
    ReachQuarter();
    FlushesFirst();
    ReachableStep(S2(), DoFlush(2, 10), S3());
    ReachableStep(S3(), DoSnapshot, S4());
    Writes();
    ReachableStep(S4(), DoWrite([Update(Value, 1, "a"), Update(Deletion, 2, "")]), S5());
    ReachableStep(S5(), DoRotate, S6());
  }

  lemma ReachFirst()
    ensures Reachable(S10())
  {
    ReachHalf();
    FlushesSecond();
    ReachableStep(S6(), DoFlush(1, 10), S7());
    StartFirst();
    ReachableStep(S7(), DoStart(1, [FileB()], [FileA()]), S8());
    FinishFirst();
    ReachableStep(S8(), DoFinish([FileF(), FileG()]), S9());
    assert S10().snapshots == S9().snapshots[..0] + S9().snapshots[1..];
    ReachableStep(S9(), DoRelease(0), S10());
  }

  lemma ReachSecond()
    ensures Reachable(S14())
  {
    ReachFirst();
    Writes();
    ReachableStep(S10(), DoWrite([Update(Value, 1, "b")]), S11());
    ReachableStep(S11(), DoRotate, S12());
    FlushesThird();
    ReachableStep(S12(), DoFlush(1, 10), S13());
    StartSecond();
    ReachableStep(S13(), DoStart(1, [FileC()], [FileF()]), S14());
  }

  /** From an empty store, key 2 is written, deleted, and read as deleted; installing one more
      compaction, without any write, brings its old value back. */
  lemma DeletedKeyComesBack()
    ensures Reachable(S14()) && Live(S14(), 5) && FinishCompaction(S14(), [FileD()], S15())
    ensures Read(S14(), 2, 5) == NotFound
    ensures Read(S15(), 2, 5) == Ok("old")
  {
    ReachSecond();
    FinishSecond();
    ReachableStep(S14(), DoFinish([FileD()]), S15());
    BothDistinct();
    BeforeRead();
    AfterRead();
  }

  lemma BothDistinct()
    requires Reachable(S14()) && Reachable(S15())
    ensures Distinct(S14().All()) && Distinct(S15().All())
  {
    ReachableInv(S14());
    ReachableInv(S15());
    InvDistinct(S14());
    InvDistinct(S15());
  }

  lemma MarkerIsNewest(s: set<Entry>)
    requires s == {PUT1B, PUT1, DEL2} + {PUT2, PUT3} && Distinct(s)
    ensures Newest(s, 2, 5) == Deleted
  {
    assert forall x | x in s && VisibleAt(x, 2, 5) :: x == DEL2 || x == PUT2;
    assert IsNewest(s, 2, 5, DEL2);
    NewestIs(s, 2, 5, DEL2);
  }

  lemma ValueIsNewest(s: set<Entry>)
    requires s == {PUT1B} + {PUT2, PUT3} && Distinct(s)
    ensures Newest(s, 2, 5) == Found("old")
  {
    assert forall x | x in s && VisibleAt(x, 2, 5) :: x == PUT2;
    assert IsNewest(s, 2, 5, PUT2);
    NewestIs(s, 2, 5, PUT2);
  }

  lemma BeforeRead()
    requires Distinct(S14().All())
    ensures Read(S14(), 2, 5) == NotFound
  {
    ContentOfLevels([FileC()], [FileF(), FileG()]);
    ContentOfOne(FileC());
    ContentOfTwo(FileF(), FileG());
    assert S14().All() == {PUT1B, PUT1, DEL2} + {PUT2, PUT3};
    MarkerIsNewest(S14().All());
  }

  lemma AfterRead()
    requires Distinct(S15().All())
    ensures Read(S15(), 2, 5) == Ok("old")
  {
    ContentOfLevels([], [FileD(), FileG()]);
    ContentOfTwo(FileD(), FileG());
    assert S15().All() == {PUT1B} + {PUT2, PUT3};
    ValueIsNewest(S15().All());
  }
}
