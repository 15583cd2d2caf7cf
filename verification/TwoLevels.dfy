/** Small versions with files on levels 1 and 2 only, for runs written out step by step. */
module TwoLevels {
  import opened DbFormat
  import opened MultiVersion
  import opened VersionFiles
  import opened VersionRead
  import opened Install

  function Levels(l1: seq<File>, l2: seq<File>): Version {
    [[], l1, l2, [], [], [], []]
  }

  lemma LevelUpdates(l1: seq<File>, l2: seq<File>, x: seq<File>)
    ensures Levels(l1, l2)[1 := x] == Levels(x, l2)
    ensures Levels(l1, l2)[2 := x] == Levels(l1, x)
  {
  }

  lemma FlushOne(l1: seq<File>, l2: seq<File>, f: File, m: seq<File>)
    ensures SaveLevel(l1, [], [f]) == m ==> FlushInto(Levels(l1, l2), 1, f) == Levels(m, l2)
    ensures SaveLevel(l2, [], [f]) == m ==> FlushInto(Levels(l1, l2), 2, f) == Levels(l1, m)
  {
    hide SaveLevel;
    LevelUpdates(l1, l2, m);
  }

  lemma InstallOne(l1: seq<File>, l2: seq<File>, in0: seq<File>, in1: seq<File>, outs: seq<File>, m1: seq<File>, m2: seq<File>)
    requires SaveLevel(l1, in0, []) == m1 && SaveLevel(l2, in1, outs) == m2
    ensures InstallInto(Levels(l1, l2), 1, in0, in1, outs) == Levels(m1, m2)
  {
    hide SaveLevel;
    LevelUpdates(l1, l2, m1);
    LevelUpdates(m1, l2, m2);
  }

  lemma SavedFirst(f: File)
    ensures SaveLevel([], [], [f]) == [f]
  {
    RemoveNone([], []);
    InsertFirst([], f);
    assert [f] + [] == [f];
  }

  lemma ContentOfOne(f: File)
    ensures LevelContent([f]) == f.Content()
  {
    forall e ensures e in LevelContent([f]) <==> e in f.Content() {
      InLevel([f], e);
    }
  }

  lemma ContentOfTwo(f: File, g: File)
    ensures LevelContent([f, g]) == f.Content() + g.Content()
  {
    forall e ensures e in LevelContent([f, g]) <==> e in f.Content() + g.Content() {
      InLevel([f, g], e);
    }
  }

  lemma ContentOfLevels(l1: seq<File>, l2: seq<File>)
    ensures Content(Levels(l1, l2)) == LevelContent(l1) + LevelContent(l2)
  {
    var v := Levels(l1, l2);
    assert v[1] == l1 && v[2] == l2;
    assert forall l | 0 <= l < NUM_LEVELS && l != 1 && l != 2 :: v[l] == [];
  }
}
