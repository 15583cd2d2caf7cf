/** Replacing files of a version, and what keeps the level invariant across it. */
module Install {
  import opened DbFormat
  import opened MultiVersion
  import opened VersionFiles
  import opened VersionRead
  import opened CompactionSetup

  /** BySmallestKey: the order of a level's file list. */
  predicate BySmallest(f: File, g: File) {
    Less(f.Smallest(), g.Smallest()) || (f.Smallest() == g.Smallest() && f.number < g.number)
  }

  ghost predicate ListSorted(fs: seq<File>) {
    forall i, j | 0 <= i < j < |fs| :: BySmallest(fs[i], fs[j])
  }

  ghost predicate NewerFile(f: File, g: File) {
    NewerThan(f.Content(), g.Content())
  }

  /** The level invariant, file by file. */
  ghost predicate OrderedFiles(v: Version) {
    && (forall f, g | f in v[0] && g in v[0] && f != g ::
          f.number != g.number && (f.number > g.number ==> NewerFile(f, g)))
    && (forall l, f, g | 1 <= l < NUM_LEVELS && f in v[l] && g in v[l] && f != g ::
          EntirelyBefore(f, g) || EntirelyBefore(g, f))
    && (forall l, m, f, g | 0 <= l < m < NUM_LEVELS && f in v[l] && g in v[m] :: NewerFile(f, g))
  }

  ghost predicate Sound(v: Version) {
    OrderedFiles(v) && forall l | 0 <= l < NUM_LEVELS :: ListSorted(v[l])
  }

  lemma SoundIsOrdered(v: Version)
    requires Sound(v)
    ensures Ordered(v)
  {
    SoundLevel0(v);
    forall l | 1 <= l < NUM_LEVELS
      ensures LevelSorted(v[l])
    {
      SoundLevel(v, l);
    }
    forall l, m | 0 <= l < m < NUM_LEVELS
      ensures NewerThan(LevelContent(v[l]), LevelContent(v[m]))
    {
      SoundAcross(v, l, m);
    }
  }

  lemma SoundLevel0(v: Version)
    requires Sound(v)
    ensures Level0Ordered(v[0])
  {
    forall i, j | 0 <= i < |v[0]| && 0 <= j < |v[0]| && i != j
      ensures v[0][i].number != v[0][j].number
      ensures v[0][i].number > v[0][j].number ==> NewerThan(v[0][i].Content(), v[0][j].Content())
    {
      ListSortedDiffers(v[0], i, j);
      Level0Pair(v, v[0][i], v[0][j]);
    }
  }

  lemma ListSortedDiffers(fs: seq<File>, i: nat, j: nat)
    requires ListSorted(fs) && i < |fs| && j < |fs| && i != j
    ensures fs[i] != fs[j]
  {
    assert BySmallest(fs[i], fs[j]) || BySmallest(fs[j], fs[i]);
  }

  lemma Level0Pair(v: Version, f: File, g: File)
    requires OrderedFiles(v) && f in v[0] && g in v[0] && f != g
    ensures f.number != g.number
    ensures f.number > g.number ==> NewerThan(f.Content(), g.Content())
  {
  }

  lemma SoundLevel(v: Version, l: nat)
    requires Sound(v) && 1 <= l < NUM_LEVELS
    ensures LevelSorted(v[l])
  {
    forall i, j | 0 <= i < j < |v[l]|
      ensures Before(v[l][i].Largest(), v[l][j].Smallest())
    {
      assert v[l][i] in v[l] && v[l][j] in v[l];
      SortedPair(v[l][i], v[l][j]);
    }
  }

  lemma SoundAcross(v: Version, l: nat, m: nat)
    requires Sound(v) && l < m < NUM_LEVELS
    ensures NewerThan(LevelContent(v[l]), LevelContent(v[m]))
  {
    forall x, y | x in LevelContent(v[l]) && y in LevelContent(v[m]) && x.ik.user == y.ik.user
      ensures x.ik.sequence > y.ik.sequence
    {
      InLevel(v[l], x);
      InLevel(v[m], y);
      var f :| f in v[l] && x in f.Content();
      var g :| g in v[m] && y in g.Content();
      assert NewerFile(f, g);
    }
  }

  lemma SortedPair(f: File, g: File)
    requires BySmallest(f, g) && (f != g ==> EntirelyBefore(f, g) || EntirelyBefore(g, f))
    ensures EntirelyBefore(f, g)
  {
    FileRange(g, g.entries[0]);
    CompareIsTotalOrder(f.Smallest(), g.Smallest(), f.Smallest());
    CompareIsTotalOrder(g.Largest(), f.Smallest(), g.Smallest());
    CompareIsTotalOrder(g.Smallest(), g.Largest(), f.Smallest());
  }

  function InsertFile(fs: seq<File>, f: File): (r: seq<File>)
    ensures forall g :: g in r <==> g == f || g in fs
    ensures ListSorted(fs) && (forall g | g in fs :: BySmallest(f, g) || BySmallest(g, f)) ==> ListSorted(r)
  {
    if fs == [] || BySmallest(f, fs[0]) then
      assert forall g | fs != [] && BySmallest(fs[0], g) :: BySmallest(f, g) by {
        forall g | fs != [] && BySmallest(fs[0], g) ensures BySmallest(f, g) {
          CompareIsTotalOrder(f.Smallest(), fs[0].Smallest(), g.Smallest());
        }
      }
      [f] + fs
    else
      assert forall g :: g in fs <==> g == fs[0] || g in fs[1..];
      var rest := InsertFile(fs[1..], f);
      assert forall i | 0 <= i < |rest| :: rest[i] in rest;
      [fs[0]] + rest
  }

  lemma SortedAfterFirst(fs: seq<File>, rest: seq<File>)
    requires fs != [] && (ListSorted(fs) ==> ListSorted(rest))
    requires forall g | g in rest :: g in fs[1..]
    ensures ListSorted(fs) ==> ListSorted([fs[0]] + rest)
  {
    assert forall i | 0 <= i < |rest| :: rest[i] in rest;
  }

  function RemoveFiles(fs: seq<File>, gone: seq<File>): (r: seq<File>)
    ensures forall g :: g in r <==> g in fs && g !in gone
    ensures ListSorted(fs) ==> ListSorted(r)
  {
    if fs == [] then []
    else
      assert forall g :: g in fs <==> g == fs[0] || g in fs[1..];
      var rest := RemoveFiles(fs[1..], gone);
      if fs[0] in gone then rest
      else
        assert ListSorted(fs) ==> ListSorted([fs[0]] + rest) by {
          SortedAfterFirst(fs, rest);
        }
        [fs[0]] + rest
  }

  /** The added files differ in number from one another and from the files there. */
  ghost predicate Addable(added: seq<File>, fs: seq<File>) {
    && (forall f, g | f in added && g in fs :: f.number != g.number)
    && (forall i, j | 0 <= i < j < |added| :: added[i].number != added[j].number)
  }

  function InsertFiles(fs: seq<File>, added: seq<File>): (r: seq<File>)
    ensures forall g :: g in r <==> g in added || g in fs
    ensures ListSorted(fs) && Addable(added, fs) ==> ListSorted(r)
  {
    if added == [] then fs
    else
      assert forall g :: g in added <==> g == added[0] || g in added[1..];
      var rest := InsertFiles(fs, added[1..]);
      assert Addable(added, fs) ==> forall g | g in rest :: BySmallest(added[0], g) || BySmallest(g, added[0]) by {
        forall g | Addable(added, fs) && g in rest
          ensures BySmallest(added[0], g) || BySmallest(g, added[0])
        {
          NumbersCompare(added[0], g);
        }
      }
      InsertFile(rest, added[0])
  }

  /** Builder::SaveTo for one level: the old files but for the deleted, and the new, in order. */
  function SaveLevel(fs: seq<File>, gone: seq<File>, added: seq<File>): (r: seq<File>)
    ensures forall g :: g in r <==> (g in fs && g !in gone) || g in added
    ensures ListSorted(fs) && Addable(added, fs) ==> ListSorted(r)
  {
    InsertFiles(RemoveFiles(fs, gone), added)
  }

  lemma InsertFirst(fs: seq<File>, f: File)
    requires fs == [] || BySmallest(f, fs[0])
    ensures InsertFiles(fs, [f]) == [f] + fs
  {
    assert [f][1..] == [];
  }

  lemma RemoveFirst(f: File, rest: seq<File>)
    requires f !in rest
    ensures RemoveFiles([f] + rest, [f]) == rest
  {
    assert ([f] + rest)[1..] == rest;
    RemoveNone(rest, [f]);
  }

  lemma {:induction false} RemoveNone(fs: seq<File>, gone: seq<File>)
    requires forall g | g in fs :: g !in gone
    ensures RemoveFiles(fs, gone) == fs
  {
    if fs != [] {
      RemoveNone(fs[1..], gone);
    }
  }

  /** Files are told apart by their numbers. */
  ghost predicate NumbersUnique(v: Version, next: nat) {
    && (forall l, f | 0 <= l < NUM_LEVELS && f in v[l] :: f.number < next)
    && (forall l, m, f, g | 0 <= l < NUM_LEVELS && 0 <= m < NUM_LEVELS && f in v[l] && g in v[m] && f.number == g.number ::
          l == m && f == g)
  }

  ghost predicate FreshNumbers(added: seq<File>, lo: nat, hi: nat) {
    && (forall f | f in added :: lo <= f.number < hi)
    && (forall i, j | 0 <= i < j < |added| :: added[i].number != added[j].number)
  }

  lemma NumbersCompare(f: File, g: File)
    requires f.number != g.number
    ensures BySmallest(f, g) || BySmallest(g, f)
  {
    CompareIsTotalOrder(f.Smallest(), g.Smallest(), f.Smallest());
  }

  function FlushInto(v: Version, level: nat, f: File): (r: Version)
    requires level < NUM_LEVELS
  {
    v[level := SaveLevel(v[level], [], [f])]
  }

  function InstallInto(v: Version, level: nat, in0: seq<File>, in1: seq<File>, outs: seq<File>): (r: Version)
    requires level + 1 < NUM_LEVELS
  {
    v[level := SaveLevel(v[level], in0, [])][level + 1 := SaveLevel(v[level + 1], in1, outs)]
  }

  lemma ApartFiles(f: File, g: File)
    requires !Overlaps(g, At(f.Smallest().user), At(f.Largest().user))
    ensures EntirelyBefore(f, g) || EntirelyBefore(g, f)
    ensures NewerFile(g, f)
  {
    FileRange(g, g.entries[0]);
    forall x, y | x in g.Content() && y in f.Content()
      ensures x.ik.user != y.ik.user
    {
      FileRange(g, x);
      FileRange(f, y);
    }
  }

  lemma FlushMember(v: Version, level: nat, f: File, l: nat, g: File)
    requires level < NUM_LEVELS && l < NUM_LEVELS
    ensures g in FlushInto(v, level, f)[l] <==> g in v[l] || (l == level && g == f)
  {
  }

  lemma FlushLists(v: Version, level: nat, f: File, next: nat)
    requires Sound(v) && NumbersUnique(v, next) && f.number == next && level < NUM_LEVELS
    ensures forall l | 0 <= l < NUM_LEVELS :: ListSorted(FlushInto(v, level, f)[l])
  {
    assert Addable([f], v[level]);
  }

  /** w holds the files of v, and f at one level. */
  ghost predicate Flushed(v: Version, w: Version, level: nat, f: File) {
    forall l, g | 0 <= l < NUM_LEVELS :: g in w[l] <==> g in v[l] || (l == level && g == f)
  }

  lemma FlushIsFlushed(v: Version, level: nat, f: File)
    requires level < NUM_LEVELS
    ensures Flushed(v, FlushInto(v, level, f), level, f)
  {
    forall l, g | 0 <= l < NUM_LEVELS
      ensures g in FlushInto(v, level, f)[l] <==> g in v[l] || (l == level && g == f)
    {
      FlushMember(v, level, f, l, g);
    }
  }

  lemma FlushNumbers(v: Version, w: Version, level: nat, f: File, next: nat)
    requires NumbersUnique(v, next) && f.number == next && level < NUM_LEVELS && Flushed(v, w, level, f)
    ensures NumbersUnique(w, next + 1)
  {
    forall l, g | 0 <= l < NUM_LEVELS && g in w[l]
      ensures g.number < next + 1 && (g.number == next ==> l == level && g == f)
    {
      assert g in v[l] ==> g.number < next;
    }
    forall l, m, g, h | 0 <= l < NUM_LEVELS && 0 <= m < NUM_LEVELS && g in w[l] && h in w[m] && g.number == h.number
      ensures l == m && g == h
    {
      if g.number < next {
        assert g in v[l] && h in v[m];
      }
    }
  }

  ghost predicate FlushFits(v: Version, level: nat, f: File) {
    && (forall l, g | 0 <= l < NUM_LEVELS && g in v[l] :: NewerFile(f, g))
    && (level > 0 ==> forall l | 0 <= l <= level < NUM_LEVELS :: Apart(v[l], f.Smallest().user, f.Largest().user))
  }

  lemma FlushApart(v: Version, level: nat, f: File, l: nat, g: File)
    requires FlushFits(v, level, f) && 0 < level < NUM_LEVELS && l <= level && g in v[l]
    ensures EntirelyBefore(f, g) || EntirelyBefore(g, f)
    ensures NewerFile(g, f)
  {
    assert Apart(v[l], f.Smallest().user, f.Largest().user);
    ApartFiles(f, g);
  }

  /** A flushed table, newer than everything and placed under no overlap, keeps the order. */
  lemma FlushKeepsLevel0(v: Version, w: Version, level: nat, f: File, next: nat)
    requires OrderedFiles(v) && FlushFits(v, level, f) && level < NUM_LEVELS && Flushed(v, w, level, f)
    requires NumbersUnique(v, next) && f.number == next
    ensures forall g, h | g in w[0] && h in w[0] && g != h ::
              g.number != h.number && (g.number > h.number ==> NewerFile(g, h))
  {
    hide NewerFile, EntirelyBefore, Apart;
    forall g | g in w[0] ensures (g in v[0] && g.number < next && NewerFile(f, g)) || g == f {}
  }

  lemma FlushKeepsLevels(v: Version, w: Version, level: nat, f: File)
    requires OrderedFiles(v) && FlushFits(v, level, f) && level < NUM_LEVELS && Flushed(v, w, level, f)
    ensures forall l, g, h | 1 <= l < NUM_LEVELS && g in w[l] && h in w[l] && g != h ::
              EntirelyBefore(g, h) || EntirelyBefore(h, g)
  {
    hide NewerFile, EntirelyBefore, Apart, FlushFits;
    forall l, g, h | 1 <= l < NUM_LEVELS && g in w[l] && h in w[l] && g != h
      ensures EntirelyBefore(g, h) || EntirelyBefore(h, g)
    {
      if g !in v[l] {
        FlushApart(v, level, f, l, h);
      } else if h !in v[l] {
        FlushApart(v, level, f, l, g);
      }
    }
  }

  lemma FlushKeepsAges(v: Version, w: Version, level: nat, f: File)
    requires OrderedFiles(v) && FlushFits(v, level, f) && level < NUM_LEVELS && Flushed(v, w, level, f)
    ensures forall l, m, g, h | 0 <= l < m < NUM_LEVELS && g in w[l] && h in w[m] :: NewerFile(g, h)
  {
    hide NewerFile, EntirelyBefore, Apart;
    forall l, m, g, h | 0 <= l < m < NUM_LEVELS && g in w[l] && h in w[m]
      ensures NewerFile(g, h)
    {
      if h !in v[m] {
        FlushApart(v, level, f, l, g);
      }
    }
  }

  lemma FlushKeepsSound(v: Version, level: nat, f: File, next: nat)
    requires Sound(v) && NumbersUnique(v, next) && f.number == next && level < NUM_LEVELS
    requires FlushFits(v, level, f)
    ensures Sound(FlushInto(v, level, f)) && NumbersUnique(FlushInto(v, level, f), next + 1)
  {
    var w := FlushInto(v, level, f);
    FlushLists(v, level, f, next);
    FlushIsFlushed(v, level, f);
    hide FlushInto, FlushFits, NewerFile, EntirelyBefore, ListSorted, NumbersUnique, Flushed;
    FlushNumbers(v, w, level, f, next);
    FlushKeepsLevel0(v, w, level, f, next);
    FlushKeepsLevels(v, w, level, f);
    FlushKeepsAges(v, w, level, f);
  }

  ghost predicate FromInputs(outs: seq<File>, in0: seq<File>, in1: seq<File>) {
    forall o, x | o in outs && x in o.Content() :: exists f :: (f in in0 || f in in1) && x in f.Content()
  }

  lemma OutputAge(v: Version, level: nat, in0: seq<File>, in1: seq<File>, o: File, l: nat, g: File)
    requires OrderedFiles(v) && Selected(v, level, in0, in1)
    requires forall x | x in o.Content() :: exists f :: (f in in0 || f in in1) && x in f.Content()
    requires l < NUM_LEVELS && g in v[l]
    ensures l < level || (l == level && g !in in0) ==> NewerFile(g, o)
    ensures l > level + 1 ==> NewerFile(o, g)
  {
    forall x, y | x in o.Content() && y in g.Content() && x.ik.user == y.ik.user
      ensures l < level || (l == level && g !in in0) ==> y.ik.sequence > x.ik.sequence
      ensures l > level + 1 ==> x.ik.sequence > y.ik.sequence
    {
      var f :| (f in in0 || f in in1) && x in f.Content();
      if f in in0 {
        assert l < level ==> NewerFile(g, f);
        assert l > level + 1 ==> NewerFile(f, g);
      } else {
        assert l <= level ==> NewerFile(g, f);
        assert l > level + 1 ==> NewerFile(f, g);
      }
    }
  }

  /** What the numbers of the outputs must satisfy: new, or taken over from the inputs. */
  ghost predicate NumbersFit(v: Version, level: nat, in0: seq<File>, in1: seq<File>, outs: seq<File>, next: nat) {
    && (forall o, l, g | o in outs && 0 <= l < NUM_LEVELS && g in v[l] && g.number == o.number :: l == level && g in in0)
    && (forall o | o in outs :: o.number < next)
    && (forall i, j | 0 <= i < j < |outs| :: outs[i].number != outs[j].number)
  }

  lemma InstallMember(v: Version, level: nat, in0: seq<File>, in1: seq<File>, outs: seq<File>, l: nat, g: File)
    requires level + 1 < NUM_LEVELS && l < NUM_LEVELS
    ensures g in InstallInto(v, level, in0, in1, outs)[l] <==> KeptOrAdded(v, level, in0, in1, outs, l, g)
  {
  }

  lemma InstallLists(v: Version, level: nat, in0: seq<File>, in1: seq<File>, outs: seq<File>, next: nat)
    requires Sound(v) && level + 1 < NUM_LEVELS
    requires NumbersFit(v, level, in0, in1, outs, next)
    ensures forall l | 0 <= l < NUM_LEVELS :: ListSorted(InstallInto(v, level, in0, in1, outs)[l])
  {
    assert Addable(outs, v[level + 1]);
    assert Addable([], v[level]);
  }

  ghost predicate KeptOrAdded(v: Version, level: nat, in0: seq<File>, in1: seq<File>, outs: seq<File>, l: nat, g: File)
    requires l < NUM_LEVELS
  {
    || (g in v[l] && !(l == level && g in in0) && !(l == level + 1 && g in in1))
    || (l == level + 1 && g in outs)
  }

  /** w is v with the inputs replaced by the outputs, as sets of files. */
  ghost predicate Replaced(v: Version, w: Version, level: nat, in0: seq<File>, in1: seq<File>, outs: seq<File>) {
    forall l, g | 0 <= l < NUM_LEVELS && g in w[l] :: KeptOrAdded(v, level, in0, in1, outs, l, g)
  }

  lemma ReplacedNumbers(v: Version, w: Version, level: nat, in0: seq<File>, in1: seq<File>, outs: seq<File>, next: nat)
    requires NumbersUnique(v, next) && level + 1 < NUM_LEVELS && Replaced(v, w, level, in0, in1, outs)
    requires NumbersFit(v, level, in0, in1, outs, next)
    ensures NumbersUnique(w, next)
  {
    forall l, m, f, g | 0 <= l < NUM_LEVELS && 0 <= m < NUM_LEVELS && f in w[l] && g in w[m] && f.number == g.number
      ensures l == m && f == g
    {
      assert KeptOrAdded(v, level, in0, in1, outs, l, f) && KeptOrAdded(v, level, in0, in1, outs, m, g);
      OutputNumbers(v, level, in0, in1, outs, next, l, m, f, g);
    }
  }

  lemma OutputNumbers(v: Version, level: nat, in0: seq<File>, in1: seq<File>, outs: seq<File>, next: nat,
                      l: nat, m: nat, f: File, g: File)
    requires NumbersUnique(v, next) && NumbersFit(v, level, in0, in1, outs, next)
    requires l < NUM_LEVELS && m < NUM_LEVELS && f.number == g.number
    requires (f in v[l] && !(l == level && f in in0)) || (l == level + 1 && f in outs)
    requires (g in v[m] && !(m == level && g in in0)) || (m == level + 1 && g in outs)
    ensures l == m && f == g
  {
    if l == level + 1 && f in outs && m == level + 1 && g in outs {
      var i :| 0 <= i < |outs| && outs[i] == f;
      var j :| 0 <= j < |outs| && outs[j] == g;
      assert i == j;
    }
  }

  lemma ReplacedOrdered(v: Version, w: Version, level: nat, in0: seq<File>, in1: seq<File>, outs: seq<File>)
    requires OrderedFiles(v) && Selected(v, level, in0, in1) && Replaced(v, w, level, in0, in1, outs)
    requires LevelSorted(outs) && FromInputs(outs, in0, in1) && AllAside(v[level + 1], in1, LevelContent(outs))
    ensures OrderedFiles(w)
  {
    forall f | f in w[0]
      ensures f in v[0]
    {
      assert KeptOrAdded(v, level, in0, in1, outs, 0, f);
    }
    forall l, f, g | 1 <= l < NUM_LEVELS && f in w[l] && g in w[l] && f != g
      ensures EntirelyBefore(f, g) || EntirelyBefore(g, f)
    {
      assert KeptOrAdded(v, level, in0, in1, outs, l, f) && KeptOrAdded(v, level, in0, in1, outs, l, g);
      if l == level + 1 && (f in outs || g in outs) {
        InstalledApart(v[level + 1], in1, outs, f, g);
      }
    }
    forall l, m, f, g | 0 <= l < m < NUM_LEVELS && f in w[l] && g in w[m]
      ensures NewerFile(f, g)
    {
      assert KeptOrAdded(v, level, in0, in1, outs, l, f) && KeptOrAdded(v, level, in0, in1, outs, m, g);
      if m == level + 1 && g in outs {
        OutputAge(v, level, in0, in1, g, l, f);
      } else if l == level + 1 && f in outs {
        OutputAge(v, level, in0, in1, f, m, g);
      }
    }
  }

  /** Installing any split of entries of the inputs keeps the invariant, if the files staying at
      the output level lie aside of them. */
  lemma InstallKeepsSound(v: Version, level: nat, in0: seq<File>, in1: seq<File>, outs: seq<File>, next: nat)
    requires Sound(v) && NumbersUnique(v, next) && Selected(v, level, in0, in1)
    requires NumbersFit(v, level, in0, in1, outs, next)
    requires LevelSorted(outs) && FromInputs(outs, in0, in1) && AllAside(v[level + 1], in1, LevelContent(outs))
    ensures Sound(InstallInto(v, level, in0, in1, outs)) && NumbersUnique(InstallInto(v, level, in0, in1, outs), next)
  {
    var w := InstallInto(v, level, in0, in1, outs);
    InstallLists(v, level, in0, in1, outs, next);
    assert Replaced(v, w, level, in0, in1, outs) by {
      forall l, g | 0 <= l < NUM_LEVELS && g in w[l]
        ensures KeptOrAdded(v, level, in0, in1, outs, l, g)
      {
        InstallMember(v, level, in0, in1, outs, l, g);
      }
    }
    ReplacedNumbers(v, w, level, in0, in1, outs, next);
    ReplacedOrdered(v, w, level, in0, in1, outs);
  }

  lemma InstalledApart(fs: seq<File>, in1: seq<File>, outs: seq<File>, f: File, g: File)
    requires LevelSorted(outs) && AllAside(fs, in1, LevelContent(outs))
    requires f != g && (f in outs || g in outs)
    requires f in outs || (f in fs && f !in in1)
    requires g in outs || (g in fs && g !in in1)
    ensures EntirelyBefore(f, g) || EntirelyBefore(g, f)
  {
    if f in outs && g in outs {
      var i :| 0 <= i < |outs| && outs[i] == f;
      var j :| 0 <= j < |outs| && outs[j] == g;
      assert i < j || j < i;
    } else if f in outs {
      OutputAside(outs, f, g);
    } else {
      OutputAside(outs, g, f);
    }
  }

  lemma OutputAside(outs: seq<File>, o: File, g: File)
    requires o in outs && Aside(g, LevelContent(outs))
    ensures EntirelyBefore(o, g) || EntirelyBefore(g, o)
  {
    var first, last := o.entries[0], o.entries[|o.entries| - 1];
    assert first in o.Content() && last in o.Content();
    InLevel(outs, first);
    InLevel(outs, last);
  }
}
