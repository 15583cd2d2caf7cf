/** The level-by-level lookup of one version, and the invariant that makes it exact. */
module VersionRead {
  import opened DbFormat
  import opened MultiVersion
  import opened VersionFiles

  /** All entries held by a list of levels. */
  ghost function Content(v: seq<seq<File>>): set<Entry> {
    set l, e | 0 <= l < |v| && e in LevelContent(v[l]) :: e
  }

  ghost predicate Level0Ordered(fs: seq<File>) {
    forall i, j | 0 <= i < |fs| && 0 <= j < |fs| && i != j ::
      && fs[i].number != fs[j].number
      && (fs[i].number > fs[j].number ==> NewerThan(fs[i].Content(), fs[j].Content()))
  }

  /** What every installed version keeps. */
  ghost predicate Ordered(v: Version) {
    && Level0Ordered(v[0])
    && (forall l | 1 <= l < NUM_LEVELS :: LevelSorted(v[l]))
    && (forall l, m | 0 <= l < m < NUM_LEVELS :: NewerThan(LevelContent(v[l]), LevelContent(v[m])))
  }

  predicate NewestFirst(fs: seq<File>) {
    forall i, j | 0 <= i < j < |fs| :: fs[i].number >= fs[j].number
  }

  function InsertByNumber(fs: seq<File>, f: File): (r: seq<File>)
    requires NewestFirst(fs)
    ensures NewestFirst(r) && forall x :: x in r <==> x == f || x in fs
  {
    if fs == [] || f.number >= fs[0].number then [f] + fs
    else
      assert forall x :: x in fs <==> x == fs[0] || x in fs[1..];
      var rest := InsertByNumber(fs[1..], f);
      assert forall x | x in fs[1..] :: x.number <= fs[0].number;
      assert forall x | x in rest :: x.number <= fs[0].number;
      assert forall j | 0 <= j < |rest| :: rest[j] in rest;
      [fs[0]] + rest
  }

  /** std::sort by descending file number. */
  function SortNewestFirst(fs: seq<File>): (r: seq<File>)
    ensures NewestFirst(r) && forall x :: x in r <==> x in fs
  {
    if fs == [] then []
    else
      assert forall x :: x in fs <==> x == fs[0] || x in fs[1..];
      InsertByNumber(SortNewestFirst(fs[1..]), fs[0])
  }

  lemma ContentSplit(v: seq<seq<File>>, l: nat)
    requires l < |v|
    ensures Content(v) == Content(v[..l]) + (LevelContent(v[l]) + Content(v[l + 1..]))
  {
    var rest := v[l + 1..];
    forall e | e in Content(v)
      ensures e in Content(v[..l]) + (LevelContent(v[l]) + Content(rest))
    {
      var m :| 0 <= m < |v| && e in LevelContent(v[m]);
      if m < l {
        assert e in LevelContent(v[..l][m]);
      } else if m > l {
        assert e in LevelContent(rest[m - l - 1]);
      }
    }
    forall e | e in Content(v[..l])
      ensures e in Content(v)
    {
      var m :| 0 <= m < l && e in LevelContent(v[..l][m]);
      assert e in LevelContent(v[m]);
    }
    forall e | e in Content(rest)
      ensures e in Content(v)
    {
      var m :| 0 <= m < |rest| && e in LevelContent(rest[m]);
      assert e in LevelContent(v[m + l + 1]);
    }
  }

  lemma LevelDistinct(v: Version, l: nat)
    requires Ordered(v) && l < NUM_LEVELS
    ensures Distinct(LevelContent(v[l]))
  {
    forall a, b | a in LevelContent(v[l]) && b in LevelContent(v[l])
                  && a.ik.user == b.ik.user && a.ik.sequence == b.ik.sequence
      ensures a == b
    {
      var i :| 0 <= i < |v[l]| && a in v[l][i].entries;
      var j :| 0 <= j < |v[l]| && b in v[l][j].entries;
      if i == j {
        SortedDistinct(v[l][i].entries);
        assert a in v[l][i].Content() && b in v[l][i].Content();
      } else {
        OtherFile(v, l, i, j, a, b);
      }
    }
  }

  lemma OtherFile(v: Version, l: nat, i: nat, j: nat, a: Entry, b: Entry)
    requires Ordered(v) && l < NUM_LEVELS && i < |v[l]| && j < |v[l]| && i != j
    requires a in v[l][i].entries && b in v[l][j].entries
    ensures a.ik.user == b.ik.user ==> a.ik.sequence != b.ik.sequence
  {
    if l == 0 {
      assert a in v[0][i].Content() && b in v[0][j].Content();
    } else if i < j {
      AcrossFiles(v[l], i, j, a, b);
    } else {
      AcrossFiles(v[l], j, i, b, a);
    }
  }

  lemma AcrossFiles(fs: seq<File>, i: nat, j: nat, a: Entry, b: Entry)
    requires LevelSorted(fs) && i < j < |fs|
    requires a in fs[i].entries && b in fs[j].entries
    ensures Before(a.ik, b.ik)
  {
    FileRange(fs[i], a);
    FileRange(fs[j], b);
  }

  /** A prefix of the levels is newer than what lies below it, and the whole is one
      multi-version map. */
  lemma {:induction false} LevelsLayer(v: Version, l: nat)
    requires Ordered(v) && l <= NUM_LEVELS
    ensures Distinct(Content(v[l..]))
    ensures forall m | 0 <= m < l :: NewerThan(LevelContent(v[m]), Content(v[l..]))
    decreases NUM_LEVELS - l
  {
    if l < NUM_LEVELS {
      LevelsLayer(v, l + 1);
      LevelDistinct(v, l);
      ContentSplit(v[l..], 0);
      assert v[l..][..0] == [] && v[l..][1..] == v[l + 1..] && v[l..][0] == v[l];
      assert Content(v[l..]) == LevelContent(v[l]) + Content(v[l + 1..]);
    }
  }

  predicate Covers(f: File, u: UserKey) {
    f.Smallest().user <= u <= f.Largest().user
  }

  function Covering(fs: seq<File>, u: UserKey): (r: seq<File>)
    ensures forall f :: f in r <==> f in fs && Covers(f, u)
  {
    if fs == [] then []
    else
      assert fs == fs[..|fs| - 1] + [fs[|fs| - 1]];
      Covering(fs[..|fs| - 1], u) + (if Covers(fs[|fs| - 1], u) then [fs[|fs| - 1]] else [])
  }

  function FirstAnswer(files: seq<File>, u: UserKey, q: nat): Lookup {
    if files == [] then Missing else SeekGet(files[0].entries, u, q).Or(FirstAnswer(files[1..], u, q))
  }

  /** Level 0: the files whose range covers the key, newest first, until one answers. */
  function Level0Get(fs: seq<File>, u: UserKey, q: nat): Lookup {
    FirstAnswer(SortNewestFirst(Covering(fs, u)), u, q)
  }

  method SearchLevel0(fs: seq<File>, u: UserKey, q: nat) returns (r: Lookup)
    ensures r == Level0Get(fs, u, q)
  {
    var tmp: seq<File> := [];
    for i := 0 to |fs|
      invariant tmp == Covering(fs[..i], u)
    {
      assert fs[..i + 1][..i] == fs[..i];
      if Covers(fs[i], u) {
        tmp := tmp + [fs[i]];
      }
    }
    assert fs[..|fs|] == fs;
    var files := SortNewestFirst(tmp);
    for i := 0 to |files|
      invariant FirstAnswer(files, u, q) == FirstAnswer(files[i..], u, q)
    {
      assert files[i..][1..] == files[i + 1..];
      r := SeekGet(files[i].entries, u, q);
      if r != Missing {
        return;
      }
    }
    r := Missing;
  }

  lemma {:induction false} FirstAnswerIs(files: seq<File>, u: UserKey, q: nat)
    ensures FirstAnswer(files, u, q) == Missing ==> forall k | 0 <= k < |files| :: Newest(files[k].Content(), u, q) == Missing
    ensures FirstAnswer(files, u, q) != Missing ==> exists i ::
      && 0 <= i < |files| && FirstAnswer(files, u, q) == Newest(files[i].Content(), u, q) != Missing
      && forall k | 0 <= k < i :: Newest(files[k].Content(), u, q) == Missing
  {
    if files != [] && SeekGet(files[0].entries, u, q) == Missing {
      var rest := files[1..];
      FirstAnswerIs(rest, u, q);
      if FirstAnswer(rest, u, q) != Missing {
        var i :| && 0 <= i < |rest| && FirstAnswer(rest, u, q) == Newest(rest[i].Content(), u, q) != Missing
                 && forall k | 0 <= k < i :: Newest(rest[k].Content(), u, q) == Missing;
        forall k | 0 <= k < i + 1 ensures Newest(files[k].Content(), u, q) == Missing {
          assert k > 0 ==> files[k] == rest[k - 1];
        }
        assert files[i + 1] == rest[i];
      } else {
        forall k | 0 <= k < |files| ensures Newest(files[k].Content(), u, q) == Missing {
          assert k > 0 ==> files[k] == rest[k - 1];
        }
      }
    }
  }

  lemma Level0IsNewest(v: Version, u: UserKey, q: nat)
    requires Ordered(v)
    ensures Level0Get(v[0], u, q) == Newest(LevelContent(v[0]), u, q)
  {
    var files := SortNewestFirst(Covering(v[0], u));
    FirstAnswerIs(files, u, q);
    if Level0Get(v[0], u, q) != Missing {
      var i :| && 0 <= i < |files| && FirstAnswer(files, u, q) == Newest(files[i].Content(), u, q) != Missing
               && forall k | 0 <= k < i :: Newest(files[k].Content(), u, q) == Missing;
      Level0Hit(v, files, i, u, q);
    } else {
      forall e | e in LevelContent(v[0])
        ensures !VisibleAt(e, u, q)
      {
        Level0Entry(v, files, e, u, q);
      }
      NewestMissing(LevelContent(v[0]), u, q);
    }
  }

  /** An entry visible at level 0 lies in one of the files that are searched. */
  lemma Level0Entry(v: Version, files: seq<File>, e: Entry, u: UserKey, q: nat)
    requires e in LevelContent(v[0])
    requires forall f :: f in files <==> f in v[0] && Covers(f, u)
    ensures VisibleAt(e, u, q) ==> exists k :: 0 <= k < |files| && e in files[k].Content() && Newest(files[k].Content(), u, q) != Missing
  {
    InLevel(v[0], e);
    var f :| f in v[0] && e in f.Content();
    if VisibleAt(e, u, q) {
      FileRange(f, e);
      var k :| 0 <= k < |files| && files[k] == f;
      NewestMissing(f.Content(), u, q);
    }
  }

  lemma Level0Hit(v: Version, files: seq<File>, i: nat, u: UserKey, q: nat)
    requires Ordered(v) && NewestFirst(files) && i < |files|
    requires forall f :: f in files <==> f in v[0] && Covers(f, u)
    requires forall k | 0 <= k < i :: Newest(files[k].Content(), u, q) == Missing
    requires Newest(files[i].Content(), u, q) != Missing
    ensures Newest(LevelContent(v[0]), u, q) == Newest(files[i].Content(), u, q)
  {
    var hit := files[i];
    assert hit in files;
    NewestMissing(hit.Content(), u, q);
    var e0 :| e0 in hit.Content() && VisibleAt(e0, u, q);
    var n := NewestExists(hit.Content(), u, q, e0);
    SortedDistinct(hit.entries);
    NewestIs(hit.Content(), u, q, n);
    InLevel(v[0], n);
    forall e | e in LevelContent(v[0]) && VisibleAt(e, u, q)
      ensures e.ik.sequence <= n.ik.sequence
    {
      Level0Entry(v, files, e, u, q);
      var k :| 0 <= k < |files| && e in files[k].Content() && Newest(files[k].Content(), u, q) != Missing;
      assert k >= i;
      assert files[k] in files;
      if files[k] != hit {
        Level0Older(v, hit, files[k], n, e);
      }
    }
    LevelDistinct(v, 0);
    assert IsNewest(LevelContent(v[0]), u, q, n);
    NewestIs(LevelContent(v[0]), u, q, n);
  }

  lemma Level0Older(v: Version, f: File, g: File, a: Entry, b: Entry)
    requires Ordered(v) && f in v[0] && g in v[0] && f != g && f.number >= g.number
    requires a in f.Content() && b in g.Content() && a.ik.user == b.ik.user
    ensures a.ik.sequence > b.ik.sequence
  {
    var i :| 0 <= i < |v[0]| && v[0][i] == f;
    var j :| 0 <= j < |v[0]| && v[0][j] == g;
  }

  /** A deeper level: one binary search, then at most one file. */
  function LevelGet(files: seq<File>, u: UserKey, q: nat): Lookup {
    var index := SearchRange(files, SeekKey(u, q), 0, |files|);
    if index == |files| || u < files[index].Smallest().user then Missing else SeekGet(files[index].entries, u, q)
  }

  method SearchSortedLevel(files: seq<File>, u: UserKey, q: nat) returns (r: Lookup)
    ensures r == LevelGet(files, u, q)
  {
    var index := FindFile(files, SeekKey(u, q));
    if index >= |files| {
      return Missing;
    }
    var f := files[index];
    if u < f.Smallest().user {
      return Missing;
    }
    r := SeekGet(f.entries, u, q);
  }

  lemma LevelIsNewest(v: Version, level: nat, u: UserKey, q: nat)
    requires Ordered(v) && 1 <= level < NUM_LEVELS
    ensures LevelGet(v[level], u, q) == Newest(LevelContent(v[level]), u, q)
  {
    var files := v[level];
    var index := SearchRange(files, SeekKey(u, q), 0, |files|);
    SearchStops(files, SeekKey(u, q), 0, |files|);
    forall e | e in LevelContent(files) ensures SplitBySearch(files, index, e, u, q) {
      EntryBelow(files, index, e, u, q);
    }
    if index == |files| {
      SeekAllBefore(LevelContent(files), u, q);
    } else {
      LevelDistinct(v, level);
      FileDecides(files, index, u, q);
    }
  }

  /** The file a search stops at decides the lookup over the whole level. */
  lemma FileDecides(files: seq<File>, index: nat, u: UserKey, q: nat)
    requires Distinct(LevelContent(files)) && index < |files| && !Less(files[index].Largest(), SeekKey(u, q))
    requires forall e | e in LevelContent(files) :: SplitBySearch(files, index, e, u, q)
    ensures Newest(LevelContent(files), u, q)
         == if u < files[index].Smallest().user then Missing else SeekGet(files[index].entries, u, q)
  {
    var f := files[index];
    var k := SeekIndex(f.entries, SeekKey(u, q));
    assert !Less(f.entries[|f.entries| - 1].ik, SeekKey(u, q));
    forall e | e in LevelContent(files)
      ensures Less(e.ik, SeekKey(u, q)) || e == f.entries[k] || Before(f.entries[k].ik, e.ik)
    {
      assert SplitBySearch(files, index, e, u, q);
    }
    assert f.entries[k] in f.Content() && f in files;
    InLevel(files, f.entries[k]);
    SeekDecides(LevelContent(files), u, q, f.entries[k]);
    SortedDistinct(f.entries);
    SeekDecides(f.Content(), u, q, f.entries[k]);
    if u < f.Smallest().user {
      SeekKeySplits(f.Smallest(), u, q);
      assert k == 0;
    }
  }

  ghost predicate SplitBySearch(files: seq<File>, index: nat, e: Entry, u: UserKey, q: nat)
    requires index <= |files|
  {
    Less(e.ik, SeekKey(u, q)) || (index < |files| &&
      (e in files[index].entries || forall x | x in files[index].entries :: Before(x.ik, e.ik)))
  }

  /** Where an entry of a sorted level lies relative to the file a search stops at. */
  lemma EntryBelow(files: seq<File>, index: nat, e: Entry, u: UserKey, q: nat)
    requires LevelSorted(files) && index <= |files|
    requires forall i | 0 <= i < index :: Less(files[i].Largest(), SeekKey(u, q))
    requires e in LevelContent(files)
    ensures SplitBySearch(files, index, e, u, q)
  {
    var i :| 0 <= i < |files| && e in files[i].entries;
    if i < index {
      FileRange(files[i], e);
      SeekKeySplits(files[i].Largest(), u, q);
      SeekKeySplits(e.ik, u, q);
    } else if i > index {
      forall x | x in files[index].entries
        ensures Before(x.ik, e.ik)
      {
        AcrossFiles(files, index, i, x, e);
      }
    }
  }

  lemma LevelStep(v: Version, level: nat, u: UserKey, q: nat)
    requires Ordered(v) && level < NUM_LEVELS
    ensures Newest(Content(v[level..]), u, q)
         == Newest(LevelContent(v[level]), u, q).Or(Newest(Content(v[level + 1..]), u, q))
  {
    LevelsLayer(v, level + 1);
    LevelDistinct(v, level);
    ContentSplit(v[level..], 0);
    assert v[level..][..0] == [] && v[level..][1..] == v[level + 1..] && v[level..][0] == v[level];
    assert Content(v[level..]) == LevelContent(v[level]) + Content(v[level + 1..]);
    NewestOfLayers(LevelContent(v[level]), Content(v[level + 1..]), u, q);
  }

  /** The levels from the shallowest down, stopping at the first answer. */
  function Staged(v: Version, level: nat, u: UserKey, q: nat): Lookup
    requires level <= NUM_LEVELS
    decreases NUM_LEVELS - level
  {
    if level == NUM_LEVELS then Missing
    else (if level == 0 then Level0Get(v[0], u, q) else LevelGet(v[level], u, q)).Or(Staged(v, level + 1, u, q))
  }

  /** In an ordered version the staged lookup is the flat one. */
  lemma {:induction false} StagedIsNewest(v: Version, level: nat, u: UserKey, q: nat)
    requires Ordered(v) && level <= NUM_LEVELS
    ensures Staged(v, level, u, q) == Newest(Content(v[level..]), u, q)
    decreases NUM_LEVELS - level
  {
    hide Level0Get, LevelGet, Ordered;
    if level < NUM_LEVELS {
      LevelStep(v, level, u, q);
      StagedIsNewest(v, level + 1, u, q);
      if level == 0 {
        Level0IsNewest(v, u, q);
      } else {
        LevelIsNewest(v, level, u, q);
      }
    } else {
      NewestMissing(Content(v[NUM_LEVELS..]), u, q);
    }
  }

  lemma VersionIsNewest(v: Version, u: UserKey, q: nat)
    ensures Ordered(v) ==> Staged(v, 0, u, q) == Newest(Content(v), u, q)
  {
    if Ordered(v) {
      StagedIsNewest(v, 0, u, q);
      assert v[0..] == v;
    }
  }

  /** Version::Get: the staged lookup of any version, and in an ordered one the newest entry
      at or below the sequence number over all its files. */
  method VersionGet(v: Version, u: UserKey, q: nat) returns (r: Answer)
    ensures r == Staged(v, 0, u, q).Answer()
    ensures Ordered(v) ==> r == Newest(Content(v), u, q).Answer()
  {
    hide Ordered, Level0Get, LevelGet, Newest, Content;
    VersionIsNewest(v, u, q);
    for level := 0 to NUM_LEVELS
      invariant Staged(v, 0, u, q) == Staged(v, level, u, q)
    {
      var state: Lookup;
      if level == 0 {
        state := SearchLevel0(v[0], u, q);
      } else {
        state := SearchSortedLevel(v[level], u, q);
      }
      if state != Missing {
        return state.Answer();
      }
    }
    return NotFound;
  }
}
