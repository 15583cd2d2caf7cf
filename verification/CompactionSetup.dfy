/** Assembling the two input lists of a compaction, and the level a flushed table goes to. */
module CompactionSetup {
  import opened DbFormat
  import opened VersionFiles
  import opened VersionRead
  import opened CompactionInputs

  function TotalFileSize(fs: seq<File>): nat {
    if fs == [] then 0 else fs[0].size + TotalFileSize(fs[1..])
  }

  /** A first choice of files: range-closed at level 0, gap-free elsewhere. */
  ghost predicate Picked(fs: seq<File>, level: nat, sel: seq<File>) {
    && sel != [] && NoDuplicates(sel)
    && (forall f | f in sel :: f in fs)
    && if level == 0 then
         exists lo, hi :: RangeClosed(fs, lo, hi) && forall f :: f in sel <==> f in fs && Overlaps(f, lo, hi)
       else
         Convex(fs, sel)
  }

  /** Whatever stays at the level is newer, key by key, than what is taken. */
  ghost predicate LeavesOnlyNewer(fs: seq<File>, sel: seq<File>) {
    forall p, f, x, y | p in fs && p !in sel && f in sel && x in p.Content() && y in f.Content() && x.ik.user == y.ik.user ::
      x.ik.sequence > y.ik.sequence
  }

  ghost predicate EntirelyBefore(f: File, g: File) {
    Before(f.Largest(), g.Smallest())
  }

  /** No file of the output level reaches between the inputs. */
  ghost predicate Beside(fs: seq<File>, in0: seq<File>, in1: seq<File>) {
    forall g | g in fs && g !in in1 ::
      || (forall f | f in in0 || f in in1 :: EntirelyBefore(g, f))
      || (forall f | f in in0 || f in in1 :: EntirelyBefore(f, g))
  }

  /** Inputs taken from two levels, with nothing older left at the upper one. */
  ghost predicate Selected(v: Version, level: nat, in0: seq<File>, in1: seq<File>) {
    && level + 1 < NUM_LEVELS
    && in0 != [] && NoDuplicates(in0) && NoDuplicates(in1)
    && (forall f | f in in0 :: f in v[level])
    && (forall f | f in in1 :: f in v[level + 1])
    && LeavesOnlyNewer(v[level], in0)
  }

  ghost predicate ClosedInputs(v: Version, level: nat, in0: seq<File>, in1: seq<File>) {
    Selected(v, level, in0, in1) && Beside(v[level + 1], in0, in1)
  }

  /** A file lies before all of the entries, or after all of them. */
  ghost predicate Aside(g: File, es: set<Entry>) {
    || (forall x | x in es :: Before(g.Largest(), x.ik))
    || (forall x | x in es :: Before(x.ik, g.Smallest()))
  }

  /** So do all files of a level that are not replaced. */
  ghost predicate AllAside(fs: seq<File>, in1: seq<File>, es: set<Entry>) {
    forall g | g in fs && g !in in1 :: Aside(g, es)
  }

  lemma BesideIsAside(fs: seq<File>, in0: seq<File>, in1: seq<File>, es: set<Entry>)
    requires Beside(fs, in0, in1) && es <= LevelContent(in0) + LevelContent(in1)
    ensures AllAside(fs, in1, es)
  {
    forall g, x | g in fs && g !in in1 && x in es
      ensures (forall f | f in in0 || f in in1 :: EntirelyBefore(g, f)) ==> Before(g.Largest(), x.ik)
      ensures (forall f | f in in0 || f in in1 :: EntirelyBefore(f, g)) ==> Before(x.ik, g.Smallest())
    {
      InLevel(in0, x);
      InLevel(in1, x);
      var f :| (f in in0 || f in in1) && x in f.Content();
      FileRange(f, x);
    }
  }

  lemma {:induction false} OverlappingKeepsOrder(fs: seq<File>, lo: Bound, hi: Bound)
    ensures NoDuplicates(fs) ==> NoDuplicates(Overlapping(fs, lo, hi))
    ensures LevelSorted(fs) ==> LevelSorted(Overlapping(fs, lo, hi))
  {
    if fs != [] {
      var n := |fs| - 1;
      OverlappingKeepsOrder(fs[..n], lo, hi);
      var rest := Overlapping(fs[..n], lo, hi);
      forall g | g in rest ensures g in fs[..n] {}
      OneMoreFile(fs, rest);
      hide LevelSorted, NoDuplicates;
    }
  }

  /** The last file goes behind any selection of the earlier ones. */
  lemma OneMoreFile(fs: seq<File>, rest: seq<File>)
    requires fs != [] && forall g | g in rest :: g in fs[..|fs| - 1]
    ensures NoDuplicates(fs) ==> NoDuplicates(fs[..|fs| - 1])
    ensures LevelSorted(fs) ==> LevelSorted(fs[..|fs| - 1])
    ensures NoDuplicates(fs) && NoDuplicates(rest) ==> NoDuplicates(rest + [fs[|fs| - 1]])
    ensures LevelSorted(fs) && LevelSorted(rest) ==> LevelSorted(rest + [fs[|fs| - 1]])
  {
    var n := |fs| - 1;
    forall i | 0 <= i < |rest|
      ensures exists k :: 0 <= k < n && rest[i] == fs[k]
    {
      assert rest[i] in rest;
    }
  }

  lemma SortedNoDuplicates(fs: seq<File>)
    requires LevelSorted(fs)
    ensures NoDuplicates(fs)
  {
    forall i, j | 0 <= i < j < |fs|
      ensures fs[i] != fs[j]
    {
      SmallestOrder(fs, i, j);
    }
  }

  lemma LevelNoDuplicates(v: Version, level: nat)
    requires Ordered(v) && level < NUM_LEVELS
    ensures NoDuplicates(v[level])
  {
    if level > 0 {
      SortedNoDuplicates(v[level]);
    } else {
      forall i, j | 0 <= i < j < |v[0]|
        ensures v[0][i] != v[0][j]
      {
        assert v[0][i].number != v[0][j].number;
      }
    }
  }

  lemma OverlappingIsPicked(v: Version, level: nat, lo: Bound, hi: Bound)
    requires Ordered(v) && level < NUM_LEVELS && Overlapping(v[level], lo, hi) != []
    requires level == 0 ==> RangeClosed(v[level], lo, hi)
    ensures Picked(v[level], level, Overlapping(v[level], lo, hi))
  {
    LevelNoDuplicates(v, level);
    OverlappingKeepsOrder(v[level], lo, hi);
    if level > 0 {
      var fs, sel := v[level], Overlapping(v[level], lo, hi);
      forall i, j, k | 0 <= i < j < k < |fs| && fs[i] in sel && fs[k] in sel
        ensures fs[j] in sel
      {
        SmallestOrder(fs, i, j);
        SmallestOrder(fs, j, k);
      }
    }
  }

  lemma PrefixTakesEarlier(all: seq<File>, n: nat, f: File, g: File)
    requires LevelSorted(all) && n <= |all|
    requires f in all && g in all[..n] && f.Smallest().user <= g.Smallest().user && Before(f.Smallest(), g.Smallest())
    ensures f in all[..n]
  {
    var a :| 0 <= a < |all| && all[a] == f;
    var b :| 0 <= b < n && all[b] == g;
    if b < a {
      SmallestOrder(all, b, a);
    }
  }

  /** CompactRange keeps only a prefix of a large selection. */
  lemma PrefixIsPicked(v: Version, level: nat, lo: Bound, hi: Bound, n: nat)
    requires Ordered(v) && 1 <= level < NUM_LEVELS && 0 < n <= |Overlapping(v[level], lo, hi)|
    ensures Picked(v[level], level, Overlapping(v[level], lo, hi)[..n])
  {
    var fs, all := v[level], Overlapping(v[level], lo, hi);
    var sel := all[..n];
    OverlappingIsPicked(v, level, lo, hi);
    OverlappingKeepsOrder(fs, lo, hi);
    assert forall f | f in sel :: f in all;
    forall i, j, k | 0 <= i < j < k < |fs| && fs[i] in sel && fs[k] in sel
      ensures fs[j] in sel
    {
      SmallestOrder(fs, j, k);
      assert fs[j] in all;
      PrefixTakesEarlier(all, n, fs[j], fs[k]);
    }
  }

  /** Nothing sticks out of a closed level-0 selection. */
  lemma ClosedHasNoBoundary(fs: seq<File>, sel: seq<File>, largest: InternalKey, f: File)
    requires Picked(fs, 0, sel) && IsLargest(sel, largest) && f in fs
    ensures !IsBoundary(f, largest)
  {
    var lo, hi :| RangeClosed(fs, lo, hi) && forall g :: g in sel <==> g in fs && Overlaps(g, lo, hi);
    var m :| m in sel && m.Largest() == largest;
    if IsBoundary(f, largest) {
      FileRange(m, m.entries[0]);
      FileRange(f, f.entries[0]);
      assert Overlaps(f, lo, hi);
      CompareIsTotalOrder(f.Smallest(), f.Largest(), largest);
      CompareIsTotalOrder(largest, f.Smallest(), f.Largest());
    }
  }

  lemma ClosedLeavesOnlyNewer(fs: seq<File>, sel: seq<File>)
    requires Picked(fs, 0, sel)
    ensures LeavesOnlyNewer(fs, sel)
  {
    var lo, hi :| RangeClosed(fs, lo, hi) && forall g :: g in sel <==> g in fs && Overlaps(g, lo, hi);
    forall p, f, x, y | p in fs && p !in sel && f in sel && x in p.Content() && y in f.Content()
      ensures x.ik.user != y.ik.user
    {
      FileRange(p, x);
      FileRange(f, y);
    }
  }

  /** A file left behind that shares a user key with a taken one lies before it. */
  lemma LeftBehindIsEarlier(fs: seq<File>, sel: seq<File>, largest: InternalKey, m: nat, i: nat, j: nat, u: UserKey)
    requires LevelSorted(fs) && Convex(fs, sel) && i < |fs| && j < |fs| && m < |fs|
    requires fs[m] in sel && fs[m].Largest() == largest && j <= m
    requires !IsBoundary(fs[i], largest)
    requires fs[i] !in sel && fs[j] in sel && Covers(fs[i], u) && Covers(fs[j], u)
    ensures i < j
  {
    if m < i {
      SmallestOrder(fs, j, m);
      assert Before(fs[m].Largest(), fs[i].Smallest());
      CompareIsTotalOrder(largest, fs[i].Smallest(), largest);
    }
  }

  lemma ConvexLeavesOnlyNewer(fs: seq<File>, sel: seq<File>, largest: InternalKey)
    requires LevelSorted(fs) && Convex(fs, sel) && IsLargest(sel, largest)
    requires forall f | f in sel :: f in fs
    requires forall f | f in fs :: !IsBoundary(f, largest)
    ensures LeavesOnlyNewer(fs, sel)
  {
    var m :| 0 <= m < |fs| && fs[m] in sel && fs[m].Largest() == largest;
    forall p, f, x, y | p in fs && p !in sel && f in sel && x in p.Content() && y in f.Content() && x.ik.user == y.ik.user
      ensures x.ik.sequence > y.ik.sequence
    {
      var i :| 0 <= i < |fs| && fs[i] == p;
      var j :| 0 <= j < |fs| && fs[j] == f;
      FileRange(p, x);
      FileRange(f, y);
      LargestIsLast(fs, j, m, largest);
      LeftBehindIsEarlier(fs, sel, largest, m, i, j, x.ik.user);
      AcrossFiles(fs, i, j, x, y);
    }
  }

  lemma LargestIsLast(fs: seq<File>, j: nat, m: nat, largest: InternalKey)
    requires LevelSorted(fs) && j < |fs| && m < |fs|
    requires fs[m].Largest() == largest && AtOrBefore(fs[j].Largest(), largest)
    ensures j <= m
  {
    if m < j {
      LargestOrder(fs);
    }
  }

  /** The level's own inputs: AddBoundaryInputs completes any first choice. */
  method CloseLevelInputs(v: Version, level: nat, sel: seq<File>) returns (r: seq<File>)
    requires Ordered(v) && level < NUM_LEVELS && Picked(v[level], level, sel)
    ensures sel <= r && NoDuplicates(r) && forall f | f in r :: f in v[level]
    ensures LeavesOnlyNewer(v[level], r)
  {
    var largest;
    r, largest := AddBoundaryInputs(v[level], sel);
    if level == 0 {
      if r != sel {
        ghost var f, l :| f in v[0] && IsLargest(sel, l) && IsBoundary(f, l);
        ClosedHasNoBoundary(v[0], sel, l, f);
      }
      ClosedLeavesOnlyNewer(v[0], sel);
    } else {
      ConvexLeavesOnlyNewer(v[level], r, largest);
    }
  }

  lemma OverlapIsBeside(v: Version, level: nat, in0: seq<File>, smallest: InternalKey, largest: InternalKey)
    requires Ordered(v) && level + 1 < NUM_LEVELS && IsRange(in0, smallest, largest)
    ensures Beside(v[level + 1], in0, Overlapping(v[level + 1], At(smallest.user), At(largest.user)))
    ensures NoDuplicates(Overlapping(v[level + 1], At(smallest.user), At(largest.user)))
  {
    var fs := v[level + 1];
    var in1 := Overlapping(fs, At(smallest.user), At(largest.user));
    LevelNoDuplicates(v, level + 1);
    OverlappingKeepsOrder(fs, At(smallest.user), At(largest.user));
    forall g, f | g in fs && g !in in1 && (f in in0 || f in in1)
      ensures g.Largest().user < smallest.user ==> EntirelyBefore(g, f)
      ensures g.Smallest().user > largest.user ==> EntirelyBefore(f, g)
    {
      if f in in0 {
        RangeUsers(in0, smallest, largest, f);
      } else {
        SideBySide(fs, f, g);
        FileRange(g, g.entries[0]);
      }
    }
  }

  lemma SideBySide(fs: seq<File>, f: File, g: File)
    requires LevelSorted(fs) && f in fs && g in fs && f != g
    ensures EntirelyBefore(f, g) || EntirelyBefore(g, f)
    ensures EntirelyBefore(f, g) ==> f.Smallest().user <= g.Largest().user
  {
    var i :| 0 <= i < |fs| && fs[i] == g;
    var j :| 0 <= j < |fs| && fs[j] == f;
    if i < j { SmallestOrder(fs, i, j); } else { SmallestOrder(fs, j, i); }
    FileRange(f, f.entries[0]);
    FileRange(g, g.entries[0]);
  }

  /** A wider range with no more overlapping files has the same overlapping files. */
  lemma {:induction false} SameCountSameFiles(fs: seq<File>, lo: Bound, hi: Bound, a: Bound, b: Bound)
    requires Wider(a, b, lo, hi)
    ensures |Overlapping(fs, lo, hi)| <= |Overlapping(fs, a, b)|
    ensures |Overlapping(fs, lo, hi)| == |Overlapping(fs, a, b)| ==> Overlapping(fs, lo, hi) == Overlapping(fs, a, b)
  {
    if fs != [] {
      SameCountSameFiles(fs[..|fs| - 1], lo, hi, a, b);
    }
  }

  lemma GrownRange(in0: seq<File>, s: InternalKey, l: InternalKey, grown: seq<File>, s': InternalKey, l': InternalKey)
    requires IsRange(in0, s, l) && IsRange(grown, s', l')
    requires forall f | f in in0 :: f in grown
    ensures Wider(At(s'.user), At(l'.user), At(s.user), At(l.user))
  {
    var f :| f in in0 && f.Smallest() == s;
    var g :| g in in0 && g.Largest() == l;
    RangeUsers(grown, s', l', f);
    RangeUsers(grown, s', l', g);
  }

  /** VersionSet::SetupOtherInputs. Growing the level's inputs is accepted only when the
      number of level + 1 files stays the same, and then those files are the same. */
  method SetupOtherInputs(v: Version, level: nat, picked: seq<File>, sizeLimit: nat)
    returns (in0: seq<File>, in1: seq<File>, grandparents: seq<File>)
    requires Ordered(v) && level + 1 < NUM_LEVELS && Picked(v[level], level, picked)
    ensures ClosedInputs(v, level, in0, in1)
    ensures forall f | f in picked :: f in in0
    ensures exists s, l :: IsRange(in0, s, l) && in1 == Overlapping(v[level + 1], At(s.user), At(l.user))
    ensures level + 2 < NUM_LEVELS ==>
      exists s, l :: IsRange(in0 + in1, s, l) && grandparents == Overlapping(v[level + 2], At(s.user), At(l.user))
  {
    in0 := CloseLevelInputs(v, level, picked);
    var smallest, largest := GetRange(in0);
    var lo, hi;
    in1, lo, hi := GetOverlappingInputs(level + 1, v[level + 1], At(smallest.user), At(largest.user));
    OverlapIsBeside(v, level, in0, smallest, largest);
    var allStart, allLimit := GetRange(in0 + in1);
    if in1 != [] {
      var expanded0, newStart, newLimit := ExpandInputs(v, level, in0, in1, allStart, allLimit);
      if |expanded0| > |in0| && TotalFileSize(in1) + TotalFileSize(expanded0) < sizeLimit {
        var expanded1;
        expanded1, lo, hi := GetOverlappingInputs(level + 1, v[level + 1], At(newStart.user), At(newLimit.user));
        if |expanded1| == |in1| {
          GrownRange(in0, smallest, largest, expanded0, newStart, newLimit);
          SameCountSameFiles(v[level + 1], At(smallest.user), At(largest.user), At(newStart.user), At(newLimit.user));
          assert expanded1 == in1;
          OverlapIsBeside(v, level, expanded0, newStart, newLimit);
          smallest, largest := newStart, newLimit;
          in0, in1 := expanded0, expanded1;
          allStart, allLimit := GetRange(in0 + in1);
        }
      }
    }
    grandparents := [];
    if level + 2 < NUM_LEVELS {
      grandparents, lo, hi := GetOverlappingInputs(level + 2, v[level + 2], At(allStart.user), At(allLimit.user));
    }
  }

  /** The larger level selection spanning the whole range of both input lists. */
  method ExpandInputs(v: Version, level: nat, in0: seq<File>, in1: seq<File>, allStart: InternalKey, allLimit: InternalKey)
    returns (expanded0: seq<File>, newStart: InternalKey, newLimit: InternalKey)
    requires Ordered(v) && level + 1 < NUM_LEVELS && in0 != []
    requires forall f | f in in0 :: f in v[level]
    requires IsRange(in0 + in1, allStart, allLimit)
    ensures NoDuplicates(expanded0) && LeavesOnlyNewer(v[level], expanded0) && IsRange(expanded0, newStart, newLimit)
    ensures forall f | f in expanded0 :: f in v[level]
    ensures forall f | f in in0 :: f in expanded0
  {
    var overlap, lo, hi := GetOverlappingInputs(level, v[level], At(allStart.user), At(allLimit.user));
    forall f | f in in0
      ensures f in overlap
    {
      assert f in in0 + in1;
      RangeUsers(in0 + in1, allStart, allLimit, f);
    }
    assert in0[0] in overlap;
    OverlappingIsPicked(v, level, lo, hi);
    expanded0 := CloseLevelInputs(v, level, overlap);
    assert forall f | f in overlap :: f in expanded0;
    newStart, newLimit := GetRange(expanded0);
  }

  /** Compaction::IsTrivialMove: one file, nothing under it, not too much two levels down. */
  predicate IsTrivialMove(in0: seq<File>, in1: seq<File>, grandparents: seq<File>, maxOverlap: nat) {
    |in0| == 1 && |in1| == 0 && TotalFileSize(grandparents) <= maxOverlap
  }

  /** VersionSet::PickCompaction once the level and the first file are chosen. */
  method PickCompaction(v: Version, level: nat, index: nat, sizeLimit: nat)
    returns (in0: seq<File>, in1: seq<File>, grandparents: seq<File>)
    requires Ordered(v) && level + 1 < NUM_LEVELS && index < |v[level]|
    ensures ClosedInputs(v, level, in0, in1) && v[level][index] in in0
  {
    var f := v[level][index];
    var picked := [f];
    if level == 0 {
      var smallest, largest := GetRange(picked);
      var lo, hi;
      picked, lo, hi := GetOverlappingInputs(0, v[0], At(smallest.user), At(largest.user));
      FileRange(f, f.entries[0]);
      assert f in [f];
      RangeUsers([f], smallest, largest, f);
      assert f in picked;
      OverlappingIsPicked(v, 0, lo, hi);
    } else {
      LevelNoDuplicates(v, level);
    }
    in0, in1, grandparents := SetupOtherInputs(v, level, picked, sizeLimit);
  }

  /** VersionSet::CompactRange: a manual range, cut short above level 0. */
  method CompactRange(v: Version, level: nat, begin: Bound, end: Bound, maxFileSize: nat, sizeLimit: nat)
    returns (found: bool, in0: seq<File>, in1: seq<File>, grandparents: seq<File>)
    requires Ordered(v) && level + 1 < NUM_LEVELS
    ensures found ==> ClosedInputs(v, level, in0, in1)
    ensures !found ==> forall f | f in v[level] :: !Overlaps(f, begin, end)
  {
    in0, in1, grandparents := [], [], [];
    var inputs, lo, hi := GetOverlappingInputs(level, v[level], begin, end);
    if inputs == [] {
      forall f | f in v[level]
        ensures !Overlaps(f, begin, end)
      {
        assert f in inputs <==> Overlaps(f, lo, hi);
      }
      return false, [], [], [];
    }
    OverlappingIsPicked(v, level, lo, hi);
    if level > 0 {
      var total := 0;
      var all := inputs;
      for i := 0 to |all|
        invariant inputs == all
      {
        total := total + all[i].size;
        if total >= maxFileSize {
          inputs := all[..i + 1];
          PrefixIsPicked(v, level, lo, hi, i + 1);
          break;
        }
      }
    }
    found := true;
    in0, in1, grandparents := SetupOtherInputs(v, level, inputs, sizeLimit);
  }

  /** No file of the level touches the user-key range. */
  ghost predicate Apart(fs: seq<File>, lo: UserKey, hi: UserKey) {
    forall f | f in fs :: !Overlaps(f, At(lo), At(hi))
  }

  /** Version::PickLevelForMemTableOutput: as deep as level 2, but never under an overlap. */
  method PickLevelForMemTableOutput(v: Version, lo: UserKey, hi: UserKey, maxOverlap: nat) returns (level: nat)
    requires Ordered(v)
    ensures level <= MAX_MEM_COMPACT_LEVEL
    ensures level > 0 ==> forall l | 0 <= l <= level :: Apart(v[l], lo, hi)
  {
    level := 0;
    var overlap := SomeFileOverlapsRange(false, v[0], At(lo), At(hi));
    if !overlap {
      while level < MAX_MEM_COMPACT_LEVEL
        invariant level <= MAX_MEM_COMPACT_LEVEL
        invariant forall l | 0 <= l <= level :: Apart(v[l], lo, hi)
      {
        overlap := SomeFileOverlapsRange(true, v[level + 1], At(lo), At(hi));
        if overlap {
          break;
        }
        if level + 2 < NUM_LEVELS {
          var overlaps, _, _ := GetOverlappingInputs(level + 2, v[level + 2], At(lo), At(hi));
          if TotalFileSize(overlaps) > maxOverlap {
            break;
          }
        }
        level := level + 1;
      }
    }
  }
}
