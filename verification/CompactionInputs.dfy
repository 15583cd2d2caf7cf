/** Choosing the files of a compaction so that no entry is left behind above its elders. */
module CompactionInputs {
  import opened Basics
  import opened DbFormat
  import opened VersionFiles

  function Overlapping(fs: seq<File>, lo: Bound, hi: Bound): (r: seq<File>)
    ensures forall f :: f in r <==> f in fs && Overlaps(f, lo, hi)
  {
    if fs == [] then []
    else
      var n := |fs| - 1;
      assert forall f :: f in fs <==> f in fs[..n] || f == fs[n];
      Overlapping(fs[..n], lo, hi) + if Overlaps(fs[n], lo, hi) then [fs[n]] else []
  }

  predicate Within(f: File, lo: Bound, hi: Bound) {
    && (lo.At? ==> lo.key <= f.Smallest().user)
    && (hi.At? ==> f.Largest().user <= hi.key)
  }

  /** Every file that touches the range lies inside it. */
  ghost predicate RangeClosed(fs: seq<File>, lo: Bound, hi: Bound) {
    forall f | f in fs && Overlaps(f, lo, hi) :: Within(f, lo, hi)
  }

  ghost predicate Wider(a: Bound, b: Bound, lo: Bound, hi: Bound) {
    && (a.Unbounded? || (lo.At? && a.key <= lo.key))
    && (b.Unbounded? || (hi.At? && hi.key <= b.key))
  }

  ghost function StartingBelow(fs: seq<File>, lo: Bound): set<File> {
    set f | f in fs && lo.At? && f.Smallest().user < lo.key
  }

  ghost function EndingAbove(fs: seq<File>, hi: Bound): set<File> {
    set f | f in fs && hi.At? && hi.key < f.Largest().user
  }

  /** No range around [begin, end] that is closed is narrower than [lo, hi]. */
  ghost predicate LeastAround(fs: seq<File>, begin: Bound, end: Bound, lo: Bound, hi: Bound) {
    && Wider(lo, hi, begin, end)
    && forall a, b | Wider(a, b, begin, end) && RangeClosed(fs, a, b) :: Wider(a, b, lo, hi)
  }

  lemma WidenStart(fs: seq<File>, begin: Bound, end: Bound, lo: Bound, hi: Bound, f: File)
    requires LeastAround(fs, begin, end, lo, hi) && f in fs && Overlaps(f, lo, hi)
    requires lo.At? && f.Smallest().user < lo.key
    ensures LeastAround(fs, begin, end, At(f.Smallest().user), hi)
    ensures StartingBelow(fs, At(f.Smallest().user)) < StartingBelow(fs, lo)
  {
    assert f in StartingBelow(fs, lo) && f !in StartingBelow(fs, At(f.Smallest().user));
    forall a, b | Wider(a, b, begin, end) && RangeClosed(fs, a, b)
      ensures Wider(a, b, At(f.Smallest().user), hi)
    {
      assert Wider(a, b, lo, hi);
      assert Overlaps(f, a, b);
    }
  }

  lemma WidenEnd(fs: seq<File>, begin: Bound, end: Bound, lo: Bound, hi: Bound, f: File)
    requires LeastAround(fs, begin, end, lo, hi) && f in fs && Overlaps(f, lo, hi)
    requires hi.At? && hi.key < f.Largest().user
    ensures LeastAround(fs, begin, end, lo, At(f.Largest().user))
    ensures EndingAbove(fs, At(f.Largest().user)) < EndingAbove(fs, hi)
  {
    assert f in EndingAbove(fs, hi) && f !in EndingAbove(fs, At(f.Largest().user));
    forall a, b | Wider(a, b, begin, end) && RangeClosed(fs, a, b)
      ensures Wider(a, b, lo, At(f.Largest().user))
    {
      assert Wider(a, b, lo, hi);
      assert Overlaps(f, a, b);
    }
  }

  lemma OverlapStep(fs: seq<File>, i: nat, lo: Bound, hi: Bound)
    requires i < |fs|
    ensures Overlapping(fs[..i + 1], lo, hi)
         == Overlapping(fs[..i], lo, hi) + if Overlaps(fs[i], lo, hi) then [fs[i]] else []
    ensures RangeClosed(fs[..i], lo, hi) && (Overlaps(fs[i], lo, hi) ==> Within(fs[i], lo, hi)) ==> RangeClosed(fs[..i + 1], lo, hi)
  {
    assert fs[..i + 1][..i] == fs[..i];
  }

  /** Version::GetOverlappingInputs. At level 0 the range grows until it is closed, and it is
      the least closed range around the one asked for. */
  method GetOverlappingInputs(level: nat, files: seq<File>, begin: Bound, end: Bound)
    returns (inputs: seq<File>, lo: Bound, hi: Bound)
    ensures inputs == Overlapping(files, lo, hi)
    ensures level > 0 ==> lo == begin && hi == end
    ensures level == 0 ==> RangeClosed(files, lo, hi) && LeastAround(files, begin, end, lo, hi)
  {
    inputs, lo, hi := [], begin, end;
    var i := 0;
    while i < |files|
      invariant i <= |files|
      invariant inputs == Overlapping(files[..i], lo, hi)
      invariant level > 0 ==> lo == begin && hi == end
      invariant LeastAround(files, begin, end, lo, hi)
      invariant level == 0 ==> RangeClosed(files[..i], lo, hi)
      decreases StartingBelow(files, lo), EndingAbove(files, hi), |files| - i
    {
      var f := files[i];
      OverlapStep(files, i, lo, hi);
      i := i + 1;
      if !(AfterFile(lo, f) || BeforeFile(hi, f)) {
        inputs := inputs + [f];
        if level == 0 {
          if lo.At? && f.Smallest().user < lo.key {
            WidenStart(files, begin, end, lo, hi, f);
            lo, inputs, i := At(f.Smallest().user), [], 0;
          } else if hi.At? && f.Largest().user > hi.key {
            WidenEnd(files, begin, end, lo, hi, f);
            hi, inputs, i := At(f.Largest().user), [], 0;
          }
        }
      }
    }
    assert files[..|files|] == files;
  }

  ghost predicate AtOrBefore(a: InternalKey, b: InternalKey) {
    !Less(b, a)
  }

  ghost predicate IsRange(inputs: seq<File>, smallest: InternalKey, largest: InternalKey) {
    && (exists f :: f in inputs && f.Smallest() == smallest)
    && (exists f :: f in inputs && f.Largest() == largest)
    && forall f | f in inputs :: AtOrBefore(smallest, f.Smallest()) && AtOrBefore(f.Largest(), largest)
  }

  /** VersionSet::GetRange: the least range covering all the files. */
  method GetRange(inputs: seq<File>) returns (smallest: InternalKey, largest: InternalKey)
    requires inputs != []
    ensures IsRange(inputs, smallest, largest)
  {
    smallest, largest := inputs[0].Smallest(), inputs[0].Largest();
    assert inputs[..1] == [inputs[0]];
    for i := 1 to |inputs|
      invariant IsRange(inputs[..i], smallest, largest)
    {
      var f := inputs[i];
      ghost var s0, l0 := smallest, largest;
      if Less(f.Smallest(), smallest) {
        smallest := f.Smallest();
      }
      if Less(largest, f.Largest()) {
        largest := f.Largest();
      }
      RangeStep(inputs, i, s0, l0, smallest, largest);
    }
    assert inputs[..|inputs|] == inputs;
  }

  lemma RangeStep(inputs: seq<File>, i: nat, s0: InternalKey, l0: InternalKey, s: InternalKey, l: InternalKey)
    requires i < |inputs| && IsRange(inputs[..i], s0, l0)
    requires s == if Less(inputs[i].Smallest(), s0) then inputs[i].Smallest() else s0
    requires l == if Less(l0, inputs[i].Largest()) then inputs[i].Largest() else l0
    ensures IsRange(inputs[..i + 1], s, l)
  {
    var f := inputs[i];
    var prior := inputs[..i];
    var all := inputs[..i + 1];
    assert all == prior + [f];
    var fs :| fs in prior && fs.Smallest() == s0;
    var fl :| fl in prior && fl.Largest() == l0;
    assert fs in all && fl in all && f in all;
    hide Less;
    forall g | g in all
      ensures AtOrBefore(s, g.Smallest()) && AtOrBefore(g.Largest(), l)
    {
      if g in prior {
        Widened(s0, f.Smallest(), g.Smallest());
        Widened(g.Largest(), f.Largest(), l0);
      } else {
        Widened(s0, f.Smallest(), f.Smallest());
        Widened(f.Largest(), f.Largest(), l0);
      }
    }
  }

  lemma Widened(a: InternalKey, b: InternalKey, c: InternalKey)
    ensures AtOrBefore(a, c) && Less(b, a) ==> AtOrBefore(b, c)
    ensures AtOrBefore(a, c) && Less(c, b) ==> AtOrBefore(a, b)
    ensures !Less(b, a) ==> AtOrBefore(a, b)
    ensures AtOrBefore(a, a)
    ensures !Less(c, b) ==> AtOrBefore(b, c)
  {
    CompareIsTotalOrder(a, c, b);
    CompareIsTotalOrder(b, a, c);
    CompareIsTotalOrder(a, a, a);
  }

  lemma RangeUsers(inputs: seq<File>, smallest: InternalKey, largest: InternalKey, f: File)
    requires IsRange(inputs, smallest, largest) && f in inputs
    ensures smallest.user <= f.Smallest().user && f.Largest().user <= largest.user
    ensures Overlaps(f, At(smallest.user), At(largest.user))
  {
    FileRange(f, f.entries[0]);
  }

  /** A later file of the level that starts with the user key the inputs end with. */
  predicate IsBoundary(f: File, largest: InternalKey) {
    Less(largest, f.Smallest()) && f.Smallest().user == largest.user
  }

  method FindSmallestBoundaryFile(levelFiles: seq<File>, largest: InternalKey) returns (r: Option<File>)
    ensures r.None? ==> forall f | f in levelFiles :: !IsBoundary(f, largest)
    ensures r.Some? ==> r.value in levelFiles && IsBoundary(r.value, largest)
    ensures r.Some? ==> forall f | f in levelFiles && IsBoundary(f, largest) :: AtOrBefore(r.value.Smallest(), f.Smallest())
  {
    r := None;
    for i := 0 to |levelFiles|
      invariant r.None? ==> forall f | f in levelFiles[..i] :: !IsBoundary(f, largest)
      invariant r.Some? ==> r.value in levelFiles[..i] && IsBoundary(r.value, largest)
      invariant r.Some? ==> forall f | f in levelFiles[..i] && IsBoundary(f, largest) :: AtOrBefore(r.value.Smallest(), f.Smallest())
    {
      var f := levelFiles[i];
      assert forall g :: g in levelFiles[..i + 1] <==> g in levelFiles[..i] || g == f;
      if IsBoundary(f, largest) {
        if r.None? || Less(f.Smallest(), r.value.Smallest()) {
          forall g | r.Some? && g in levelFiles[..i] && IsBoundary(g, largest)
            ensures AtOrBefore(f.Smallest(), g.Smallest())
          {
            CompareIsTotalOrder(g.Smallest(), f.Smallest(), r.value.Smallest());
          }
          r := Some(f);
        }
      }
    }
    assert levelFiles[..|levelFiles|] == levelFiles;
  }

  /** With two of its files, a convex selection holds every file between them. */
  ghost predicate Convex(fs: seq<File>, sel: seq<File>) {
    forall i, j, k | 0 <= i < j < k < |fs| && fs[i] in sel && fs[k] in sel :: fs[j] in sel
  }

  ghost predicate NoDuplicates(fs: seq<File>) {
    forall i, j | 0 <= i < j < |fs| :: fs[i] != fs[j]
  }

  ghost predicate IsLargest(sel: seq<File>, largest: InternalKey) {
    (exists f :: f in sel && f.Largest() == largest) && forall f | f in sel :: AtOrBefore(f.Largest(), largest)
  }

  ghost function Beyond(fs: seq<File>, largest: InternalKey): set<File> {
    set f | f in fs && Less(largest, f.Smallest())
  }

  /** What growing a selection by boundary files keeps. */
  ghost predicate Grown(levelFiles: seq<File>, selected: seq<File>, r: seq<File>, largest: InternalKey) {
    && selected <= r && NoDuplicates(r) && (forall f | f in r :: f in levelFiles)
    && IsLargest(r, largest)
    && (LevelSorted(levelFiles) && Convex(levelFiles, selected) ==> Convex(levelFiles, r))
    && (r == selected || exists f, l :: f in levelFiles && IsLargest(selected, l) && IsBoundary(f, l))
  }

  /** AddBoundaryInputs: afterwards no later file of the level starts with the last user key. */
  method AddBoundaryInputs(levelFiles: seq<File>, selected: seq<File>) returns (r: seq<File>, largest: InternalKey)
    requires selected != [] && NoDuplicates(selected)
    requires forall f | f in selected :: f in levelFiles
    ensures Grown(levelFiles, selected, r, largest)
    ensures forall f | f in levelFiles :: !IsBoundary(f, largest)
  {
    var _, l := GetRange(selected);
    r, largest := selected, l;
    var continueSearching := true;
    while continueSearching
      invariant Grown(levelFiles, selected, r, largest)
      invariant !continueSearching ==> forall f | f in levelFiles :: !IsBoundary(f, largest)
      decreases continueSearching, Beyond(levelFiles, largest)
    {
      var boundary := FindSmallestBoundaryFile(levelFiles, largest);
      if boundary.Some? {
        var b: File := boundary.value;
        BoundaryStep(levelFiles, r, largest, b);
        GrownStep(levelFiles, selected, r, largest, b);
        r, largest := r + [b], b.Largest();
      } else {
        continueSearching := false;
      }
    }
  }

  lemma GrownStep(levelFiles: seq<File>, selected: seq<File>, r: seq<File>, largest: InternalKey, b: File)
    requires Grown(levelFiles, selected, r, largest)
    requires b in levelFiles && IsBoundary(b, largest)
    requires NoDuplicates(r + [b]) && IsLargest(r + [b], b.Largest())
    requires LevelSorted(levelFiles) && Convex(levelFiles, r) ==> Convex(levelFiles, r + [b])
    ensures Grown(levelFiles, selected, r + [b], b.Largest())
  {
    assert r == selected ==> IsLargest(selected, largest);
  }

  lemma BoundaryStep(levelFiles: seq<File>, sel: seq<File>, largest: InternalKey, b: File)
    requires NoDuplicates(sel) && IsLargest(sel, largest) && forall f | f in sel :: f in levelFiles
    requires b in levelFiles && IsBoundary(b, largest)
    requires forall f | f in levelFiles && IsBoundary(f, largest) :: AtOrBefore(b.Smallest(), f.Smallest())
    ensures NoDuplicates(sel + [b]) && IsLargest(sel + [b], b.Largest())
    ensures LevelSorted(levelFiles) && Convex(levelFiles, sel) ==> Convex(levelFiles, sel + [b])
    ensures Beyond(levelFiles, b.Largest()) < Beyond(levelFiles, largest)
  {
    FileRange(b, b.entries[0]);
    CompareIsTotalOrder(b.Smallest(), b.Largest(), largest);
    forall f | f in levelFiles && Less(b.Largest(), f.Smallest())
      ensures Less(largest, f.Smallest())
    {
      CompareIsTotalOrder(largest, b.Smallest(), f.Smallest());
      CompareIsTotalOrder(b.Smallest(), b.Largest(), f.Smallest());
      CompareIsTotalOrder(f.Smallest(), b.Smallest(), b.Largest());
    }
    assert b in Beyond(levelFiles, largest) && b !in Beyond(levelFiles, b.Largest());
    forall f | f in sel
      ensures f != b && AtOrBefore(f.Largest(), b.Largest())
    {
      CompareIsTotalOrder(f.Largest(), largest, b.Smallest());
      CompareIsTotalOrder(largest, b.Smallest(), b.Largest());
      CompareIsTotalOrder(b.Largest(), f.Largest(), largest);
    }
    if LevelSorted(levelFiles) && Convex(levelFiles, sel) {
      BoundaryKeepsConvex(levelFiles, sel, largest, b);
    }
  }

  /** The boundary file with the smallest start is the very next file of the level. */
  lemma BoundaryKeepsConvex(fs: seq<File>, sel: seq<File>, largest: InternalKey, b: File)
    requires LevelSorted(fs) && Convex(fs, sel) && IsLargest(sel, largest)
    requires forall f | f in sel :: f in fs
    requires b in fs && IsBoundary(b, largest)
    requires forall f | f in fs && IsBoundary(f, largest) :: AtOrBefore(b.Smallest(), f.Smallest())
    ensures Convex(fs, sel + [b])
  {
    var m: nat :| m < |fs| && fs[m] in sel && fs[m].Largest() == largest;
    hide Less, Before, LevelSorted, IsBoundary, AtOrBefore;
    forall i: nat, j: nat, k: nat | i < j < k < |fs| && fs[i] in sel + [b] && fs[k] in sel + [b]
      ensures fs[j] in sel + [b]
    {
      if fs[i] !in sel {
        if fs[k] in sel {
          BoundaryIsLater(fs, sel, largest, k, i);
        } else {
          SmallestOrder(fs, i, k);
          NotBeforeItself(fs[i]);
        }
      } else if fs[k] !in sel && j > m {
        BoundaryIsNext(fs, largest, m, j, k);
      }
    }
  }

  lemma NotBeforeItself(f: File)
    ensures !Before(f.Smallest(), f.Smallest())
  {
  }

  lemma BoundaryIsLater(fs: seq<File>, sel: seq<File>, largest: InternalKey, k: nat, t: nat)
    requires LevelSorted(fs) && k < |fs| && t < |fs| && IsLargest(sel, largest)
    requires fs[k] in sel && IsBoundary(fs[t], largest)
    ensures k < t
  {
    var f := fs[k];
    if t <= k {
      SmallestOrder(fs, t, k);
    }
    FileRange(f, f.entries[0]);
    CompareIsTotalOrder(f.Smallest(), f.Largest(), largest);
    CompareIsTotalOrder(f.Smallest(), largest, fs[t].Smallest());
    CompareIsTotalOrder(f.Largest(), largest, fs[t].Smallest());
    CompareIsTotalOrder(fs[t].Smallest(), f.Smallest(), f.Smallest());
  }

  /** A file between the last taken one and a boundary file is a smaller boundary file. */
  lemma BoundaryIsNext(fs: seq<File>, largest: InternalKey, m: nat, j: nat, k: nat)
    requires LevelSorted(fs) && m < j < k < |fs| && fs[m].Largest() == largest && IsBoundary(fs[k], largest)
    ensures IsBoundary(fs[j], largest) && !AtOrBefore(fs[k].Smallest(), fs[j].Smallest())
  {
    SmallestOrder(fs, j, k);
    CompareIsTotalOrder(largest, fs[j].Smallest(), fs[k].Smallest());
    CompareIsTotalOrder(fs[j].Smallest(), fs[k].Smallest(), fs[k].Smallest());
  }
}
