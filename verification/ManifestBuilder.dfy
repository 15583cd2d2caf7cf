/** Applying edits to a version: the builder that batches them, and the version it saves. */
module ManifestBuilding {
  import opened Coding
  import opened VersionEdits

  type Comparator = (Bytes, Bytes) -> int

  ghost predicate TotalOrder(cmp: Comparator) {
    && (forall a: Bytes, b: Bytes :: cmp(a, b) < 0 <==> cmp(b, a) > 0)
    && (forall a: Bytes, b: Bytes, c: Bytes :: cmp(a, b) < 0 && cmp(b, c) < 0 ==> cmp(a, c) < 0)
    && (forall a: Bytes, b: Bytes, c: Bytes :: cmp(a, b) == 0 && cmp(b, c) < 0 ==> cmp(a, c) < 0)
    && (forall a: Bytes, b: Bytes, c: Bytes :: cmp(a, b) < 0 && cmp(b, c) == 0 ==> cmp(a, c) < 0)
    && (forall a: Bytes, b: Bytes, c: Bytes :: cmp(a, b) == 0 && cmp(b, c) == 0 ==> cmp(a, c) == 0)
  }

  /** BySmallestKey: ties are broken by file number. */
  predicate BySmallest(cmp: Comparator, f: FileMeta, g: FileMeta) {
    cmp(f.smallest, g.smallest) < 0 || (cmp(f.smallest, g.smallest) == 0 && f.number < g.number)
  }

  ghost predicate Sorted(cmp: Comparator, fs: seq<FileMeta>) {
    forall i, j | 0 <= i < j < |fs| :: BySmallest(cmp, fs[i], fs[j])
  }

  function Files(fs: seq<FileMeta>): set<FileMeta> {
    set f | f in fs
  }

  function Numbers(fs: set<FileMeta>): set<nat> {
    set f | f in fs :: f.number
  }

  /** One level of an edit. */
  datatype LevelEdit = LevelEdit(deleted: set<nat>, added: set<FileMeta>)

  /** One level of the builder. */
  datatype LevelState = LevelState(deleted: set<nat>, added: set<FileMeta>)

  function ApplyLevel(st: LevelState, e: LevelEdit): LevelState {
    LevelState((st.deleted + e.deleted) - Numbers(e.added), st.added + e.added)
  }

  /** The files the builder saves: those of the base and the added ones, without the deleted. */
  function Saved(base: set<FileMeta>, st: LevelState): set<FileMeta> {
    set f | f in base + st.added && f.number !in st.deleted
  }

  function Fresh(): LevelState {
    LevelState({}, {})
  }

  /** One edit by itself. */
  function Edited(base: set<FileMeta>, e: LevelEdit): set<FileMeta> {
    Saved(base, ApplyLevel(Fresh(), e))
  }

  /** A deleted file whose number the edit gives to another file. */
  ghost predicate Revived(base: set<FileMeta>, st: LevelState, e: LevelEdit, f: FileMeta) {
    f in base + st.added && f !in e.added && f.number in st.deleted && f.number in Numbers(e.added)
  }

  /** Batching one more edit is the same as applying it to the saved version, unless it adds
      again the number of a file deleted earlier: then the old file comes back. */
  lemma BatchOneMore(base: set<FileMeta>, st: LevelState, e: LevelEdit)
    ensures Saved(base, ApplyLevel(st, e)) == Edited(Saved(base, st), e) <==> forall f :: !Revived(base, st, e, f)
  {
    var batch, single := Saved(base, ApplyLevel(st, e)), Edited(Saved(base, st), e);
    forall f
      ensures f in single ==> f in batch
      ensures f in batch && f !in single <==> Revived(base, st, e, f)
    {
      if f in e.added {
        assert f.number in Numbers(e.added);
      }
    }
    if forall f :: !Revived(base, st, e, f) {
      assert batch == single;
    }
  }

  function ApplyAll(st: LevelState, es: seq<LevelEdit>): LevelState
    decreases |es|
  {
    if es == [] then st else ApplyAll(ApplyLevel(st, es[0]), es[1..])
  }

  function EditedAll(base: set<FileMeta>, es: seq<LevelEdit>): set<FileMeta>
    decreases |es|
  {
    if es == [] then base else EditedAll(Edited(base, es[0]), es[1..])
  }

  /** No edit adds a number that the base, or an edit before it, has used on the level. */
  ghost predicate NumbersOnce(used: set<nat>, es: seq<LevelEdit>)
    decreases |es|
  {
    es == [] || (used !! Numbers(es[0].added) && NumbersOnce(used + Numbers(es[0].added), es[1..]))
  }

  /** Then any number of edits can be batched. */
  lemma {:induction false} BatchIsOneByOne(base: set<FileMeta>, st: LevelState, es: seq<LevelEdit>, used: set<nat>)
    requires NumbersOnce(used, es) && Numbers(base + st.added) <= used
    ensures Saved(base, ApplyAll(st, es)) == EditedAll(Saved(base, st), es)
    decreases |es|
  {
    if es != [] {
      forall f
        ensures !Revived(base, st, es[0], f)
      {
        assert f in base + st.added ==> f.number in Numbers(base + st.added);
      }
      BatchOneMore(base, st, es[0]);
      var st' := ApplyLevel(st, es[0]);
      forall n | n in Numbers(base + st'.added)
        ensures n in used + Numbers(es[0].added)
      {
        var f :| f in base + st'.added && f.number == n;
        assert f in base + st.added || f in es[0].added;
        assert f in base + st.added ==> f.number in Numbers(base + st.added);
      }
      BatchIsOneByOne(base, st', es[1..], used + Numbers(es[0].added));
    }
  }

  /** A number deleted and used again does bring the first file back. */
  lemma ReusedNumberRevives()
    ensures var first, second := FileMeta(5, 1, [1], [2]), FileMeta(5, 1, [8], [9]);
      var delete, add := LevelEdit({5}, {}), LevelEdit({}, {second});
      && first in Saved({first}, ApplyAll(Fresh(), [delete, add]))
      && first !in EditedAll({first}, [delete, add])
  {
    var first, second := FileMeta(5, 1, [1], [2]), FileMeta(5, 1, [8], [9]);
    var delete, add := LevelEdit({5}, {}), LevelEdit({}, {second});
    assert [delete, add][1..] == [add] && [add][1..] == [];
    assert second.number in Numbers({second});
    assert ApplyAll(ApplyLevel(Fresh(), delete), [add]) == ApplyLevel(ApplyLevel(Fresh(), delete), add);
    assert EditedAll(Edited({first}, delete), [add]) == Edited(Edited({first}, delete), add);
    assert ApplyAll(Fresh(), [delete, add]) == ApplyLevel(ApplyLevel(Fresh(), delete), add);
    assert EditedAll({first}, [delete, add]) == Edited(Edited({first}, delete), add);
    assert first.number !in ApplyLevel(ApplyLevel(Fresh(), delete), add).deleted;
    assert first !in Edited({first}, delete);
  }

  // ----- Saving a level as a sorted list -----

  ghost predicate DistinctNumbers(fs: set<FileMeta>) {
    forall f, g | f in fs && g in fs && f.number == g.number :: f == g
  }

  lemma BySmallestTotal(cmp: Comparator, f: FileMeta, g: FileMeta, h: FileMeta)
    requires TotalOrder(cmp)
    ensures !BySmallest(cmp, f, f)
    ensures BySmallest(cmp, f, g) && BySmallest(cmp, g, h) ==> BySmallest(cmp, f, h)
    ensures f.number != g.number ==> BySmallest(cmp, f, g) || BySmallest(cmp, g, f)
  {
    assert !(cmp(f.smallest, f.smallest) < 0 && cmp(f.smallest, f.smallest) > 0);
    assert cmp(g.smallest, f.smallest) < 0 <==> cmp(f.smallest, g.smallest) > 0;
  }

  /** A sorted list is determined by the set of its files. */
  lemma {:induction false} SortedUnique(cmp: Comparator, a: seq<FileMeta>, b: seq<FileMeta>)
    requires TotalOrder(cmp) && Sorted(cmp, a) && Sorted(cmp, b) && Files(a) == Files(b)
    ensures a == b
    decreases |a|
  {
    NoFiles(a);
    NoFiles(b);
    if a != [] {
      assert a[0] in Files(b) && b != [];
      assert b[0] in Files(a);
      if a[0] != b[0] {
        var i :| 0 <= i < |b| && b[i] == a[0];
        var j :| 0 <= j < |a| && a[j] == b[0];
        BySmallestTotal(cmp, a[0], b[0], a[0]);
      }
      RestFiles(cmp, a);
      RestFiles(cmp, b);
      SortedUnique(cmp, a[1..], b[1..]);
      assert a == [a[0]] + a[1..] && b == [b[0]] + b[1..];
    }
  }

  lemma NoFiles(a: seq<FileMeta>)
    ensures a == [] <==> Files(a) == {}
  {
    if a != [] {
      assert a[0] in Files(a);
    }
  }

  lemma FilesAppend(a: seq<FileMeta>, f: FileMeta)
    ensures Files(a + [f]) == Files(a) + {f}
  {
  }

  lemma RestFiles(cmp: Comparator, a: seq<FileMeta>)
    requires TotalOrder(cmp) && Sorted(cmp, a) && a != []
    ensures Files(a[1..]) == Files(a) - {a[0]}
  {
    BySmallestTotal(cmp, a[0], a[0], a[0]);
    forall i | 0 < i < |a|
      ensures a[i] != a[0]
    {
      assert BySmallest(cmp, a[0], a[i]);
    }
    assert a == [a[0]] + a[1..];
  }

  /** Insertion into the builder's ordered set: a file that compares equal is already there. */
  method InsertFile(cmp: Comparator, fs: seq<FileMeta>, f: FileMeta) returns (r: seq<FileMeta>)
    requires TotalOrder(cmp) && Sorted(cmp, fs) && DistinctNumbers(Files(fs) + {f})
    ensures Sorted(cmp, r) && Files(r) == Files(fs) + {f}
  {
    var i := 0;
    while i < |fs| && BySmallest(cmp, fs[i], f)
      invariant i <= |fs| && forall k | 0 <= k < i :: BySmallest(cmp, fs[k], f)
    {
      i := i + 1;
    }
    if i < |fs| && !BySmallest(cmp, f, fs[i]) {
      BySmallestTotal(cmp, f, fs[i], f);
      assert fs[i] in Files(fs) && fs[i] == f;
      return fs;
    }
    r := fs[..i] + [f] + fs[i..];
    InsertedSorted(cmp, fs, f, i);
    assert fs == fs[..i] + fs[i..];
  }

  lemma InsertedSorted(cmp: Comparator, fs: seq<FileMeta>, f: FileMeta, i: nat)
    requires TotalOrder(cmp) && Sorted(cmp, fs) && i <= |fs|
    requires forall k | 0 <= k < i :: BySmallest(cmp, fs[k], f)
    requires i < |fs| ==> BySmallest(cmp, f, fs[i])
    ensures Sorted(cmp, fs[..i] + [f] + fs[i..])
  {
    var r := fs[..i] + [f] + fs[i..];
    forall j, k | 0 <= j < k < |r|
      ensures BySmallest(cmp, r[j], r[k])
    {
      if j == i {
        BySmallestTotal(cmp, f, fs[i], fs[k - 1]);
      }
    }
  }

  /** What has been kept of a list of files. */
  ghost function Undeleted(fs: set<FileMeta>, deleted: set<nat>): set<FileMeta> {
    set f | f in fs && f.number !in deleted
  }

  ghost predicate AllBefore(cmp: Comparator, xs: seq<FileMeta>, ys: seq<FileMeta>) {
    forall x, y | x in xs && y in ys :: BySmallest(cmp, x, y)
  }

  /** Out holds what is kept of the files taken so far, in order and before all others. */
  ghost predicate Merged(cmp: Comparator, taken: set<FileMeta>, base: seq<FileMeta>, added: seq<FileMeta>, deleted: set<nat>, out: seq<FileMeta>) {
    && Sorted(cmp, out) && Files(out) == Undeleted(taken, deleted)
    && AllBefore(cmp, out, base) && AllBefore(cmp, out, added)
  }

  lemma AppendSorted(cmp: Comparator, out: seq<FileMeta>, f: FileMeta)
    requires Sorted(cmp, out) && AllBefore(cmp, out, [f])
    ensures Sorted(cmp, out + [f])
  {
    assert f in [f];
  }

  /** The first of what is left goes to the output, unless it is deleted. */
  lemma MergedStep(cmp: Comparator, taken: set<FileMeta>, f: FileMeta, xs: seq<FileMeta>, ys: seq<FileMeta>, deleted: set<nat>, out: seq<FileMeta>)
    requires Merged(cmp, taken, [f] + xs, ys, deleted, out)
    requires AllBefore(cmp, [f], xs) && AllBefore(cmp, [f], ys)
    ensures Merged(cmp, taken + {f}, xs, ys, deleted, if f.number in deleted then out else out + [f])
  {
    assert f in [f] + xs && forall x | x in xs :: x in [f] + xs;
    assert AllBefore(cmp, out, [f]);
    AppendSorted(cmp, out, f);
    FilesAppend(out, f);
    assert f in [f];
  }

  lemma MergedSwap(cmp: Comparator, taken: set<FileMeta>, xs: seq<FileMeta>, ys: seq<FileMeta>, deleted: set<nat>, out: seq<FileMeta>)
    ensures Merged(cmp, taken, xs, ys, deleted, out) <==> Merged(cmp, taken, ys, xs, deleted, out)
  {
  }

  /** In a sorted list the first file is before the others, and before what comes after it. */
  lemma FirstBefore(cmp: Comparator, fs: seq<FileMeta>, i: nat, ys: seq<FileMeta>)
    requires TotalOrder(cmp) && Sorted(cmp, fs) && Sorted(cmp, ys) && i < |fs| && (ys != [] ==> BySmallest(cmp, fs[i], ys[0]))
    ensures AllBefore(cmp, [fs[i]], fs[i + 1..]) && AllBefore(cmp, [fs[i]], ys)
    ensures [fs[i]] + fs[i + 1..] == fs[i..]
  {
    forall y | y in ys
      ensures BySmallest(cmp, fs[i], y)
    {
      var k :| 0 <= k < |ys| && ys[k] == y;
      BySmallestTotal(cmp, fs[i], ys[0], y);
    }
  }

  method MaybeAddFile(out: seq<FileMeta>, f: FileMeta, deleted: set<nat>) returns (r: seq<FileMeta>)
    ensures r == if f.number in deleted then out else out + [f]
  {
    r := out;
    if f.number !in deleted {
      r := r + [f];
    }
  }

  /** Builder::SaveTo on one level: a merge of the base files with the added ones. */
  method SaveTo(cmp: Comparator, base: seq<FileMeta>, added: seq<FileMeta>, deleted: set<nat>) returns (out: seq<FileMeta>)
    requires TotalOrder(cmp) && Sorted(cmp, base) && Sorted(cmp, added)
    requires forall f, g | f in base && g in added :: f.number != g.number
    ensures Sorted(cmp, out) && Files(out) == Saved(Files(base), LevelState(deleted, Files(added)))
  {
    out := [];
    var b := 0;
    for a := 0 to |added|
      invariant b <= |base| && Merged(cmp, Files(base[..b]) + Files(added[..a]), base[b..], added[a..], deleted, out)
    {
      while b < |base| && !BySmallest(cmp, added[a], base[b])
        invariant b <= |base| && Merged(cmp, Files(base[..b]) + Files(added[..a]), base[b..], added[a..], deleted, out)
      {
        BySmallestTotal(cmp, added[a], base[b], added[a]);
        TakeBase(cmp, base, b, added, a, deleted, out);
        out := MaybeAddFile(out, base[b], deleted);
        b := b + 1;
      }
      TakeAdded(cmp, base, b, added, a, deleted, out);
      out := MaybeAddFile(out, added[a], deleted);
    }
    while b < |base|
      invariant b <= |base| && Merged(cmp, Files(base[..b]) + Files(added[..|added|]), base[b..], added[|added|..], deleted, out)
    {
      TakeBase(cmp, base, b, added, |added|, deleted, out);
      out := MaybeAddFile(out, base[b], deleted);
      b := b + 1;
    }
    assert base[..|base|] == base && added[..|added|] == added;
  }

  lemma TakeBase(cmp: Comparator, base: seq<FileMeta>, b: nat, added: seq<FileMeta>, a: nat, deleted: set<nat>, out: seq<FileMeta>)
    requires TotalOrder(cmp) && Sorted(cmp, base) && Sorted(cmp, added) && b < |base| && a <= |added|
    requires a < |added| ==> BySmallest(cmp, base[b], added[a])
    requires Merged(cmp, Files(base[..b]) + Files(added[..a]), base[b..], added[a..], deleted, out)
    ensures Merged(cmp, Files(base[..b + 1]) + Files(added[..a]), base[b + 1..], added[a..], deleted,
                   if base[b].number in deleted then out else out + [base[b]])
  {
    FirstBefore(cmp, base, b, added[a..]);
    MergedStep(cmp, Files(base[..b]) + Files(added[..a]), base[b], base[b + 1..], added[a..], deleted, out);
    TakenOneMore(base, b, Files(added[..a]));
  }

  lemma TakenOneMore(fs: seq<FileMeta>, i: nat, others: set<FileMeta>)
    requires i < |fs|
    ensures (Files(fs[..i]) + others) + {fs[i]} == Files(fs[..i + 1]) + others
    ensures (others + Files(fs[..i])) + {fs[i]} == others + Files(fs[..i + 1])
  {
    assert fs[..i + 1] == fs[..i] + [fs[i]];
    FilesAppend(fs[..i], fs[i]);
  }

  lemma TakeAdded(cmp: Comparator, base: seq<FileMeta>, b: nat, added: seq<FileMeta>, a: nat, deleted: set<nat>, out: seq<FileMeta>)
    requires TotalOrder(cmp) && Sorted(cmp, base) && Sorted(cmp, added) && b <= |base| && a < |added|
    requires b < |base| ==> BySmallest(cmp, added[a], base[b])
    requires Merged(cmp, Files(base[..b]) + Files(added[..a]), base[b..], added[a..], deleted, out)
    ensures Merged(cmp, Files(base[..b]) + Files(added[..a + 1]), base[b..], added[a + 1..], deleted,
                   if added[a].number in deleted then out else out + [added[a]])
  {
    FirstBefore(cmp, added, a, base[b..]);
    var taken := Files(base[..b]) + Files(added[..a]);
    MergedSwap(cmp, taken, base[b..], added[a..], deleted, out);
    MergedStep(cmp, taken, added[a], added[a + 1..], base[b..], deleted, out);
    TakenOneMore(added, a, Files(base[..b]));
    MergedSwap(cmp, taken + {added[a]}, added[a + 1..], base[b..], deleted, if added[a].number in deleted then out else out + [added[a]]);
  }
}
