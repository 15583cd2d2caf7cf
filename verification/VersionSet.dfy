/** Logging edits to the manifest, and recovering from it after a crash. */
module VersionSets {
  import opened Basics
  import opened Coding
  import opened LogFormat
  import opened LogReader
  import opened VersionEdits
  import opened ManifestBuilding
  import opened ManifestEdits
  import opened Manifests

  // ----- What a manifest yields when it is cut -----

  ghost predicate Readable(name: Bytes, e: Edit) {
    EditOk(e) && LevelsOk(e) && (e.comparator.Some? ==> e.comparator.value == name)
  }

  lemma EncodedDecodes(e: Edit)
    requires EditOk(e)
    ensures DecodeFields(NewEdit(), Encoded(e)) == (e, None)
  {
    EditRoundTrip(NewEdit(), e);
    assert Clear(NewEdit()) == NewEdit();
  }

  lemma ReadOne(crc: Checksum, s: Input, name: Bytes, e: Edit)
    requires Readable(name, e)
    requires NextRecord(crc, s, false, []).record == Some(Encoded(e)) && NextRecord(crc, s, false, []).drops == []
    ensures var more := ReadEdits(crc, NextRecord(crc, s, false, []).input, name);
      ReadEdits(crc, s, name) == ([e] + more.0, more.1)
  {
    EncodedDecodes(e);
    hide NextRecord, DecodeFields, Encoded, EditOk, LevelsOk;
  }

  lemma {:induction false} CutManifestAt(crc: Checksum, s: Input, name: Bytes, off: nat, es: seq<Edit>, n: int)
    requires off <= BLOCK_SIZE && StateAt(s, off) && Cut(s.Unread(), Log(crc, off, Records(es)), n)
    requires forall i | 0 <= i < |es| :: Readable(name, es[i])
    ensures ReadEdits(crc, s, name) == (es[..WholeRecords(crc, off, Records(es), n)], true)
    decreases |es|
  {
    hide NextRecord, Fragments, LogFormat.After, StateAt, DecodeFields, Encoded, Readable;
    assert es[..0] == [];
    if es == [] {
      NoRecord(crc, s);
      assert ReadEdits(crc, s, name) == ([], true);
    } else {
      var records := Records(es);
      assert records[1..] == Records(es[1..]);
      var size := |Fragments(crc, off, records[0], true)|;
      var off' := After(off, |records[0]|);
      WholeRecordRead(crc, s, off, records[0], Log(crc, off', records[1..]), n);
      if n >= size {
        var o := NextRecord(crc, s, false, []);
        ReadOne(crc, s, name, es[0]);
        CutManifestAt(crc, o.input, name, off', es[1..], n - size);
        var k := WholeRecords(crc, off', records[1..], n - size);
        assert es[..k + 1] == [es[0]] + es[1..][..k];
      }
    }
  }

  lemma NoRecord(crc: Checksum, s: Input)
    requires s.Unread() == []
    ensures NextRecord(crc, s, false, []).record == None && NextRecord(crc, s, false, []).drops == []
  {
  }

  /** Reading a manifest cut at any byte gives the edits recorded completely before the cut. */
  lemma CutManifest(crc: Checksum, name: Bytes, es: seq<Edit>, n: nat)
    requires n <= |Log(crc, 0, Records(es))| && forall i | 0 <= i < |es| :: Readable(name, es[i])
    ensures ReadEdits(crc, Opened(Log(crc, 0, Records(es))[..n]), name) == (es[..WholeRecords(crc, 0, Records(es), n)], true)
  {
    StartOfFile(crc, Records(es), n);
    CutManifestAt(crc, Opened(Log(crc, 0, Records(es))[..n]), name, BLOCK_SIZE, es, n);
  }

  // ----- The version a manifest stands for -----

  /** Each edit after the snapshot carries all four numbers; the snapshot none of them. */
  ghost predicate Numbered(snap: Edit, es: seq<Edit>) {
    && snap.logNumber.None? && snap.prevLogNumber.None? && snap.nextFile.None? && snap.lastSequence.None?
    && forall i | 0 <= i < |es| :: es[i].logNumber.Some? && es[i].prevLogNumber.Some? && es[i].nextFile.Some? && es[i].lastSequence.Some?
  }

  /** On every level, no number is added twice. */
  ghost predicate OnceOnLevels(es: seq<Edit>) {
    forall l | 0 <= l < LEVELS :: NumbersOnce({}, Parts(es, l))
  }

  /** The files of a level after the snapshot and these edits, applied one by one. */
  function LevelAfter(snap: Edit, es: seq<Edit>, l: nat): set<FileMeta> {
    EditedAll(Part(snap, l).added, Parts(es, l))
  }

  lemma {:induction false} HeadIsLast(h: Edit, es: seq<Edit>)
    requires forall i | 0 <= i < |es| :: es[i].logNumber.Some? && es[i].prevLogNumber.Some? && es[i].nextFile.Some? && es[i].lastSequence.Some?
    ensures var r, last := HeadOf(h, es), if es == [] then h else es[|es| - 1];
      r.logNumber == last.logNumber && r.prevLogNumber == last.prevLogNumber && r.nextFile == last.nextFile && r.lastSequence == last.lastSequence
    decreases |es|
  {
    if es != [] {
      HeadIsLast(Head(h, es[0]), es[1..]);
    }
  }

  lemma {:induction false} OncePrefix(used: set<nat>, es: seq<LevelEdit>, k: nat)
    requires NumbersOnce(used, es) && k <= |es|
    ensures NumbersOnce(used, es[..k])
    decreases |es|
  {
    if k > 0 {
      OncePrefix(used + Numbers(es[0].added), es[1..], k - 1);
      assert es[..k][1..] == es[1..][..k - 1];
    }
  }

  /** Batching the snapshot and the edits from an empty version gives the version they stand
      for one by one. */
  lemma BatchedLevel(snap: Edit, es: seq<Edit>, l: nat)
    requires NumbersOnce({}, Parts([snap] + es, l))
    requires Part(snap, l).deleted == {}
    ensures Saved({}, ApplyAll(Fresh(), Parts([snap] + es, l))) == LevelAfter(snap, es, l)
  {
    var parts := Parts([snap] + es, l);
    assert parts[0] == Part(snap, l) && parts[1..] == Parts(es, l);
    var st := ApplyLevel(Fresh(), Part(snap, l));
    assert Saved({}, st) == Part(snap, l).added;
    assert {} + Numbers(Part(snap, l).added) == Numbers(Part(snap, l).added);
    assert {} + st.added == Part(snap, l).added;
    BatchIsOneByOne({}, st, Parts(es, l), Numbers(Part(snap, l).added));
  }

  /** The version and the numbers after the first k edits. */
  ghost predicate RecoveredAfter(cmp: Comparator, snap: Edit, es: seq<Edit>, k: nat, r: Option<Recovered>)
    requires 0 < k <= |es| && Numbered(snap, es)
  {
    && r.Some?
    && r.value.logNumber == es[k - 1].logNumber.value && r.value.prevLogNumber == es[k - 1].prevLogNumber.value
    && r.value.manifestNumber == es[k - 1].nextFile.value && r.value.nextFile == es[k - 1].nextFile.value + 1
    && r.value.lastSequence == es[k - 1].lastSequence.value
    && forall l | 0 <= l < LEVELS :: Sorted(cmp, r.value.files[l]) && Files(r.value.files[l]) == LevelAfter(snap, es[..k], l)
  }

  /** Recovering from a manifest cut at byte n: with at least one edit complete after the
      snapshot it gives the version and the numbers of the last complete edit, and otherwise
      it fails. */
  lemma RecoverReproduces(crc: Checksum, cmp: Comparator, name: Bytes, snap: Edit, es: seq<Edit>, n: nat, r: Option<Recovered>)
    requires n <= |Log(crc, 0, Records([snap] + es))|
    requires Readable(name, snap) && (forall i | 0 <= i < |es| :: Readable(name, es[i]))
    requires Numbered(snap, es) && OnceOnLevels([snap] + es) && snap.deleted == []
    requires var d := ReadEdits(crc, Opened(Log(crc, 0, Records([snap] + es))[..n]), name); RecoveredFrom(cmp, d.0, d.1, r)
    ensures var k := WholeRecords(crc, 0, Records([snap] + es), n);
      (k < 2 <==> r.None?) && (k >= 2 ==> RecoveredAfter(cmp, snap, es, k - 1, r))
  {
    hide *;
    var all := [snap] + es;
    forall i | 0 <= i < |all|
      ensures Readable(name, all[i])
    {
      assert i > 0 ==> all[i] == es[i - 1];
    }
    CutManifest(crc, name, all, n);
    PrefixRecovered(cmp, snap, es, WholeRecords(crc, 0, Records(all), n), r);
  }

  lemma PrefixRecovered(cmp: Comparator, snap: Edit, es: seq<Edit>, k: nat, r: Option<Recovered>)
    requires k <= |es| + 1 && Numbered(snap, es) && OnceOnLevels([snap] + es) && snap.deleted == []
    requires RecoveredFrom(cmp, ([snap] + es)[..k], true, r)
    ensures (k < 2 <==> r.None?) && (k >= 2 ==> RecoveredAfter(cmp, snap, es, k - 1, r))
  {
    PrefixHead(snap, es, k);
    if k >= 1 {
      LevelsReproduced(snap, es, k);
    }
    hide OnceOnLevels, LevelAfter, HeadOf, Sorted, Saved;
  }

  lemma LevelsReproduced(snap: Edit, es: seq<Edit>, k: nat)
    requires 1 <= k <= |es| + 1 && OnceOnLevels([snap] + es) && snap.deleted == []
    ensures forall l | 0 <= l < LEVELS :: Saved({}, ApplyAll(Fresh(), Parts(([snap] + es)[..k], l))) == LevelAfter(snap, es[..k - 1], l)
  {
    var all := [snap] + es;
    assert all[..k] == [snap] + es[..k - 1];
    forall l | 0 <= l < LEVELS
      ensures Saved({}, ApplyAll(Fresh(), Parts(all[..k], l))) == LevelAfter(snap, es[..k - 1], l)
    {
      OncePrefix({}, Parts(all, l), k);
      assert Parts(all, l)[..k] == Parts(all[..k], l);
      BatchedLevel(snap, es[..k - 1], l);
    }
  }

  lemma PrefixHead(snap: Edit, es: seq<Edit>, k: nat)
    requires Numbered(snap, es) && k <= |es| + 1
    ensures var h := HeadOf(NewEdit(), ([snap] + es)[..k]);
      && (k < 2 ==> h.nextFile.None?)
      && (k >= 2 ==> h.logNumber == es[k - 2].logNumber && h.prevLogNumber == es[k - 2].prevLogNumber
                     && h.nextFile == es[k - 2].nextFile && h.lastSequence == es[k - 2].lastSequence)
  {
    if k > 0 {
      var few := es[..k - 1];
      assert ([snap] + es)[..k][0] == snap && ([snap] + es)[..k][1..] == few;
      HeadIsLast(Head(NewEdit(), snap), few);
    }
  }

  // ----- Writing the manifest -----

  function LevelPairs(l: nat, fs: seq<FileMeta>): (r: seq<(nat, FileMeta)>)
    ensures |r| == |fs| && forall i | 0 <= i < |fs| :: r[i] == (l, fs[i])
  {
    seq(|fs|, i requires 0 <= i < |fs| => (l, fs[i]))
  }

  /** All files of the version from a level on. */
  function AllPairs(lists: FileLists, l: nat): (r: seq<(nat, FileMeta)>)
    requires l <= LEVELS
    ensures forall i | 0 <= i < |r| :: l <= r[i].0 < LEVELS && r[i].1 in lists[r[i].0]
    decreases LEVELS - l
  {
    if l == LEVELS then [] else LevelPairs(l, lists[l]) + AllPairs(lists, l + 1)
  }

  lemma AddedOnJoin(a: seq<(nat, FileMeta)>, b: seq<(nat, FileMeta)>, l: nat)
    ensures AddedOn(a + b, l) == AddedOn(a, l) + AddedOn(b, l)
  {
    forall f | f in AddedOn(a, l)
      ensures f in AddedOn(a + b, l)
    {
      var i :| 0 <= i < |a| && a[i].0 == l && a[i].1 == f;
      assert (a + b)[i] == a[i];
    }
    forall f | f in AddedOn(b, l)
      ensures f in AddedOn(a + b, l)
    {
      var i :| 0 <= i < |b| && b[i].0 == l && b[i].1 == f;
      assert (a + b)[|a| + i] == b[i];
    }
  }

  lemma LevelPairsOn(l: nat, fs: seq<FileMeta>, k: nat)
    ensures AddedOn(LevelPairs(l, fs), k) == if k == l then Files(fs) else {}
  {
    if k == l {
      forall f | f in Files(fs)
        ensures f in AddedOn(LevelPairs(l, fs), k)
      {
        var i :| 0 <= i < |fs| && fs[i] == f;
        assert LevelPairs(l, fs)[i] == (l, f);
      }
    }
  }

  lemma {:induction false} AllPairsOn(lists: FileLists, l: nat, k: nat)
    requires l <= LEVELS && k < LEVELS
    ensures AddedOn(AllPairs(lists, l), k) == if l <= k then Files(lists[k]) else {}
    decreases LEVELS - l
  {
    if l < LEVELS {
      AllPairsOn(lists, l + 1, k);
      LevelPairsOn(l, lists[l], k);
      AddedOnJoin(LevelPairs(l, lists[l]), AllPairs(lists, l + 1), k);
    }
  }

  /** The compaction pointers that are set. */
  function SetPointersFrom(pointers: seq<Bytes>, l: nat): (r: seq<(nat, Bytes)>)
    requires |pointers| == LEVELS && l <= LEVELS
    ensures forall i | 0 <= i < |r| :: l <= r[i].0 < LEVELS && r[i].1 in pointers
    decreases LEVELS - l
  {
    if l == LEVELS then [] else (if pointers[l] != [] then [(l, pointers[l])] else []) + SetPointersFrom(pointers, l + 1)
  }

  /** VersionSet::WriteSnapshot: the current version as one edit. */
  function Snapshot(name: Bytes, pointers: seq<Bytes>, lists: FileLists): Edit
    requires |pointers| == LEVELS
  {
    NewEdit().(comparator := Some(name), pointers := SetPointersFrom(pointers, 0), added := AllPairs(lists, 0))
  }

  ghost predicate Short(name: Bytes, pointers: seq<Bytes>, lists: FileLists) {
    && |name| < TWO32 && |pointers| == LEVELS
    && (forall l | 0 <= l < LEVELS :: |pointers[l]| < TWO32)
    && (forall l, f | 0 <= l < LEVELS && f in lists[l] :: MetaOk(f))
  }

  lemma SnapshotReadable(name: Bytes, pointers: seq<Bytes>, lists: FileLists)
    requires Short(name, pointers, lists)
    ensures var s := Snapshot(name, pointers, lists);
      && Readable(name, s) && s.deleted == [] && Numbered(s, [])
      && forall l | 0 <= l < LEVELS :: Part(s, l) == LevelEdit({}, Files(lists[l]))
  {
    var s := Snapshot(name, pointers, lists);
    forall l | 0 <= l < LEVELS
      ensures Part(s, l) == LevelEdit({}, Files(lists[l]))
    {
      SnapshotPart(name, pointers, lists, l);
    }
    SnapshotParts(name, pointers, lists);
    SnapshotFlags(name, pointers, lists);
    hide PartsOk, Part, Snapshot, FieldOk, Short, LevelsOk;
    FieldsAllOk(s);
  }

  lemma SnapshotPart(name: Bytes, pointers: seq<Bytes>, lists: FileLists, l: nat)
    requires |pointers| == LEVELS && l < LEVELS
    ensures Part(Snapshot(name, pointers, lists), l) == LevelEdit({}, Files(lists[l]))
  {
    AllPairsOn(lists, 0, l);
    hide AllPairs, SetPointersFrom, AddedOn, Files;
    assert DeletedOn([], l) == {};
  }

  lemma SnapshotFlags(name: Bytes, pointers: seq<Bytes>, lists: FileLists)
    requires |pointers| == LEVELS
    ensures var s := Snapshot(name, pointers, lists);
      s.comparator == Some(name) && s.deleted == [] && PairsSorted(s.deleted) && Numbered(s, [])
  {
    hide AllPairs, SetPointersFrom;
  }

  lemma SnapshotParts(name: Bytes, pointers: seq<Bytes>, lists: FileLists)
    requires Short(name, pointers, lists)
    ensures var s := Snapshot(name, pointers, lists); PartsOk(s) && LevelsOk(s)
  {
  }

  ghost predicate AllOk(fs: seq<Field>) {
    forall i | 0 <= i < |fs| :: FieldOk(fs[i])
  }

  lemma AllOkJoin(a: seq<Field>, b: seq<Field>)
    requires AllOk(a) && AllOk(b)
    ensures AllOk(a + b)
  {
  }

  ghost predicate PartsOk(e: Edit) {
    && (e.comparator.Some? ==> |e.comparator.value| < TWO32)
    && (e.logNumber.Some? ==> e.logNumber.value < TWO64) && (e.prevLogNumber.Some? ==> e.prevLogNumber.value < TWO64)
    && (e.nextFile.Some? ==> e.nextFile.value < TWO64) && (e.lastSequence.Some? ==> e.lastSequence.value < TWO64)
    && (forall i | 0 <= i < |e.pointers| :: e.pointers[i].0 < LEVELS && |e.pointers[i].1| < TWO32)
    && (forall i | 0 <= i < |e.deleted| :: e.deleted[i].0 < LEVELS && e.deleted[i].1 < TWO64)
    && (forall i | 0 <= i < |e.added| :: e.added[i].0 < LEVELS && MetaOk(e.added[i].1))
  }

  lemma FieldsAllOk(e: Edit)
    requires PartsOk(e)
    ensures AllOk(FieldsOf(e))
  {
    assert AllOk(HeadFields(e));
    assert AllOk(PointerFields(e.pointers)) && AllOk(DeletedFields(e.deleted)) && AllOk(AddedFields(e.added));
    hide FieldOk, AllOk, HeadFields;
    AllOkJoin(HeadFields(e), PointerFields(e.pointers));
    AllOkJoin(HeadFields(e) + PointerFields(e.pointers), DeletedFields(e.deleted));
    AllOkJoin(HeadFields(e) + PointerFields(e.pointers) + DeletedFields(e.deleted), AddedFields(e.added));
  }

  // ----- The version set -----

  /** The numbers LogAndApply fills in. */
  function Completed(e: Edit, logNumber: nat, prevLogNumber: nat, nextFile: nat, lastSequence: nat): Edit {
    e.(logNumber := Some(if e.logNumber.Some? then e.logNumber.value else logNumber),
       prevLogNumber := Some(if e.prevLogNumber.Some? then e.prevLogNumber.value else prevLogNumber),
       nextFile := Some(nextFile), lastSequence := Some(lastSequence))
  }

  /** Numbers used so far on a level. */
  ghost function Used(es: seq<Edit>, l: nat): set<nat> {
    Numbers(AddedBy(es, l))
  }

  /** The manifest written so far stands for the current version. */
  ghost predicate Stands(name: Bytes, current: FileLists, snap: Edit, es: seq<Edit>) {
    && Readable(name, snap) && (forall i | 0 <= i < |es| :: Readable(name, es[i]))
    && Numbered(snap, es) && snap.deleted == [] && OnceOnLevels([snap] + es)
    && forall l | 0 <= l < LEVELS :: Files(current[l]) == LevelAfter(snap, es, l)
  }

  ghost predicate Tidy(cmp: Comparator, current: FileLists) {
    forall l | 0 <= l < LEVELS :: Sorted(cmp, current[l]) && DistinctNumbers(Files(current[l]))
  }

  lemma {:induction false} EditedAllLast(base: set<FileMeta>, es: seq<LevelEdit>, e: LevelEdit)
    ensures EditedAll(base, es + [e]) == Edited(EditedAll(base, es), e)
    decreases |es|
  {
    hide Edited;
    if es == [] {
      assert ([e])[1..] == [] && es + [e] == [e];
      assert EditedAll(Edited(base, e), []) == Edited(base, e);
    } else {
      assert (es + [e])[0] == es[0] && (es + [e])[1..] == es[1..] + [e];
      EditedAllLast(Edited(base, es[0]), es[1..], e);
    }
  }

  lemma {:induction false} OnceLast(used: set<nat>, es: seq<Edit>, e: Edit, l: nat)
    requires NumbersOnce(used, Parts(es, l)) && (used + Used(es, l)) !! Numbers(Part(e, l).added)
    ensures NumbersOnce(used, Parts(es + [e], l))
    decreases |es|
  {
    hide Part;
    if es == [] {
      assert Parts([e], l)[1..] == [] && es + [e] == [e];
    } else {
      assert (es + [e])[0] == es[0] && (es + [e])[1..] == es[1..] + [e];
      assert Parts(es, l)[1..] == Parts(es[1..], l) && Parts(es + [e], l)[1..] == Parts(es[1..] + [e], l);
      UsedSplit(Part(es[0], l).added, AddedBy(es[1..], l));
      OnceLast(used + Numbers(Part(es[0], l).added), es[1..], e, l);
    }
  }

  lemma UsedSplit(a: set<FileMeta>, b: set<FileMeta>)
    ensures Numbers(a + b) == Numbers(a) + Numbers(b)
  {
    forall n | n in Numbers(a) + Numbers(b)
      ensures n in Numbers(a + b)
    {
      var f :| (f in a || f in b) && f.number == n;
      assert f in a + b;
    }
  }

  /** One more logged edit: the manifest still stands for the version. */
  lemma StandsNext(name: Bytes, current: FileLists, snap: Edit, es: seq<Edit>, e: Edit, next: FileLists)
    requires Stands(name, current, snap, es) && Readable(name, e)
    requires e.logNumber.Some? && e.prevLogNumber.Some? && e.nextFile.Some? && e.lastSequence.Some?
    requires Unused([snap] + es, e)
    requires forall l | 0 <= l < LEVELS :: Files(next[l]) == Edited(Files(current[l]), Part(e, l))
    ensures Stands(name, next, snap, es + [e])
  {
    hide Readable, Part, Used, Edited;
    assert [snap] + (es + [e]) == ([snap] + es) + [e];
    forall l | 0 <= l < LEVELS
      ensures NumbersOnce({}, Parts([snap] + (es + [e]), l))
      ensures Files(next[l]) == LevelAfter(snap, es + [e], l)
    {
      assert {} + Used([snap] + es, l) == Used([snap] + es, l);
      OnceLast({}, [snap] + es, e, l);
      PartsLast(es, e, l);
      EditedAllLast(Part(snap, l).added, Parts(es, l), Part(e, l));
    }
  }

  lemma StandsFirst(name: Bytes, pointers: seq<Bytes>, current: FileLists)
    requires Short(name, pointers, current)
    ensures Stands(name, current, Snapshot(name, pointers, current), [])
    ensures forall l | 0 <= l < LEVELS :: Used([Snapshot(name, pointers, current)], l) == Numbers(Files(current[l]))
  {
    var snap := Snapshot(name, pointers, current);
    SnapshotReadable(name, pointers, current);
    hide Readable, Snapshot, Part;
    assert [snap] + [] == [snap];
    forall l | 0 <= l < LEVELS
      ensures NumbersOnce({}, Parts([snap], l)) && LevelAfter(snap, [], l) == Files(current[l])
      ensures Used([snap], l) == Numbers(Files(current[l]))
    {
      assert Parts([snap], l)[1..] == [] && Parts([], l) == [];
      assert AddedBy([snap][1..], l) == {};
      assert Part(snap, l).added + {} == Files(current[l]);
    }
  }

  lemma {:induction false} FilesWereAdded(base: set<FileMeta>, es: seq<Edit>, l: nat)
    ensures EditedAll(base, Parts(es, l)) <= base + AddedBy(es, l)
    decreases |es|
  {
    if es != [] {
      assert Parts(es, l)[1..] == Parts(es[1..], l);
      FilesWereAdded(Edited(base, Part(es[0], l)), es[1..], l);
    }
  }

  lemma FilesAreUsed(name: Bytes, current: FileLists, snap: Edit, es: seq<Edit>, l: nat)
    requires Stands(name, current, snap, es) && l < LEVELS
    ensures Numbers(Files(current[l])) <= Used([snap] + es, l)
  {
    FilesWereAdded(Part(snap, l).added, es, l);
    AddedBySplit([snap], es, l);
    assert AddedBy([snap], l) == Part(snap, l).added + AddedBy([snap][1..], l);
    assert [snap][1..] == [];
    forall n | n in Numbers(Files(current[l]))
      ensures n in Used([snap] + es, l)
    {
      var f :| f in Files(current[l]) && f.number == n;
      assert f in AddedBy([snap] + es, l);
    }
  }

  /** What saving one edit over the current version does to a level. */
  ghost predicate SavedOver(cmp: Comparator, current: FileLists, e: Edit, next: FileLists) {
    forall l | 0 <= l < LEVELS :: Sorted(cmp, next[l]) && Files(next[l]) == Edited(Files(current[l]), Part(e, l))
  }

  /** The edit's new files have numbers of their own, on every level. */
  ghost predicate NewNumbers(current: FileLists, e: Edit) {
    forall l | 0 <= l < LEVELS :: DistinctNumbers(Part(e, l).added) && Numbers(Files(current[l])) !! Numbers(Part(e, l).added)
  }

  /** None of them was ever used on its level. */
  ghost predicate Unused(es: seq<Edit>, e: Edit) {
    forall l | 0 <= l < LEVELS :: Used(es, l) !! Numbers(Part(e, l).added)
  }

  /** File by file: a file is in the new version if it was there and is not deleted, or is added. */
  ghost predicate Versioned(before: FileLists, e: Edit, after: FileLists) {
    forall l, f | 0 <= l < LEVELS ::
      f in after[l] <==> (f in before[l] && (l, f.number) !in e.deleted) || (l, f) in e.added
  }

  lemma SavedIsVersioned(cmp: Comparator, before: FileLists, e: Edit, after: FileLists)
    requires SavedOver(cmp, before, e, after) && NewNumbers(before, e)
    ensures Versioned(before, e, after)
  {
    forall l, f | 0 <= l < LEVELS
      ensures f in after[l] <==> (f in before[l] && (l, f.number) !in e.deleted) || (l, f) in e.added
    {
      SavedFile(before[l], e, after[l], l, f);
    }
  }

  lemma SavedFile(before: seq<FileMeta>, e: Edit, after: seq<FileMeta>, l: nat, f: FileMeta)
    requires Files(after) == Edited(Files(before), Part(e, l)) && Numbers(Files(before)) !! Numbers(Part(e, l).added)
    ensures f in after <==> (f in before && (l, f.number) !in e.deleted) || (l, f) in e.added
  {
    assert f in after <==> f in Files(after);
    assert f in before <==> f in Files(before);
    assert f in before ==> f.number in Numbers(Files(before));
    assert f in Part(e, l).added ==> f.number in Numbers(Part(e, l).added);
    assert f in Part(e, l).added <==> (l, f) in e.added by {
      if (l, f) in e.added {
        var i :| 0 <= i < |e.added| && e.added[i] == (l, f);
        assert e.added[i].1 in AddedOn(e.added, l);
      }
    }
    assert f.number in Part(e, l).deleted <==> (l, f.number) in e.deleted by {
      if (l, f.number) in e.deleted {
        var i :| 0 <= i < |e.deleted| && e.deleted[i] == (l, f.number);
        assert e.deleted[i].1 in DeletedOn(e.deleted, l);
      }
    }
  }

  ghost predicate OwnNumbers(e: Edit) {
    forall l | 0 <= l < LEVELS :: DistinctNumbers(Part(e, l).added)
  }

  /** Numbers no edit has used are not those of a current file. */
  lemma UnusedIsNew(name: Bytes, current: FileLists, snap: Edit, es: seq<Edit>, e: Edit)
    requires Stands(name, current, snap, es) && OwnNumbers(e) && Unused([snap] + es, e)
    ensures NewNumbers(current, e)
  {
    hide Stands, Used, Part;
    forall l | 0 <= l < LEVELS ensures Numbers(Files(current[l])) !! Numbers(Part(e, l).added) {
      FilesAreUsed(name, current, snap, es, l);
    }
  }

  lemma TidyNext(cmp: Comparator, current: FileLists, e: Edit, next: FileLists)
    requires Tidy(cmp, current) && SavedOver(cmp, current, e, next) && NewNumbers(current, e)
    ensures Tidy(cmp, next)
  {
    hide Sorted, Part;
    forall l | 0 <= l < LEVELS
      ensures DistinctNumbers(Files(next[l]))
    {
      forall f, g | f in Files(current[l]) && g in Part(e, l).added
        ensures f.number != g.number
      {
        assert f.number in Numbers(Files(current[l])) && g.number in Numbers(Part(e, l).added);
      }
    }
  }

  /** Builder over the current version, one edit, SaveTo. */
  method ApplyEdit(cmp: Comparator, current: FileLists, e: Edit) returns (next: FileLists)
    requires TotalOrder(cmp) && Tidy(cmp, current) && LevelsOk(e) && NewNumbers(current, e)
    ensures SavedOver(cmp, current, e, next)
  {
    hide TotalOrder, Sorted, DistinctNumbers, Part;
    var builder := new Builder(cmp, current);
    forall l | 0 <= l < LEVELS
      ensures Files(builder.added[l]) + Part(e, l).added == Part(e, l).added
    {
      assert builder.State(l) == Fresh();
    }
    builder.Apply(e);
    forall l | 0 <= l < LEVELS
      ensures LevelState(builder.deleted[l], Files(builder.added[l])) == ApplyLevel(Fresh(), Part(e, l))
      ensures NoSharedNumbers(current[l], builder.added[l])
    {
      assert builder.State(l) == ApplyLevel(Fresh(), Part(e, l));
      Apart(current[l], builder.added[l], Part(e, l).added);
    }
    next := SaveAll(cmp, current, builder.added, builder.deleted);
  }

  lemma Apart(base: seq<FileMeta>, added: seq<FileMeta>, fs: set<FileMeta>)
    requires Files(added) == {} + fs && Numbers(Files(base)) !! Numbers(fs)
    ensures NoSharedNumbers(base, added)
  {
    forall f, g | f in base && g in added
      ensures f.number != g.number
    {
      assert f in Files(base) && g in Files(added);
      assert f.number in Numbers(Files(base)) && g.number in Numbers(fs);
    }
  }

  /** The bytes and the block offset of a manifest that stands for the current version. */
  ghost predicate Manifested(crc: Checksum, name: Bytes, dest: Bytes, off: nat, current: FileLists, snap: Edit, es: seq<Edit>) {
    && dest == Log(crc, 0, Records([snap] + es)) && off == AfterAll(0, Records([snap] + es))
    && Stands(name, current, snap, es)
  }

  /** A new manifest: the snapshot alone. */
  lemma ManifestedFirst(crc: Checksum, name: Bytes, pointers: seq<Bytes>, current: FileLists, record: Bytes)
    requires Short(name, pointers, current) && record == [] + Encoded(Snapshot(name, pointers, current))
    ensures Manifested(crc, name, [] + Fragments(crc, 0, record, true), After(0, |record|), current, Snapshot(name, pointers, current), [])
    ensures forall l | 0 <= l < LEVELS :: Used([Snapshot(name, pointers, current)] + [], l) == Numbers(Files(current[l]))
  {
    var snap := Snapshot(name, pointers, current);
    StandsFirst(name, pointers, current);
    FirstRecord(crc, snap, record);
    hide Stands, Snapshot, Short, Encoded, Fragments, LogFormat.After, Log, Used;
    assert [snap] + [] == [snap];
  }

  /** One more record. */
  lemma ManifestedNext(crc: Checksum, name: Bytes, dest: Bytes, off: nat, current: FileLists, snap: Edit, es: seq<Edit>,
                       e: Edit, next: FileLists, record: Bytes, cmp: Comparator)
    requires Manifested(crc, name, dest, off, current, snap, es) && off <= BLOCK_SIZE && record == [] + Encoded(e)
    requires e.logNumber.Some? && e.prevLogNumber.Some? && e.nextFile.Some? && e.lastSequence.Some?
    requires WellFormed(name, e) && Unused([snap] + es, e) && SavedOver(cmp, current, e, next)
    ensures Manifested(crc, name, dest + Fragments(crc, off, record, true), After(off, |record|), next, snap, es + [e])
  {
    WellFormedReadable(name, e);
    StandsNext(name, current, snap, es, e, next);
    hide Stands, Encoded, Fragments, LogFormat.After, Log;
    assert record == Encoded(e) && [snap] + (es + [e]) == ([snap] + es) + [e];
    RecordsLast([snap] + es, e);
    LogAppend(crc, 0, Records([snap] + es), record);
  }

  /** What a recovery gave is the current version with the last edit's numbers. */
  ghost predicate Reproduced(current: FileLists, last: Edit, r: Option<Recovered>) {
    && r.Some? && r.value.files == current
    && last.logNumber == Some(r.value.logNumber) && last.prevLogNumber == Some(r.value.prevLogNumber)
    && last.lastSequence == Some(r.value.lastSequence) && last.nextFile == Some(r.value.manifestNumber)
  }

  lemma ManifestedRecovers(crc: Checksum, cmp: Comparator, name: Bytes, dest: Bytes, off: nat, current: FileLists, snap: Edit, es: seq<Edit>,
                           r: Option<Recovered>)
    requires TotalOrder(cmp) && Tidy(cmp, current) && es != [] && Manifested(crc, name, dest, off, current, snap, es)
    requires RecoveredFrom(cmp, ReadEdits(crc, Opened(dest), name).0, ReadEdits(crc, Opened(dest), name).1, r)
    ensures Reproduced(current, es[|es| - 1], r)
  {
    WholeManifest(crc, cmp, name, snap, es, r);
    assert es[..|es|] == es;
    hide ReadEdits, RecoveredFrom, LevelAfter, OnceOnLevels, Readable, Log, TotalOrder;
    SameLists(cmp, r.value.files, current);
  }

  lemma WholeManifest(crc: Checksum, cmp: Comparator, name: Bytes, snap: Edit, es: seq<Edit>, r: Option<Recovered>)
    requires Readable(name, snap) && (forall i | 0 <= i < |es| :: Readable(name, es[i])) && es != []
    requires Numbered(snap, es) && OnceOnLevels([snap] + es) && snap.deleted == []
    requires var d := ReadEdits(crc, Opened(Log(crc, 0, Records([snap] + es))), name); RecoveredFrom(cmp, d.0, d.1, r)
    ensures RecoveredAfter(cmp, snap, es, |es|, r)
  {
    hide *;
    var dest := Log(crc, 0, Records([snap] + es));
    AllWhole(crc, 0, Records([snap] + es));
    assert dest[..|dest|] == dest;
    RecoverReproduces(crc, cmp, name, snap, es, |dest|, r);
  }

  lemma SameLists(cmp: Comparator, a: FileLists, b: FileLists)
    requires TotalOrder(cmp) && forall l | 0 <= l < LEVELS :: Sorted(cmp, a[l]) && Sorted(cmp, b[l]) && Files(a[l]) == Files(b[l])
    ensures a == b
  {
    hide TotalOrder, Sorted, Files;
    forall l | 0 <= l < LEVELS
      ensures a[l] == b[l]
    {
      SortedUnique(cmp, a[l], b[l]);
    }
  }

  class VersionSet {
    const cmp: Comparator
    const crc: Checksum
    const name: Bytes
    var current: FileLists
    var pointers: seq<Bytes>
    var nextFile: nat
    var lastSequence: nat
    var logNumber: nat
    var prevLogNumber: nat
    var descriptor: Writer?
    /** The edits in the manifest: a snapshot, then those logged. */
    ghost var snap: Edit
    ghost var edits: seq<Edit>

    ghost predicate Logged(w: Writer)
      reads this, w
    {
      w.crc == crc && w.Valid() && Manifested(crc, name, w.dest, w.blockOffset, current, snap, edits)
    }

    ghost predicate Valid()
      reads this, descriptor
    {
      && TotalOrder(cmp) && Tidy(cmp, current) && |pointers| == LEVELS && Short(name, pointers, current)
      && nextFile < TWO64 && lastSequence < TWO64 && logNumber < TWO64 && prevLogNumber < TWO64
      && (descriptor != null ==> Logged(descriptor))
    }

    /** An edit the caller may log: well formed, and with file numbers no edit of the manifest
        has used on its level, or at first no file of the version. */
    ghost predicate Acceptable(e: Edit)
      reads this
    {
      WellFormed(name, e) && if descriptor == null then NewNumbers(current, e) else OwnNumbers(e) && Unused([snap] + edits, e)
    }

    lemma AcceptedIsNew(e: Edit)
      requires Valid() && Acceptable(e)
      ensures NewNumbers(current, e)
    {
      hide Stands, NewNumbers, OwnNumbers, Unused, WellFormed, Tidy, Short, TotalOrder;
      if descriptor != null {
        UnusedIsNew(name, current, snap, edits, e);
      }
    }

    /** VersionSet::LogAndApply, for writes that succeed. */
    method LogAndApply(e: Edit)
      requires Valid() && Acceptable(e)
      modifies this, descriptor
      ensures Valid() && descriptor != null
      ensures SavedOver(cmp, old(current), e, current) && Versioned(old(current), e, current)
      ensures edits == (if old(descriptor) == null then [] else old(edits))
                       + [Completed(e, old(logNumber), old(prevLogNumber), old(nextFile), old(lastSequence))]
    {
      hide TotalOrder, Manifested, Short, Tidy, SavedOver, WellFormed, NewNumbers, OwnNumbers, Unused, LevelsOk;
      AcceptedIsNew(e);
      var full := Completed(e, logNumber, prevLogNumber, nextFile, lastSequence);
      CompletedFits(name, current, [snap] + edits, e, full);
      var next := ApplyEdit(cmp, current, full);
      SavedSame(cmp, current, e, full, next);
      SavedIsVersioned(cmp, current, e, next);
      hide Versioned;
      MovePointers(e.pointers);
      if descriptor == null {
        OpenManifest(full);
      }
      AppendEdit(full, next);
      logNumber, prevLogNumber := full.logNumber.value, full.prevLogNumber.value;
    }

    /** Builder::Apply, on the compaction pointers. */
    method MovePointers(moved: seq<(nat, Bytes)>)
      requires Valid() && forall i | 0 <= i < |moved| :: moved[i].0 < LEVELS && |moved[i].1| < TWO32
      modifies `pointers
      ensures Valid()
      ensures forall l | 0 <= l < LEVELS :: pointers[l] == LastPointer(old(pointers[l]), moved, l)
    {
      hide TotalOrder, Manifested, Tidy;
      for i := 0 to |moved|
        invariant Short(name, pointers, current)
        invariant forall l | 0 <= l < LEVELS :: LastPointer(old(pointers[l]), moved, l) == LastPointer(pointers[l], moved[i..], l)
      {
        assert moved[i..][1..] == moved[i + 1..];
        pointers := pointers[moved[i].0 := moved[i].1];
      }
    }

    /** Start a manifest with a snapshot of the current version. */
    method OpenManifest(ghost full: Edit)
      requires Valid() && descriptor == null && NewNumbers(current, full)
      modifies `descriptor, `snap, `edits
      ensures Valid() && descriptor != null && fresh(descriptor) && edits == [] && Unused([snap] + edits, full)
    {
      hide TotalOrder, Manifested, Tidy, Snapshot, Used, Short, LogFormat.After, NewNumbers, Unused;
      var w := new Writer(crc, []);
      var snapshot := Snapshot(name, pointers, current);
      var record := EncodeTo(snapshot, []);
      ManifestedFirst(crc, name, pointers, current, record);
      w.AddRecord(record);
      FirstUnused([snapshot] + [], current, full);
      snap, edits := snapshot, [];
      descriptor := w;
    }

    /** Log a completed edit and make its version the current one. */
    method AppendEdit(full: Edit, next: FileLists)
      requires Valid() && descriptor != null && WellFormed(name, full)
      requires full.logNumber.Some? && full.prevLogNumber.Some? && full.nextFile.Some? && full.lastSequence.Some?
      requires NewNumbers(current, full) && Unused([snap] + edits, full) && SavedOver(cmp, current, full, next)
      modifies `edits, `current, descriptor
      ensures Valid() && edits == old(edits) + [full] && current == next
    {
      hide TotalOrder, Manifested, Stands, Tidy, Short, NewNumbers, Unused, SavedOver, WellFormed, LogFormat.After;
      NextIsShort(name, pointers, current, full, next, cmp);
      TidyNext(cmp, current, full, next);
      var record := EncodeTo(full, []);
      ManifestedNext(crc, name, descriptor.dest, descriptor.blockOffset, current, snap, edits, full, next, record, cmp);
      descriptor.AddRecord(record);
      edits, current := edits + [full], next;
    }
  }

  ghost predicate WellFormed(name: Bytes, e: Edit) {
    PartsOk(e) && PairsSorted(e.deleted) && LevelsOk(e) && (e.comparator.Some? ==> e.comparator.value == name)
  }

  lemma WellFormedReadable(name: Bytes, e: Edit)
    requires WellFormed(name, e)
    ensures Readable(name, e)
  {
    FieldsAllOk(e);
  }

  lemma CompletedFits(name: Bytes, current: FileLists, es: seq<Edit>, e: Edit, full: Edit)
    requires WellFormed(name, e) && NewNumbers(current, e)
    requires exists l: nat, p: nat, n: nat, q: nat :: l < TWO64 && p < TWO64 && n < TWO64 && q < TWO64 && full == Completed(e, l, p, n, q)
    ensures WellFormed(name, full) && NewNumbers(current, full) && (Unused(es, e) ==> Unused(es, full)) && LevelsOk(full)
    ensures full.logNumber.value < TWO64 && full.prevLogNumber.value < TWO64
    ensures forall i | 0 <= i < |e.pointers| :: e.pointers[i].0 < LEVELS && |e.pointers[i].1| < TWO32
  {
    SamePart(e, full);
    hide Part, Used;
  }

  lemma SavedSame(cmp: Comparator, current: FileLists, e: Edit, full: Edit, next: FileLists)
    requires full.deleted == e.deleted && full.added == e.added && SavedOver(cmp, current, full, next)
    ensures SavedOver(cmp, current, e, next)
  {
    SamePart(e, full);
    hide Part;
  }

  lemma FirstUnused(es: seq<Edit>, current: FileLists, e: Edit)
    requires NewNumbers(current, e) && forall l | 0 <= l < LEVELS :: Used(es, l) == Numbers(Files(current[l]))
    ensures Unused(es, e)
  {
  }

  lemma SamePart(e: Edit, full: Edit)
    requires full.deleted == e.deleted && full.added == e.added
    ensures forall l: nat :: Part(full, l) == Part(e, l)
  {
  }

  lemma FirstRecord(crc: Checksum, e: Edit, record: Bytes)
    requires record == [] + Encoded(e)
    ensures Log(crc, 0, Records([e])) == [] + Fragments(crc, 0, record, true)
    ensures AfterAll(0, Records([e])) == After(0, |record|)
  {
    hide Encoded, Fragments, LogFormat.After;
    LogAppend(crc, 0, [], Encoded(e));
    assert [] + Encoded(e) == Encoded(e) && Records([e]) == [] + [Encoded(e)];
  }

  lemma RecordsLast(es: seq<Edit>, e: Edit)
    ensures Records(es + [e]) == Records(es) + [Encoded(e)]
  {
  }

  /** The compaction pointer of a level after these moves. */
  function LastPointer(p: Bytes, moved: seq<(nat, Bytes)>, l: nat): Bytes
    decreases |moved|
  {
    if moved == [] then p else LastPointer(if moved[0].0 == l then moved[0].1 else p, moved[1..], l)
  }

  lemma NextIsShort(name: Bytes, pointers: seq<Bytes>, current: FileLists, e: Edit, next: FileLists, cmp: Comparator)
    requires Short(name, pointers, current) && WellFormed(name, e) && SavedOver(cmp, current, e, next)
    ensures Short(name, pointers, next)
  {
    forall l, f | 0 <= l < LEVELS && f in next[l]
      ensures MetaOk(f)
    {
      assert f in Files(next[l]);
      assert f in Files(current[l]) || f in Part(e, l).added;
    }
  }

  /** Reopening after LogAndApply gives back the current version and the numbers of the last
      edit logged. */
  lemma RecoverIsCurrent(v: VersionSet, r: Option<Recovered>)
    requires v.Valid() && v.descriptor != null && v.edits != []
    requires var d := ReadEdits(v.crc, Opened(v.descriptor.dest), v.name); RecoveredFrom(v.cmp, d.0, d.1, r)
    ensures Reproduced(v.current, v.edits[|v.edits| - 1], r)
  {
    hide TotalOrder, Tidy, Manifested, Short, ReadEdits, RecoveredFrom, Reproduced;
    ManifestedRecovers(v.crc, v.cmp, v.name, v.descriptor.dest, v.descriptor.blockOffset, v.current, v.snap, v.edits, r);
  }
}
