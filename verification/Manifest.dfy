/** The version set and its manifest: logging edits, and rebuilding the version from the log. */
module Manifests {
  import opened Basics
  import opened Coding
  import opened LogFormat
  import opened LogReader
  import opened VersionEdits
  import opened ManifestBuilding
  import opened ManifestEdits

  function Encoded(e: Edit): Bytes {
    EncodeFields(FieldsOf(e))
  }

  function Records(es: seq<Edit>): (r: seq<Bytes>)
    ensures |r| == |es| && forall i | 0 <= i < |es| :: r[i] == Encoded(es[i])
  {
    seq(|es|, i requires 0 <= i < |es| => Encoded(es[i]))
  }

  function Parts(es: seq<Edit>, l: nat): (r: seq<LevelEdit>)
    ensures |r| == |es| && forall i | 0 <= i < |es| :: r[i] == Part(es[i], l)
  {
    seq(|es|, i requires 0 <= i < |es| => Part(es[i], l))
  }

  function AddedBy(es: seq<Edit>, l: nat): set<FileMeta>
    decreases |es|
  {
    if es == [] then {} else Part(es[0], l).added + AddedBy(es[1..], l)
  }

  /** On each level every file number stands for one file. */
  ghost predicate WellNumbered(es: seq<Edit>) {
    forall l | 0 <= l < LEVELS :: DistinctNumbers(AddedBy(es, l))
  }

  // ----- Reading a manifest -----

  /** The edits a manifest yields, and whether it was read without an error. */
  function ReadEdits(crc: Checksum, s: Input, name: Bytes): (r: (seq<Edit>, bool))
    ensures forall e | e in r.0 :: LevelsOk(e)
    decreases |s.Unread()|
  {
    var o := NextRecord(crc, s, false, []);
    if o.drops != [] then ([], false)
    else if o.record.None? then ([], true)
    else
      DecodedLevels(NewEdit(), o.record.value);
      var d := DecodeFields(NewEdit(), o.record.value);
      if d.1.Some? || (d.0.comparator.Some? && d.0.comparator.value != name) then ([], false)
      else
        var more := ReadEdits(crc, o.input, name);
        ([d.0] + more.0, more.1)
  }

  lemma {:induction false} DecodedLevels(e: Edit, input: Bytes)
    requires LevelsOk(e)
    ensures LevelsOk(DecodeFields(e, input).0)
    decreases |input|
  {
    var tag := GetVarint32(input);
    if tag.Some? {
      Shorter(input);
      var p := ParsePayload(tag.value.value, tag.value.rest);
      if p.Ok? {
        SetLevels(e, p.field, tag.value.value, tag.value.rest);
        DecodedLevels(SetField(e, p.field), p.rest);
      }
    }
  }

  lemma SetLevels(e: Edit, f: Field, tag: nat, input: Bytes)
    requires LevelsOk(e) && ParsePayload(tag, input).Ok? && ParsePayload(tag, input).field == f
    ensures LevelsOk(SetField(e, f))
  {
    hide GetVarint64, GetVarint32, GetLengthPrefixed;
    if f.Deleted? {
      assert f.level < LEVELS;
      InsertedLevels(e.deleted, (f.level, f.file));
    }
  }

  lemma {:induction false} InsertedLevels(ds: seq<(nat, nat)>, d: (nat, nat))
    requires d.0 < LEVELS && forall i | 0 <= i < |ds| :: ds[i].0 < LEVELS
    ensures forall i | 0 <= i < |InsertPair(ds, d)| :: InsertPair(ds, d)[i].0 < LEVELS
  {
    if ds != [] {
      InsertedLevels(ds[1..], d);
    }
  }

  function Latest(a: Option<nat>, b: Option<nat>): Option<nat> {
    if b.Some? then b else a
  }

  /** The log, file and sequence numbers after an edit. */
  function Head(h: Edit, e: Edit): Edit {
    h.(logNumber := Latest(h.logNumber, e.logNumber), prevLogNumber := Latest(h.prevLogNumber, e.prevLogNumber),
       nextFile := Latest(h.nextFile, e.nextFile), lastSequence := Latest(h.lastSequence, e.lastSequence))
  }

  function HeadOf(h: Edit, es: seq<Edit>): Edit
    decreases |es|
  {
    if es == [] then h else HeadOf(Head(h, es[0]), es[1..])
  }

  datatype Recovered = Recovered(files: FileLists, logNumber: nat, prevLogNumber: nat, nextFile: nat,
                                 manifestNumber: nat, lastSequence: nat)

  /** The result of a recovery that read these edits. */
  ghost predicate RecoveredFrom(cmp: Comparator, es: seq<Edit>, ok: bool, r: Option<Recovered>) {
    var h := HeadOf(NewEdit(), es);
    if ok && h.nextFile.Some? && h.logNumber.Some? && h.lastSequence.Some? then
      && r.Some?
      && r.value.logNumber == h.logNumber.value && r.value.lastSequence == h.lastSequence.value
      && r.value.prevLogNumber == (if h.prevLogNumber.Some? then h.prevLogNumber.value else 0)
      && r.value.manifestNumber == h.nextFile.value && r.value.nextFile == h.nextFile.value + 1
      && forall l | 0 <= l < LEVELS ::
           Sorted(cmp, r.value.files[l]) && Files(r.value.files[l]) == Saved({}, ApplyAll(Fresh(), Parts(es, l)))
    else r.None?
  }

  /** Whatever the file: a manifest read without an error reports nothing, and none of its edits
      names another comparator. */
  lemma {:induction false} ReadEditsAreOwn(crc: Checksum, s: Input, name: Bytes)
    requires ReadEdits(crc, s, name).1
    ensures forall e | e in ReadEdits(crc, s, name).0 :: e.comparator.Some? ==> e.comparator.value == name
    ensures ReadLog(crc, s).1 == [] && |ReadLog(crc, s).0| == |ReadEdits(crc, s, name).0|
    ensures forall i | 0 <= i < |ReadLog(crc, s).0| ::
      DecodeFields(NewEdit(), ReadLog(crc, s).0[i]) == (ReadEdits(crc, s, name).0[i], None)
    decreases |s.Unread()|
  {
    hide NextRecord, DecodeFields;
    var o := NextRecord(crc, s, false, []);
    if o.record.Some? {
      ReadEditsAreOwn(crc, o.input, name);
      assert o.drops + ReadLog(crc, o.input).1 == [];
    }
  }

  /** A recovery succeeds only on a manifest whose every record is an edit of this comparator, and
      only if some edit gives each of the log, file and sequence numbers. */
  ghost predicate Complete(es: seq<Edit>, name: Bytes) {
    && (forall e | e in es :: e.comparator.Some? ==> e.comparator.value == name)
    && (exists e :: e in es && e.logNumber.Some?)
    && (exists e :: e in es && e.nextFile.Some?)
    && (exists e :: e in es && e.lastSequence.Some?)
  }

  lemma {:induction false} HeadIsGiven(h: Edit, es: seq<Edit>)
    ensures HeadOf(h, es).logNumber.Some? ==> h.logNumber.Some? || exists e :: e in es && e.logNumber.Some?
    ensures HeadOf(h, es).nextFile.Some? ==> h.nextFile.Some? || exists e :: e in es && e.nextFile.Some?
    ensures HeadOf(h, es).lastSequence.Some? ==> h.lastSequence.Some? || exists e :: e in es && e.lastSequence.Some?
    decreases |es|
  {
    if es != [] {
      HeadIsGiven(Head(h, es[0]), es[1..]);
      assert es[0] in es && forall e | e in es[1..] :: e in es;
    }
  }

  lemma RecoveredIsComplete(crc: Checksum, cmp: Comparator, name: Bytes, file: Bytes, r: Option<Recovered>)
    requires var d := ReadEdits(crc, Opened(file), name); RecoveredFrom(cmp, d.0, d.1, r)
    ensures r.Some? ==> Complete(ReadEdits(crc, Opened(file), name).0, name) && ReadLog(crc, Opened(file)).1 == []
  {
    if r.Some? {
      ReadEditsAreOwn(crc, Opened(file), name);
      HeadIsGiven(NewEdit(), ReadEdits(crc, Opened(file), name).0);
    }
    hide ReadEdits, ReadLog, HeadOf;
  }

  // ----- Edits read so far -----

  lemma {:induction false} ApplyAllLast(st: LevelState, es: seq<LevelEdit>, e: LevelEdit)
    ensures ApplyAll(st, es + [e]) == ApplyLevel(ApplyAll(st, es), e)
    decreases |es|
  {
    hide ApplyLevel;
    if es == [] {
      assert ([e])[1..] == [] && es + [e] == [e];
      assert ApplyAll(ApplyLevel(st, e), []) == ApplyLevel(st, e);
    } else {
      assert (es + [e])[0] == es[0] && (es + [e])[1..] == es[1..] + [e];
      ApplyAllLast(ApplyLevel(st, es[0]), es[1..], e);
    }
  }

  lemma {:induction false} HeadOfLast(h: Edit, es: seq<Edit>, e: Edit)
    ensures HeadOf(h, es + [e]) == Head(HeadOf(h, es), e)
    decreases |es|
  {
    hide Head;
    if es == [] {
      assert ([e])[1..] == [] && es + [e] == [e];
      assert HeadOf(Head(h, e), []) == Head(h, e);
    } else {
      assert (es + [e])[0] == es[0] && (es + [e])[1..] == es[1..] + [e];
      HeadOfLast(Head(h, es[0]), es[1..], e);
    }
  }

  lemma PartsLast(es: seq<Edit>, e: Edit, l: nat)
    ensures Parts(es + [e], l) == Parts(es, l) + [Part(e, l)]
  {
  }

  lemma {:induction false} AddedByAll(st: LevelState, es: seq<Edit>, l: nat)
    ensures ApplyAll(st, Parts(es, l)).added == st.added + AddedBy(es, l)
    decreases |es|
  {
    if es != [] {
      assert Parts(es, l)[1..] == Parts(es[1..], l);
      AddedByAll(ApplyLevel(st, Part(es[0], l)), es[1..], l);
    }
  }

  lemma {:induction false} AddedBySplit(a: seq<Edit>, b: seq<Edit>, l: nat)
    ensures AddedBy(a + b, l) == AddedBy(a, l) + AddedBy(b, l)
    decreases |a|
  {
    hide Part;
    if a == [] {
      assert a + b == b;
    } else {
      assert (a + b)[0] == a[0] && (a + b)[1..] == a[1..] + b;
      AddedBySplit(a[1..], b, l);
    }
  }

  lemma DistinctSubset(fs: set<FileMeta>, gs: set<FileMeta>)
    requires DistinctNumbers(gs) && fs <= gs
    ensures DistinctNumbers(fs)
  {
  }

  /** The whole list of edits is those done, then those still to come. */
  ghost predicate Continues(all: (seq<Edit>, bool), done: seq<Edit>, more: (seq<Edit>, bool)) {
    all == (done + more.0, more.1)
  }

  lemma ContinuesAt(all: (seq<Edit>, bool), done: seq<Edit>, more: (seq<Edit>, bool))
    requires Continues(all, done, more)
    ensures more.0 == [] ==> all == (done, more.1)
    ensures more.0 != [] ==> Continues(all, done + [more.0[0]], (more.0[1..], more.1))
  {
    assert done + [] == done;
    if more.0 != [] {
      assert done + more.0 == (done + [more.0[0]]) + more.0[1..];
    }
  }

  /** What one more edit needs of the builder, and does to it. */
  lemma OneMoreEdit(all: (seq<Edit>, bool), done: seq<Edit>, more: (seq<Edit>, bool), l: nat)
    requires Continues(all, done, more) && more.0 != [] && WellNumbered(all.0) && l < LEVELS
    ensures DistinctNumbers(ApplyAll(Fresh(), Parts(done, l)).added + Part(more.0[0], l).added)
    ensures ApplyAll(Fresh(), Parts(done + [more.0[0]], l)) == ApplyLevel(ApplyAll(Fresh(), Parts(done, l)), Part(more.0[0], l))
  {
    var e := more.0[0];
    AddedByAll(Fresh(), done, l);
    AddedBySplit(done, more.0, l);
    assert AddedBy(more.0, l) == Part(e, l).added + AddedBy(more.0[1..], l);
    DistinctSubset(AddedBy(done, l) + Part(e, l).added, AddedBy(all.0, l));
    PartsLast(done, e, l);
    ApplyAllLast(Fresh(), Parts(done, l), Part(e, l));
  }

  /** The builder has applied these edits. */
  ghost predicate Batched(levels: seq<LevelState>, es: seq<Edit>) {
    |levels| == LEVELS && forall l | 0 <= l < LEVELS :: levels[l] == ApplyAll(Fresh(), Parts(es, l))
  }

  ghost function States(deleted: seq<set<nat>>, added: seq<seq<FileMeta>>): (r: seq<LevelState>)
    requires |deleted| == LEVELS && |added| == LEVELS
    ensures |r| == LEVELS && forall l | 0 <= l < LEVELS :: r[l] == LevelState(deleted[l], Files(added[l]))
  {
    seq(LEVELS, l requires 0 <= l < LEVELS => LevelState(deleted[l], Files(added[l])))
  }

  lemma NothingBatched(levels: seq<LevelState>)
    requires |levels| == LEVELS && forall l | 0 <= l < LEVELS :: levels[l] == Fresh()
    ensures Batched(levels, [])
  {
    assert forall l: nat :: Parts([], l) == [];
  }

  lemma BatchedStep(all: (seq<Edit>, bool), done: seq<Edit>, more: (seq<Edit>, bool), levels: seq<LevelState>)
    requires Continues(all, done, more) && more.0 != [] && WellNumbered(all.0) && Batched(levels, done)
    ensures forall l | 0 <= l < LEVELS :: DistinctNumbers(levels[l].added + Part(more.0[0], l).added)
    ensures forall next | |next| == LEVELS && (forall l | 0 <= l < LEVELS :: next[l] == ApplyLevel(levels[l], Part(more.0[0], l))) ::
              Batched(next, done + [more.0[0]])
  {
    forall l | 0 <= l < LEVELS
      ensures DistinctNumbers(levels[l].added + Part(more.0[0], l).added)
      ensures ApplyAll(Fresh(), Parts(done + [more.0[0]], l)) == ApplyLevel(levels[l], Part(more.0[0], l))
    {
      OneMoreEdit(all, done, more, l);
    }
  }

  /** The loop of Recover: read, decode and apply until the end or the first error. */
  method ReadManifest(crc: Checksum, name: Bytes, file: Bytes, builder: Builder) returns (head: Edit, ok: bool)
    requires builder.Valid() && WellNumbered(ReadEdits(crc, Opened(file), name).0)
    requires forall l | 0 <= l < LEVELS :: builder.State(l) == Fresh()
    modifies builder
    ensures builder.Valid() && ok == ReadEdits(crc, Opened(file), name).1
    ensures head == HeadOf(NewEdit(), ReadEdits(crc, Opened(file), name).0)
    ensures Batched(States(builder.deleted, builder.added), ReadEdits(crc, Opened(file), name).0)
  {
    hide WellNumbered, Batched, Continues, Head, NextRecord, DecodeFields, Part, LevelsOk;
    var reader := new Reader(crc, file);
    ghost var all := ReadEdits(crc, Opened(file), name);
    ghost var done: seq<Edit> := [];
    head := NewEdit();
    assert forall l | 0 <= l < LEVELS :: States(builder.deleted, builder.added)[l] == builder.State(l);
    NothingBatched(States(builder.deleted, builder.added));
    AllToCome(all);
    while true
      invariant builder.Valid() && reader.crc == crc && fresh(reader)
      invariant head == HeadOf(NewEdit(), done) && Batched(States(builder.deleted, builder.added), done)
      invariant Continues(all, done, ReadEdits(crc, reader.Abs(), name))
      decreases |reader.Abs().Unread()|
    {
      ghost var more := ReadEdits(crc, reader.Abs(), name);
      ContinuesAt(all, done, more);
      var before := |reader.drops|;
      var record := reader.ReadRecord();
      if |reader.drops| > before {
        return head, false;
      }
      if record.None? {
        return head, true;
      }
      var e, failure := DecodeFrom(NewEdit(), record.value);
      if failure.Some? || (e.comparator.Some? && e.comparator.value != name) {
        return head, false;
      }
      BatchedStep(all, done, more, States(builder.deleted, builder.added));
      builder.Apply(e);
      HeadOfLast(NewEdit(), done, e);
      head := Head(head, e);
      done := done + [e];
    }
  }

  lemma AllToCome(all: (seq<Edit>, bool))
    ensures Continues(all, [], all)
  {
    assert [] + all.0 == all.0;
  }

  /** VersionSet::Recover, from the manifest's contents. */
  method Recover(crc: Checksum, cmp: Comparator, name: Bytes, file: Bytes) returns (r: Option<Recovered>)
    requires TotalOrder(cmp) && WellNumbered(ReadEdits(crc, Opened(file), name).0)
    ensures var d := ReadEdits(crc, Opened(file), name); RecoveredFrom(cmp, d.0, d.1, r)
    ensures r.Some? ==> Complete(ReadEdits(crc, Opened(file), name).0, name) && ReadLog(crc, Opened(file)).1 == []
  {
    r := RecoverFrom(crc, cmp, name, file);
    hide ReadEdits, WellNumbered, TotalOrder, RecoveredFrom, Complete;
    RecoveredIsComplete(crc, cmp, name, file, r);
  }

  method RecoverFrom(crc: Checksum, cmp: Comparator, name: Bytes, file: Bytes) returns (r: Option<Recovered>)
    requires TotalOrder(cmp) && WellNumbered(ReadEdits(crc, Opened(file), name).0)
    ensures var d := ReadEdits(crc, Opened(file), name); RecoveredFrom(cmp, d.0, d.1, r)
  {
    hide ReadEdits, WellNumbered, TotalOrder;
    var empty: FileLists := [[], [], [], [], [], [], []];
    var builder := new Builder(cmp, empty);
    var head, ok := ReadManifest(crc, name, file, builder);
    if !ok || head.nextFile.None? || head.logNumber.None? || head.lastSequence.None? {
      return None;
    }
    var lists := SaveAll(cmp, builder.base, builder.added, builder.deleted);
    var prevLogNumber := if head.prevLogNumber.Some? then head.prevLogNumber.value else 0;
    r := Some(Recovered(lists, head.logNumber.value, prevLogNumber, head.nextFile.value + 1, head.nextFile.value, head.lastSequence.value));
  }

  ghost predicate NoSharedNumbers(base: seq<FileMeta>, added: seq<FileMeta>) {
    forall f, g | f in base && g in added :: f.number != g.number
  }

  /** Builder::SaveTo, level by level. */
  method SaveAll(cmp: Comparator, base: FileLists, added: seq<seq<FileMeta>>, deleted: seq<set<nat>>) returns (lists: FileLists)
    requires TotalOrder(cmp) && |added| == LEVELS && |deleted| == LEVELS
    requires forall l | 0 <= l < LEVELS :: Sorted(cmp, base[l]) && Sorted(cmp, added[l]) && NoSharedNumbers(base[l], added[l])
    ensures forall l | 0 <= l < LEVELS :: Sorted(cmp, lists[l])
    ensures forall l | 0 <= l < LEVELS :: Files(lists[l]) == Saved(Files(base[l]), LevelState(deleted[l], Files(added[l])))
  {
    hide TotalOrder, Sorted, Files, Saved;
    lists := [[], [], [], [], [], [], []];
    for l := 0 to LEVELS
      invariant forall k | 0 <= k < l :: Sorted(cmp, lists[k])
      invariant forall k | 0 <= k < l :: Files(lists[k]) == Saved(Files(base[k]), LevelState(deleted[k], Files(added[k])))
    {
      var saved := SaveTo(cmp, base[l], added[l], deleted[l]);
      lists := lists[l := saved];
    }
  }
}
