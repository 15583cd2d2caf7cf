/** The tables an iterator of the database reads, and that they can be merged. */
module DbInputs {
  import opened Basics
  import opened DbFormat
  import opened MultiVersion
  import opened VersionFiles
  import opened VersionRead
  import opened CompactionMeaning
  import opened CompactionWork
  import opened CompactionInputs
  import opened CompactionSetup
  import opened Install
  import opened Store
  import opened StoreInvariant
  import opened MergeInputs

  function EntriesOf(fs: seq<File>): (r: seq<seq<Entry>>)
    ensures |r| == |fs| && forall i | 0 <= i < |r| :: r[i] == fs[i].entries
  {
    seq(|fs|, i requires 0 <= i < |fs| => fs[i].entries)
  }

  ghost predicate FilesOf(v: Version, fs: seq<File>) {
    && NoDuplicates(fs)
    && forall f | f in fs :: exists l :: 0 <= l < NUM_LEVELS && f in v[l]
  }

  lemma FilesComparable(v: Version, f: File, g: File)
    requires Sound(v) && f != g && FilesOf(v, [f]) && FilesOf(v, [g])
    ensures Comparable(f.entries, g.entries)
  {
    assert f in [f] && g in [g];
    var l :| 0 <= l < NUM_LEVELS && f in v[l];
    var m :| 0 <= m < NUM_LEVELS && g in v[m];
    SoundIsOrdered(v);
    LevelsLayer(v, 0);
    assert v[0..] == v;
    forall x, y | x in f.entries && y in g.entries
      ensures Before(x.ik, y.ik) || Before(y.ik, x.ik)
    {
      assert x in f.Content() && y in g.Content();
      VersionHas(v, x);
      VersionHas(v, y);
      FilesDisjoint(v, l, m, f, g, x);
    }
  }

  lemma FilesMergeable(v: Version, fs: seq<File>)
    requires Sound(v) && FilesOf(v, fs)
    ensures Mergeable(EntriesOf(fs))
  {
    forall j, k | 0 <= j < k < |fs|
      ensures Comparable(fs[j].entries, fs[k].entries)
    {
      assert fs[j] in fs && fs[k] in fs;
      FilesComparable(v, fs[j], fs[k]);
    }
  }

  lemma EntriesOfHold(fs: seq<File>, e: Entry)
    ensures Somewhere(EntriesOf(fs), e) <==> e in LevelContent(fs)
  {
    if j :| 0 <= j < |fs| && e in EntriesOf(fs)[j] {
      assert e in fs[j].entries;
    }
    if e in LevelContent(fs) {
      var i :| 0 <= i < |fs| && e in fs[i].entries;
      assert e in EntriesOf(fs)[i];
    }
  }

  // ----- The inputs of a compaction -----

  lemma JobFiles(v: Version, next: nat, j: Job)
    requires NumbersUnique(v, next) && Selected(v, j.level, j.in0, j.in1)
    ensures FilesOf(v, j.in0 + j.in1)
  {
    forall f, g | f in j.in0 && g in j.in1
      ensures f != g
    {
    }
    var fs := j.in0 + j.in1;
    forall a, b | 0 <= a < b < |fs|
      ensures fs[a] != fs[b]
    {
      assert a < |j.in0| <= b ==> fs[a] in j.in0 && fs[b] in j.in1;
    }
  }

  lemma JobInputs(s: State)
    requires Inv(s) && s.job.Some?
    ensures Mergeable(EntriesOf(s.job.value.in0 + s.job.value.in1))
    ensures forall l | 1 <= l < NUM_LEVELS :: LevelSorted(s.job.value.base[l])
    ensures s.job.value.level + 1 < NUM_LEVELS && s.job.value.smallest < MAX_SEQUENCE
  {
    var j := s.job.value;
    JobFiles(s.version, s.nextFile, j);
    FilesMergeable(s.version, j.in0 + j.in1);
  }

  lemma SplitContent(a: seq<File>, b: seq<File>)
    ensures LevelContent(a + b) == LevelContent(a) + LevelContent(b)
  {
    forall e
      ensures e in LevelContent(a + b) <==> e in LevelContent(a) + LevelContent(b)
    {
      InLevel(a + b, e);
      InLevel(a, e);
      InLevel(b, e);
      assert forall f :: f in a + b <==> f in a || f in b;
    }
  }

  lemma InputsMerged(s: State, merged: seq<Entry>)
    requires s.job.Some? && SortedEntries(merged)
    requires forall e :: e in merged <==> Somewhere(EntriesOf(s.job.value.in0 + s.job.value.in1), e)
    ensures EntrySet(merged) == s.job.value.Inputs() && InRange(merged)
  {
    var fs := s.job.value.in0 + s.job.value.in1;
    SplitContent(s.job.value.in0, s.job.value.in1);
    forall e
      ensures e in merged <==> e in LevelContent(fs)
    {
      EntriesOfHold(fs, e);
    }
    forall k | 0 <= k < |merged|
      ensures merged[k].ik.sequence <= MAX_SEQUENCE
    {
      assert merged[k] in merged;
      var i :| 0 <= i < |fs| && merged[k] in fs[i].entries;
      var f: File := fs[i];
      assert f.Ok();
    }
  }

  function Padded(marks: seq<bool>, n: nat): (r: seq<bool>)
    ensures |r| == n
  {
    seq(n, i requires 0 <= i < n => i < |marks| && marks[i])
  }

  lemma FinishStep(s: State, outs: seq<File>, s': State)
    requires Inv(s) && s.job.Some? && s.job.value.level + 1 < NUM_LEVELS
    requires LevelSorted(outs) && Numbered(outs, s.nextFile)
    requires LevelContent(outs) == Kept(s.job.value.Inputs(), s.job.value.smallest, s.job.value.Base())
    requires s' == s.(version := InstallInto(s.version, s.job.value.level, s.job.value.in0, s.job.value.in1, outs),
                      job := None, nextFile := s.nextFile + |outs|)
    ensures Inv(s') && Step(s, DoFinish(outs), s')
  {
    hide Inv, InstallInto, Kept, LevelSorted, LevelContent;
    assert FreshNumbers(outs, s.nextFile, s'.nextFile);
    assert FinishCompaction(s, outs, s');
    FinishKeepsInv(s, outs, s');
  }

  // ----- All layers -----

  function FilesFrom(v: Version, l: nat): (r: seq<File>)
    requires l <= NUM_LEVELS
    ensures forall f :: f in r <==> exists k :: l <= k < NUM_LEVELS && f in v[k]
    decreases NUM_LEVELS - l
  {
    if l == NUM_LEVELS then [] else v[l] + FilesFrom(v, l + 1)
  }

  lemma {:induction false} FilesFromDiffer(v: Version, next: nat, l: nat)
    requires Ordered(v) && NumbersUnique(v, next) && l <= NUM_LEVELS
    ensures NoDuplicates(FilesFrom(v, l))
    decreases NUM_LEVELS - l
  {
    if l < NUM_LEVELS {
      LevelNoDuplicates(v, l);
      FilesFromDiffer(v, next, l + 1);
      var a, b := v[l], FilesFrom(v, l + 1);
      forall i, j | 0 <= i < j < |a + b|
        ensures (a + b)[i] != (a + b)[j]
      {
        assert i < |a| <= j ==> (a + b)[i] in a && (a + b)[j] in b;
      }
    }
  }

  function Layers(mem: seq<Entry>, imm: seq<Entry>, v: Version): (r: seq<seq<Entry>>) {
    [mem, imm] + EntriesOf(FilesFrom(v, 0))
  }

  lemma NewerIsComparable(a: seq<Entry>, b: seq<Entry>)
    requires NewerThan(EntrySet(a), EntrySet(b))
    ensures Comparable(a, b)
  {
    forall x, y | x in a && y in b
      ensures Before(x.ik, y.ik) || Before(y.ik, x.ik)
    {
      assert x in EntrySet(a) && y in EntrySet(b);
    }
  }

  lemma NewerThanFile(a: seq<Entry>, v: Version, f: File)
    requires NewerThan(EntrySet(a), Content(v)) && f in FilesFrom(v, 0)
    ensures Comparable(a, f.entries)
  {
    forall y | y in EntrySet(f.entries)
      ensures y in Content(v)
    {
      assert y in f.Content();
      VersionHas(v, y);
    }
    NewerIsComparable(a, f.entries);
  }

  lemma LayersMerge(mem: seq<Entry>, imm: seq<Entry>, files: seq<seq<Entry>>)
    requires SortedEntries(mem) && SortedEntries(imm) && Mergeable(files) && Comparable(mem, imm)
    requires forall k | 0 <= k < |files| :: Comparable(mem, files[k]) && Comparable(imm, files[k])
    ensures Mergeable([mem, imm] + files)
  {
    var all := [mem, imm] + files;
    assert forall k | 2 <= k < |all| :: all[k] == files[k - 2];
    hide SortedEntries, Comparable;
  }

  lemma LayersMergeable(s: State)
    requires Inv(s)
    ensures Mergeable(Layers(s.mem, s.ImmEntries(), s.version))
  {
    SoundIsOrdered(s.version);
    hide Sound, Ordered, Mergeable, FilesOf, NewerThan, SortedEntries, NumbersUnique, Comparable, LevelSorted;
    var fs := FilesFrom(s.version, 0);
    FilesFromDiffer(s.version, s.nextFile, 0);
    assert FilesOf(s.version, fs) by { FilesFromOf(s.version, s.nextFile); }
    FilesMergeable(s.version, fs);
    NewerIsComparable(s.mem, s.ImmEntries());
    forall k | 0 <= k < |fs|
      ensures Comparable(s.mem, EntriesOf(fs)[k]) && Comparable(s.ImmEntries(), EntriesOf(fs)[k])
    {
      assert fs[k] in fs;
      NewerThanFile(s.mem, s.version, fs[k]);
      NewerThanFile(s.ImmEntries(), s.version, fs[k]);
    }
    LayersMerge(s.mem, s.ImmEntries(), EntriesOf(fs));
  }

  lemma FilesFromOf(v: Version, next: nat)
    requires Ordered(v) && NumbersUnique(v, next)
    ensures FilesOf(v, FilesFrom(v, 0))
  {
    FilesFromDiffer(v, next, 0);
  }

  lemma FilesFromContent(v: Version, e: Entry)
    ensures e in LevelContent(FilesFrom(v, 0)) <==> e in Content(v)
  {
    InLevel(FilesFrom(v, 0), e);
    VersionHas(v, e);
  }

  lemma TwoAndRest(a: seq<Entry>, b: seq<Entry>, rest: seq<seq<Entry>>, e: Entry)
    ensures Somewhere([a, b] + rest, e) <==> e in a || e in b || Somewhere(rest, e)
  {
    var all := [a, b] + rest;
    assert all[0] == a && all[1] == b;
    if j :| 0 <= j < |rest| && e in rest[j] {
      assert all[j + 2] == rest[j];
    }
    if j :| 0 <= j < |all| && e in all[j] {
      assert j >= 2 ==> all[j] == rest[j - 2];
    }
  }

  lemma LayersHold(s: State, merged: seq<Entry>)
    requires forall e :: e in merged <==> Somewhere(Layers(s.mem, s.ImmEntries(), s.version), e)
    ensures EntrySet(merged) == s.All()
  {
    hide Somewhere, LevelContent, Content;
    forall e
      ensures e in merged <==> e in s.All()
    {
      TwoAndRest(s.mem, s.ImmEntries(), EntriesOf(FilesFrom(s.version, 0)), e);
      EntriesOfHold(FilesFrom(s.version, 0), e);
      FilesFromContent(s.version, e);
    }
  }
}
