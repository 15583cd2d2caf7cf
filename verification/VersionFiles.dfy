/** Tables, the files of a level, and the searches over them. */
module VersionFiles {
  import opened DbFormat
  import opened MultiVersion

  datatype FileData = FileData(number: nat, size: nat, entries: seq<Entry>) {
    predicate Ok() {
      && entries != []
      && SortedEntries(entries)
      && forall i | 0 <= i < |entries| :: entries[i].ik.sequence <= MAX_SEQUENCE
    }

    function Smallest(): InternalKey
      requires entries != []
    {
      entries[0].ik
    }

    function Largest(): InternalKey
      requires entries != []
    {
      entries[|entries| - 1].ik
    }

    ghost function Content(): set<Entry> {
      EntrySet(entries)
    }
  }

  /** A finished table: never empty, strictly sorted; its key range is that of its entries. */
  type File = f: FileData | f.Ok()
    witness FileData(0, 0, [Entry(InternalKey(0, 0, Value), "")])

  type Version = v: seq<seq<File>> | |v| == NUM_LEVELS
    witness [[], [], [], [], [], [], []]

  ghost predicate LevelSorted(fs: seq<File>) {
    forall i, j | 0 <= i < j < |fs| :: Before(fs[i].Largest(), fs[j].Smallest())
  }

  ghost function LevelContent(fs: seq<File>): set<Entry> {
    set i, e | 0 <= i < |fs| && e in fs[i].entries :: e
  }

  lemma InLevel(fs: seq<File>, e: Entry)
    ensures e in LevelContent(fs) <==> exists f :: f in fs && e in f.Content()
  {
    if e in LevelContent(fs) {
      var i :| 0 <= i < |fs| && e in fs[i].entries;
      assert fs[i] in fs && e in fs[i].Content();
    }
    if f :| f in fs && e in f.Content() {
      var i :| 0 <= i < |fs| && fs[i] == f;
      assert e in fs[i].entries;
    }
  }

  /** The entries of a file lie within its key range. */
  lemma FileRange(f: File, e: Entry)
    requires e in f.entries
    ensures e.ik == f.Smallest() || Before(f.Smallest(), e.ik)
    ensures e.ik == f.Largest() || Before(e.ik, f.Largest())
    ensures f.Smallest().user <= e.ik.user <= f.Largest().user
  {
    var k :| 0 <= k < |f.entries| && f.entries[k] == e;
  }

  /** Seek over sorted entries: the first one not before the target. */
  function SeekIndex(es: seq<Entry>, target: InternalKey): (k: nat)
    requires SortedEntries(es)
    ensures k <= |es|
    ensures forall i | 0 <= i < k :: Less(es[i].ik, target)
    ensures k < |es| ==> !Less(es[k].ik, target)
  {
    if es == [] || !Less(es[0].ik, target) then 0
    else
      var k := SeekIndex(es[1..], target);
      assert forall i | 0 < i < k + 1 :: es[i] == es[1..][i - 1];
      k + 1
  }

  /** The entry found by a seek decides a lookup over any set it splits. */
  lemma SeekDecides(s: set<Entry>, u: UserKey, q: nat, e: Entry)
    requires Distinct(s) && e in s && !Less(e.ik, SeekKey(u, q))
    requires forall x | x in s :: Less(x.ik, SeekKey(u, q)) || x == e || Before(e.ik, x.ik)
    ensures Newest(s, u, q) == if e.ik.user == u then Report(e) else Missing
  {
    forall x | x in s && VisibleAt(x, u, q)
      ensures e.ik.user == u && x.ik.sequence <= e.ik.sequence
    {
      SeekKeySplits(x.ik, u, q);
      SeekKeySplits(e.ik, u, q);
      assert x == e || Before(e.ik, x.ik);
    }
    SeekKeySplits(e.ik, u, q);
    if e.ik.user == u {
      assert IsNewest(s, u, q, e);
      NewestIs(s, u, q, e);
    } else {
      NewestMissing(s, u, q);
    }
  }

  lemma SeekAllBefore(s: set<Entry>, u: UserKey, q: nat)
    requires forall x | x in s :: Less(x.ik, SeekKey(u, q))
    ensures Newest(s, u, q) == Missing
  {
    forall x | x in s
      ensures !VisibleAt(x, u, q)
    {
      SeekKeySplits(x.ik, u, q);
    }
    NewestMissing(s, u, q);
  }

  lemma SortedDistinct(es: seq<Entry>)
    requires SortedEntries(es)
    ensures Distinct(EntrySet(es))
  {
  }

  /** MemTable::Get and the table lookup behind TableCache::Get: seek, then compare user keys. */
  function SeekGet(es: seq<Entry>, u: UserKey, q: nat): (r: Lookup)
    requires SortedEntries(es)
    ensures r == Newest(EntrySet(es), u, q)
  {
    var k := SeekIndex(es, SeekKey(u, q));
    SortedDistinct(es);
    if k < |es| then
      assert forall x | x in EntrySet(es) :: Less(x.ik, SeekKey(u, q)) || x == es[k] || Before(es[k].ik, x.ik);
      SeekDecides(EntrySet(es), u, q, es[k]);
      if es[k].ik.user == u then Report(es[k]) else Missing
    else
      SeekAllBefore(EntrySet(es), u, q);
      Missing
  }

  /** The halving of a range of files, wherever it leads. */
  function SearchRange(files: seq<File>, key: InternalKey, left: nat, right: nat): (r: nat)
    requires left <= right <= |files|
    ensures left <= r <= right
    decreases right - left
  {
    if left == right then left
    else
      var mid := (left + right) / 2;
      if Less(files[mid].Largest(), key) then SearchRange(files, key, mid + 1, right)
      else SearchRange(files, key, left, mid)
  }

  /** Binary search: on a sorted level, the first file whose largest key is at or after the key. */
  method FindFile(files: seq<File>, key: InternalKey) returns (right: nat)
    ensures right <= |files| && right == SearchRange(files, key, 0, |files|)
    ensures LevelSorted(files) ==> StopsAt(files, key, right)
  {
    var left := 0;
    right := |files|;
    while left < right
      invariant 0 <= left <= right <= |files|
      invariant SearchRange(files, key, 0, |files|) == SearchRange(files, key, left, right)
    {
      var mid := (left + right) / 2;
      if Less(files[mid].Largest(), key) {
        left := mid + 1;
      } else {
        right := mid;
      }
    }
    if LevelSorted(files) {
      SearchStops(files, key, 0, |files|);
    }
  }

  /** The files before an index end before the key, the others do not. */
  ghost predicate StopsAt(files: seq<File>, key: InternalKey, right: nat) {
    && right <= |files|
    && (forall i | 0 <= i < right :: Less(files[i].Largest(), key))
    && (forall i | right <= i < |files| :: !Less(files[i].Largest(), key))
  }

  lemma {:induction false} SearchStops(files: seq<File>, key: InternalKey, left: nat, right: nat)
    requires LevelSorted(files) && left <= right <= |files|
    requires forall i | 0 <= i < left :: Less(files[i].Largest(), key)
    requires forall i | right <= i < |files| :: !Less(files[i].Largest(), key)
    ensures StopsAt(files, key, SearchRange(files, key, left, right))
    decreases right - left
  {
    if left < right {
      var mid := (left + right) / 2;
      LargestOrder(files);
      if Less(files[mid].Largest(), key) {
        forall i | 0 <= i < mid
          ensures Less(files[i].Largest(), key)
        {
          CompareIsTotalOrder(files[i].Largest(), files[mid].Largest(), key);
        }
        SearchStops(files, key, mid + 1, right);
      } else {
        forall i | mid <= i < |files|
          ensures !Less(files[i].Largest(), key)
        {
          CompareIsTotalOrder(files[mid].Largest(), files[i].Largest(), key);
        }
        SearchStops(files, key, left, mid);
      }
    }
  }

  lemma LargestOrder(files: seq<File>)
    requires LevelSorted(files)
    ensures forall i, j | 0 <= i < j < |files| :: Less(files[i].Largest(), files[j].Largest())
  {
    forall i, j | 0 <= i < j < |files|
      ensures Less(files[i].Largest(), files[j].Largest())
    {
      var f := files[j];
      FileRange(f, f.entries[|f.entries| - 1]);
    }
  }

  /** A range end: absent (unbounded) or a user key. */
  datatype Bound = Unbounded | At(key: UserKey)

  predicate AfterFile(lo: Bound, f: File) {
    lo.At? && lo.key > f.Largest().user
  }

  predicate BeforeFile(hi: Bound, f: File) {
    hi.At? && hi.key < f.Smallest().user
  }

  predicate Overlaps(f: File, lo: Bound, hi: Bound) {
    !AfterFile(lo, f) && !BeforeFile(hi, f)
  }

  /** Version::OverlapInLevel: every file is tested at level 0, one binary search elsewhere. */
  method SomeFileOverlapsRange(disjointSorted: bool, files: seq<File>, lo: Bound, hi: Bound) returns (r: bool)
    requires disjointSorted ==> LevelSorted(files)
    ensures r <==> exists f :: f in files && Overlaps(f, lo, hi)
  {
    if !disjointSorted {
      for i := 0 to |files|
        invariant forall k | 0 <= k < i :: !Overlaps(files[k], lo, hi)
      {
        if !(AfterFile(lo, files[i]) || BeforeFile(hi, files[i])) {
          assert files[i] in files && Overlaps(files[i], lo, hi);
          return true;
        }
      }
      return false;
    }
    var index := 0;
    if lo.At? {
      index := FindFile(files, InternalKey(lo.key, MAX_SEQUENCE, Value));
    }
    forall k | 0 <= k < |files|
      ensures k < index <==> AfterFile(lo, files[k])
    {
      if lo.At? {
        SeekKeySplits(files[k].Largest(), lo.key, MAX_SEQUENCE);
      }
    }
    if index >= |files| {
      return false;
    }
    r := !BeforeFile(hi, files[index]);
    assert r ==> files[index] in files && Overlaps(files[index], lo, hi);
    forall k | index <= k < |files|
      ensures BeforeFile(hi, files[index]) ==> BeforeFile(hi, files[k])
    {
      SmallestOrder(files, index, k);
    }
  }

  lemma SmallestOrder(files: seq<File>, i: nat, j: nat)
    requires LevelSorted(files) && i <= j < |files|
    ensures files[i].Smallest().user <= files[j].Smallest().user
    ensures files[i].Largest().user <= files[j].Largest().user
    ensures i < j ==> Before(files[i].Smallest(), files[j].Smallest())
  {
    var f, g := files[i], files[j];
    FileRange(f, f.entries[|f.entries| - 1]);
    FileRange(g, g.entries[|g.entries| - 1]);
  }
}
