/** The memtable: a skip list of entries in length-prefixed form, ordered by their keys. */
module MemTables {
  import opened Coding
  import opened InternalKeys
  import opened WriteBatches
  import SkipLists

  function KindOf(op: BatchOp): DbFormat.Kind {
    if op.Put? then DbFormat.Value else DbFormat.Deletion
  }

  function ValueOf(op: BatchOp): Bytes {
    if op.Put? then op.value else []
  }

  function KeyOf(e: MemEntry): ParsedKey {
    ParsedKey(e.op.key, e.sequence, KindOf(e.op))
  }

  predicate Storable(e: MemEntry) {
    e.sequence <= DbFormat.MAX_SEQUENCE && |e.op.key| + 8 < TWO32 && |ValueOf(e.op)| < TWO32
  }

  function EntryBytes(e: MemEntry): Bytes
    requires Storable(e)
  {
    LengthPrefixed(InternalKey(KeyOf(e))) + LengthPrefixed(ValueOf(e.op))
  }

  /** GetLengthPrefixedSlice at the start of a buffer that is not corrupted. */
  function Prefixed(buffer: Bytes): Parsed<Bytes> {
    match GetLengthPrefixed(buffer)
    case None => Parsed([], [])
    case Some(p) => p
  }

  lemma EntryParts(e: MemEntry)
    requires Storable(e)
    ensures Prefixed(EntryBytes(e)) == Parsed(InternalKey(KeyOf(e)), LengthPrefixed(ValueOf(e.op)))
    ensures Prefixed(LengthPrefixed(ValueOf(e.op))).value == ValueOf(e.op)
  {
    var v := LengthPrefixed(ValueOf(e.op));
    LengthPrefixedRoundTrip(InternalKey(KeyOf(e)), v);
    LengthPrefixedRoundTrip(ValueOf(e.op), []);
    assert v + [] == v;
  }

  /** KeyComparator: the keys at the start of two buffers are compared. A buffer too short to
      hold one, which never gets into the list, would come first. */
  function CompareBuffers(cmp: Comparator, a: Bytes, b: Bytes): int {
    var x, y := Prefixed(a).value, Prefixed(b).value;
    if |x| < 8 || |y| < 8 then (if |y| >= 8 then -1 else if |x| >= 8 then 1 else 0) else Compare(cmp, x, y)
  }

  function LessBuffers(cmp: Comparator): (Bytes, Bytes) -> bool {
    (a, b) => CompareBuffers(cmp, a, b) < 0
  }

  lemma BuffersAreOrdered(cmp: Comparator, a: Bytes, b: Bytes, c: Bytes)
    requires Ordering(cmp)
    ensures CompareBuffers(cmp, a, b) < 0 ==> CompareBuffers(cmp, b, a) >= 0
    ensures CompareBuffers(cmp, a, b) < 0 && CompareBuffers(cmp, c, b) >= 0 ==> CompareBuffers(cmp, a, c) < 0
    ensures CompareBuffers(cmp, b, a) >= 0 && CompareBuffers(cmp, b, c) < 0 ==> CompareBuffers(cmp, a, c) < 0
  {
    var x, y, z := Prefixed(a).value, Prefixed(b).value, Prefixed(c).value;
    hide Prefixed, Ordering, Compare;
    if |x| >= 8 && |y| >= 8 {
      CompareIsOrdering(cmp, x, y, x);
      if |z| >= 8 {
        CompareIsOrdering(cmp, x, y, z);
        CompareIsOrdering(cmp, z, y, x);
        CompareIsOrdering(cmp, z, x, y);
        CompareIsOrdering(cmp, y, z, x);
        CompareIsOrdering(cmp, y, x, z);
        CompareIsOrdering(cmp, x, z, y);
      }
    }
  }

  lemma LessIsOrdering(cmp: Comparator)
    requires Ordering(cmp)
    ensures SkipLists.Ordering(LessBuffers(cmp))
  {
    forall a: Bytes, b: Bytes, c: Bytes
      ensures LessBuffers(cmp)(a, b) ==> !LessBuffers(cmp)(b, a)
      ensures LessBuffers(cmp)(a, b) && !LessBuffers(cmp)(c, b) ==> LessBuffers(cmp)(a, c)
      ensures !LessBuffers(cmp)(b, a) && LessBuffers(cmp)(b, c) ==> LessBuffers(cmp)(a, c)
    {
      BuffersAreOrdered(cmp, a, b, c);
      hide CompareBuffers, Ordering;
    }
  }

  lemma BuffersCompare(cmp: Comparator, e: MemEntry, target: Bytes, p: ParsedKey)
    requires Ordering(cmp) && Storable(e) && Packable(p) && Prefixed(target).value == InternalKey(p)
    ensures CompareBuffers(cmp, EntryBytes(e), target) < 0 <==> Before(cmp, KeyOf(e), p)
    ensures CompareBuffers(cmp, target, EntryBytes(e)) < 0 <==> Before(cmp, p, KeyOf(e))
  {
    EntryParts(e);
    CompareIsBefore(cmp, KeyOf(e), p);
    CompareIsBefore(cmp, p, KeyOf(e));
  }

  /** Sequence numbers of one user key are never used twice. */
  predicate Clash(cmp: Comparator, a: MemEntry, b: MemEntry) {
    cmp(a.op.key, b.op.key) == 0 && a.sequence == b.sequence
  }

  /** Then the buffers differ in the list's order. */
  lemma NoClashIsOrdered(cmp: Comparator, a: MemEntry, b: MemEntry)
    requires Ordering(cmp) && Storable(a) && Storable(b) && !Clash(cmp, a, b)
    ensures LessBuffers(cmp)(EntryBytes(a), EntryBytes(b)) || LessBuffers(cmp)(EntryBytes(b), EntryBytes(a))
  {
    EntryParts(b);
    hide EntryBytes, Prefixed, CompareBuffers, InternalKey;
    BuffersCompare(cmp, a, EntryBytes(b), KeyOf(b));
    assert cmp(a.op.key, b.op.key) < 0 <==> cmp(b.op.key, a.op.key) > 0;
    assert cmp(b.op.key, a.op.key) < 0 <==> cmp(a.op.key, b.op.key) > 0;
  }

  ghost predicate Visible(cmp: Comparator, e: MemEntry, user: Bytes, q: nat) {
    cmp(e.op.key, user) == 0 && e.sequence <= q
  }

  /** The newest entry of a user key at or below a sequence number. */
  ghost predicate Newest(cmp: Comparator, items: set<MemEntry>, user: Bytes, q: nat, e: MemEntry) {
    e in items && Visible(cmp, e, user, q) &&
    forall x <- items :: Visible(cmp, x, user, q) ==> x.sequence <= e.sequence
  }

  /** The first entry not before a search key is the newest visible one of its user key, or
      there is none. */
  lemma FirstIsNewest(cmp: Comparator, e: MemEntry, x: MemEntry, user: Bytes, q: nat)
    requires Ordering(cmp) && Visible(cmp, x, user, q)
    requires !Before(cmp, KeyOf(e), ParsedKey(user, q, DbFormat.Value)) && !Before(cmp, KeyOf(x), KeyOf(e))
    ensures cmp(e.op.key, user) == 0 && x.sequence <= e.sequence <= q
  {
    var a, b := e.op.key, x.op.key;
    assert cmp(a, user) < 0 <==> cmp(user, a) > 0;
    assert cmp(user, a) < 0 <==> cmp(a, user) > 0;
    assert cmp(b, user) <= 0 && cmp(user, a) <= 0 ==> cmp(b, a) <= 0;
    assert cmp(user, b) < 0 <==> cmp(b, user) > 0;
    assert cmp(a, b) < 0 <==> cmp(b, a) > 0;
    assert cmp(b, a) < 0 <==> cmp(a, b) > 0;
    assert cmp(a, b) <= 0 && cmp(b, user) <= 0 ==> cmp(a, user) <= 0;
    assert cmp(user, b) <= 0 && cmp(b, a) <= 0 ==> cmp(user, a) <= 0;
  }

  lemma VisibleIsReached(cmp: Comparator, x: MemEntry, user: Bytes, q: nat)
    requires Ordering(cmp) && Visible(cmp, x, user, q)
    ensures !Before(cmp, KeyOf(x), ParsedKey(user, q, DbFormat.Value))
  {
  }

  datatype Lookup = Missing | Found(value: Bytes) | Deleted

  function Report(e: MemEntry): Lookup {
    if e.op.Put? then Found(e.op.value) else Deleted
  }

  lemma StorableIsPackable(e: MemEntry)
    requires Storable(e)
    ensures Packable(KeyOf(e))
  {
  }

  lemma SearchBuffer(p: ParsedKey)
    requires Packable(p) && |p.user| + 8 < TWO32
    ensures Prefixed(LengthPrefixed(InternalKey(p))).value == InternalKey(p)
  {
    var b := InternalKey(p);
    LengthPrefixedRoundTrip(b, []);
    assert LengthPrefixed(b) + [] == LengthPrefixed(b);
  }

  /** The buffers in the list are those of the entries. */
  ghost predicate Encoded(keys: set<Bytes>, items: set<MemEntry>) {
    && (forall e <- items :: Storable(e) && EntryBytes(e) in keys)
    && (forall k <- keys :: exists e :: EntryOf(items, e, k))
  }

  ghost predicate EntryOf(items: set<MemEntry>, e: MemEntry, buffer: Bytes) {
    e in items && Storable(e) && EntryBytes(e) == buffer
  }

  class MemTable {
    const cmp: Comparator
    const table: SkipLists.SkipList<Bytes>
    ghost var items: set<MemEntry>

    ghost predicate Valid()
      reads this, table
    {
      Ordering(cmp) && table.Valid() && table.mem.lt == LessBuffers(cmp) && Encoded(table.mem.Keys(), items)
    }

    constructor (cmp: Comparator)
      requires Ordering(cmp)
      ensures Valid() && this.cmp == cmp && items == {} && fresh(table)
    {
      LessIsOrdering(cmp);
      this.cmp := cmp;
      table := new SkipLists.SkipList(LessBuffers(cmp), []);
      items := {};
    }

    /** Add: the buffer is built piece by piece and inserted into the list, at a height the list
        draws by lot. */
    method Add(e: MemEntry, height: nat)
      requires Valid() && Storable(e) && 1 <= height <= SkipLists.MAX_HEIGHT
      requires forall x <- items :: !Clash(cmp, x, e)
      modifies this, table
      ensures Valid() && items == old(items) + {e}
    {
      hide Ordering, LessBuffers, EntryBytes, SkipLists.History, SkipLists.Ordering;
      var buf := BuildEntry(e);
      BufferIsNew(e, buf);
      hide Storable, Clash;
      table.Insert(buf, height);
      items := items + {e};
      assert EntryOf(items, e, buf);
      forall k | k in table.mem.Keys() ensures exists x :: EntryOf(items, x, k) {
        if k != buf {
          var x :| EntryOf(old(items), x, k);
          assert EntryOf(items, x, k);
        }
      }
    }

    lemma BufferIsNew(e: MemEntry, buf: Bytes)
      requires Valid() && Storable(e) && buf == EntryBytes(e) && forall x <- items :: !Clash(cmp, x, e)
      ensures table.mem.NewKey(buf)
    {
      hide LessBuffers, EntryBytes, Ordering, Clash, Storable, SkipLists.History, SkipLists.Ordering;
      forall x | x in table.mem.Members(0)
        ensures LessBuffers(cmp)(table.mem.keys[x], buf) || LessBuffers(cmp)(buf, table.mem.keys[x])
      {
        assert table.mem.keys[x] in table.mem.Keys();
        var a :| EntryOf(items, a, table.mem.keys[x]);
        NoClashIsOrdered(cmp, a, e);
      }
    }

    static lemma Pieces(a: Bytes, b: Bytes, c: Bytes, d: Bytes, e: Bytes)
      ensures (([] + a) + b) + c == a + (b + c)
      ensures ((((([] + a) + b) + c) + d) + e) == (a + (b + c)) + (d + e)
    {
    }

    static method BuildEntry(e: MemEntry) returns (buf: Bytes)
      requires Storable(e)
      ensures buf == EntryBytes(e)
    {
      hide Varint, Fixed64;
      var key, value := e.op.key, ValueOf(e.op);
      var tag := Fixed64(Pack(e.sequence, KindOf(e.op)));
      buf := EncodeVarint32([], |key| + 8);
      buf := buf + key;
      buf := buf + tag;
      buf := EncodeVarint32(buf, |value|);
      buf := buf + value;
      Pieces(Varint(|key| + 8), key, tag, Varint(|value|), value);
    }

    /** What a node found by a search says about every entry. */
    lemma FoundDecides(user: Bytes, q: nat, e: MemEntry, x: MemEntry, next: int, before: int)
      requires Valid() && |user| + 8 < TWO32 && q <= DbFormat.MAX_SEQUENCE && x in items && Visible(cmp, x, user, q)
      requires SkipLists.Found(table.mem, SkipLists.Key(LengthPrefixed(InternalKey(ParsedKey(user, q, DbFormat.Value)))), before, next)
      ensures 0 <= next < |table.mem.keys|
      ensures EntryOf(items, e, table.mem.keys[next]) ==> cmp(e.op.key, user) == 0 && x.sequence <= e.sequence <= q
    {
      var p := ParsedKey(user, q, DbFormat.Value);
      var target := LengthPrefixed(InternalKey(p));
      SearchBuffer(p);
      VisibleIsReached(cmp, x, user, q);
      hide Ordering, EntryBytes, CompareBuffers, Visible, Before, LengthPrefixed, InternalKey, Prefixed, SkipLists.History, SkipLists.Ordering;
      BuffersCompare(cmp, x, target, p);
      assert EntryBytes(x) in table.mem.Keys();
      var z :| z in table.mem.Members(0) && table.mem.keys[z] == EntryBytes(x);
      assert !table.mem.Above(SkipLists.Key(target), table.mem.keys[z]);
      if EntryOf(items, e, table.mem.keys[next]) {
        assert !table.mem.Above(SkipLists.Key(target), table.mem.keys[next]);
        BuffersCompare(cmp, e, target, p);
        EntryParts(e);
        StorableIsPackable(e);
        BuffersCompare(cmp, x, EntryBytes(e), KeyOf(e));
        FirstIsNewest(cmp, e, x, user, q);
      }
    }

    /** Get: seek in the skip list, compare the user key, and report by the type of the entry. */
    method Get(key: LookupKey) returns (r: Lookup)
      requires Valid() && key.Valid() && |key.user| + 8 < TWO32
      ensures r == Missing <==> forall e <- items :: !Visible(cmp, e, key.user, key.sequence)
      ensures r != Missing ==> exists e :: Newest(cmp, items, key.user, key.sequence, e) && r == Report(e)
    {
      hide EntryBytes, Ordering, LessBuffers, Storable, InternalKey, LengthPrefixed, SkipLists.History, SkipLists.Ordering;
      var memkey := key.MemtableKey();
      var next, before := FindInTable(memkey);
      NothingBeyond(key.user, key.sequence, next, before);
      if next == SkipLists.NIL {
        return Missing;
      }
      ghost var e :| EntryOf(items, e, table.mem.keys[next]);
      var user := key.UserKey();
      var same: bool;
      same, r := ReportBuffer(table.mem.keys[next], user, e);
      if !same {
        FoundIsNewest(key.user, key.sequence, e, next, before);
        return Missing;
      }
      FoundIsReached(key.user, key.sequence, e, next, before);
      FoundIsNewest(key.user, key.sequence, e, next, before);
      assert Newest(cmp, items, key.user, key.sequence, e);
    }

    ghost predicate FoundAt(user: Bytes, q: nat, next: int, before: int)
      requires q <= DbFormat.MAX_SEQUENCE && table.mem.Shape()
      reads this, table
    {
      SkipLists.Found(table.mem, SkipLists.Key(LengthPrefixed(InternalKey(ParsedKey(user, q, DbFormat.Value)))), before, next)
    }

    lemma NothingBeyond(user: Bytes, q: nat, next: int, before: int)
      requires Valid() && |user| + 8 < TWO32 && q <= DbFormat.MAX_SEQUENCE && FoundAt(user, q, next, before)
      ensures next == SkipLists.NIL ==> forall x <- items :: !Visible(cmp, x, user, q)
    {
      hide Ordering, EntryBytes, Visible, LengthPrefixed, InternalKey, SkipLists.Found, SkipLists.History, SkipLists.Ordering;
      forall x | x in items && Visible(cmp, x, user, q) ensures next != SkipLists.NIL {
        FoundDecides(user, q, x, x, next, before);
      }
    }

    lemma FoundIsNewest(user: Bytes, q: nat, e: MemEntry, next: int, before: int)
      requires Valid() && |user| + 8 < TWO32 && q <= DbFormat.MAX_SEQUENCE && FoundAt(user, q, next, before)
      requires 0 <= next < |table.mem.keys| && EntryOf(items, e, table.mem.keys[next])
      ensures forall x | x in items && Visible(cmp, x, user, q) :: cmp(e.op.key, user) == 0 && x.sequence <= e.sequence
    {
      hide Ordering, EntryBytes, Visible, LengthPrefixed, InternalKey, SkipLists.Found, SkipLists.History, SkipLists.Ordering;
      forall x | x in items && Visible(cmp, x, user, q) ensures cmp(e.op.key, user) == 0 && x.sequence <= e.sequence {
        FoundDecides(user, q, e, x, next, before);
      }
    }

    method FindInTable(memkey: Bytes) returns (next: int, ghost before: int)
      requires Valid()
      ensures SkipLists.Found(table.mem, SkipLists.Key(memkey), before, next)
      ensures next != SkipLists.NIL ==> 0 <= next < |table.mem.keys| && table.mem.keys[next] in table.mem.Keys()
    {
      next, before := table.FindGreaterOrEqual(memkey, null);
    }

    lemma FoundIsReached(user: Bytes, q: nat, e: MemEntry, next: int, before: int)
      requires Valid() && |user| + 8 < TWO32 && q <= DbFormat.MAX_SEQUENCE
      requires SkipLists.Found(table.mem, SkipLists.Key(LengthPrefixed(InternalKey(ParsedKey(user, q, DbFormat.Value)))), before, next)
      requires 0 <= next < |table.mem.keys| && EntryOf(items, e, table.mem.keys[next]) && cmp(e.op.key, user) == 0
      ensures Visible(cmp, e, user, q)
    {
      var p := ParsedKey(user, q, DbFormat.Value);
      var target := LengthPrefixed(InternalKey(p));
      SearchBuffer(p);
      hide EntryBytes, CompareBuffers, LengthPrefixed, InternalKey, Prefixed, SkipLists.History, SkipLists.Ordering;
      assert !table.mem.Above(SkipLists.Key(target), table.mem.keys[next]);
      BuffersCompare(cmp, e, target, p);
    }

    /** Take an entry apart again. */
    method ReportBuffer(buffer: Bytes, user: Bytes, ghost e: MemEntry) returns (same: bool, r: Lookup)
      requires Storable(e) && buffer == EntryBytes(e)
      ensures same == (cmp(e.op.key, user) == 0) && r == Report(e)
    {
      hide EntryBytes, Prefixed, InternalKey, ExtractUserKey, TagOf;
      EntryParts(e);
      InternalKeyParts(KeyOf(e));
      var p := Prefixed(buffer);
      same := cmp(ExtractUserKey(p.value), user) == 0;
      r := if TagOf(p.value) % 256 == 1 then Found(Prefixed(p.rest).value) else Deleted;
    }
  }
}
