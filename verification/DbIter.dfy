/** The user-level iterator: a cursor over the live user keys at one sequence number, built
    on an iterator that yields every version of every key. */
module DbIterator {
  import opened Basics
  import opened DbFormat
  import opened MultiVersion
  import opened Merging
  import opened VersionFiles

  ghost predicate Seen(es: seq<Entry>, q: nat, k: int) {
    0 <= k < |es| && es[k].ik.sequence <= q
  }

  /** Position k is what a reader at q sees of its user key: the newest visible entry, a value. */
  ghost predicate Yields(es: seq<Entry>, q: nat, k: int) {
    && Seen(es, q, k) && es[k].ik.kind.Value?
    && forall i | 0 <= i < k && es[i].ik.user == es[k].ik.user :: !Seen(es, q, i)
  }

  /** The cursor positions are exactly the keys a Get at q would find. */
  lemma YieldsIsFound(es: seq<Entry>, q: nat, k: nat)
    requires SortedEntries(es) && k < |es|
    ensures Yields(es, q, k) ==> Newest(EntrySet(es), es[k].ik.user, q) == Found(es[k].value)
    ensures Newest(EntrySet(es), es[k].ik.user, q).Found? ==>
      exists j :: Yields(es, q, j) && es[j].ik.user == es[k].ik.user
  {
    var s, u := EntrySet(es), es[k].ik.user;
    SortedDistinct(es);
    if Yields(es, q, k) {
      forall x | x in s && VisibleAt(x, u, q)
        ensures x.ik.sequence <= es[k].ik.sequence
      {
        var i :| 0 <= i < |es| && es[i] == x;
        assert Seen(es, q, i);
        assert i == k || Before(es[k].ik, es[i].ik);
      }
      assert IsNewest(s, u, q, es[k]);
      NewestIs(s, u, q, es[k]);
    }
    if Newest(s, u, q).Found? {
      NewestMissing(s, u, q);
      var e :| e in s && VisibleAt(e, u, q);
      var n := NewestExists(s, u, q, e);
      NewestIs(s, u, q, n);
      var j :| 0 <= j < |es| && es[j] == n;
      forall i | 0 <= i < j && es[i].ik.user == u
        ensures !Seen(es, q, i)
      {
        assert Before(es[i].ik, es[j].ik) && es[i] in s;
        assert Seen(es, q, i) ==> VisibleAt(es[i], u, q);
      }
      assert Yields(es, q, j);
    }
  }

  ghost predicate FirstYield(es: seq<Entry>, q: nat, from: int, k: int) {
    from <= k && Yields(es, q, k) && forall i | from <= i < k :: !Yields(es, q, i)
  }

  ghost predicate LastYield(es: seq<Entry>, q: nat, upTo: int, k: int) {
    k <= upTo && Yields(es, q, k) && forall i | k < i <= upTo :: !Yields(es, q, i)
  }

  /** What a forward scan from p may rely on; skip, when set, is the key being skipped. */
  ghost predicate Skippable(es: seq<Entry>, q: nat, p: int, skip: Option<UserKey>) {
    && (skip.Some? ==> forall i | p <= i < |es| && Seen(es, q, i) :: skip.value <= es[i].ik.user)
    && (forall i, k | 0 <= i < p <= k < |es| && es[i].ik.user == es[k].ik.user && Seen(es, q, i) ::
          skip.Some? && es[k].ik.user <= skip.value)
  }

  ghost predicate Wanted(es: seq<Entry>, q: nat, k: int, skip: Option<UserKey>) {
    Yields(es, q, k) && (skip.Some? ==> es[k].ik.user > skip.value)
  }

  lemma WantedWithoutSkip(es: seq<Entry>, q: nat, from: int, to: int)
    requires NoneWanted(es, q, from, to, None)
    ensures forall i | from <= i < to :: !Yields(es, q, i)
  {
    forall i | from <= i < to
      ensures !Yields(es, q, i)
    {
      assert !Wanted(es, q, i, None);
    }
  }

  /** From p on, two skip states want the same positions. */
  ghost predicate SameWants(es: seq<Entry>, q: nat, p: int, skip: Option<UserKey>, other: Option<UserKey>) {
    forall i | p <= i < |es| :: Wanted(es, q, i, skip) <==> Wanted(es, q, i, other)
  }

  ghost predicate NoneWanted(es: seq<Entry>, q: nat, from: int, to: int, skip: Option<UserKey>) {
    forall i | from <= i < to :: !Wanted(es, q, i, skip)
  }

  /** One entry of a forward scan: the skip state after it, when it is not the one to show. */
  function SkipAfter(e: Entry, q: nat, skip: Option<UserKey>): Option<UserKey> {
    if e.ik.sequence <= q && e.ik.kind.Deletion? then Some(e.ik.user) else skip
  }

  predicate Shows(e: Entry, q: nat, skip: Option<UserKey>) {
    e.ik.sequence <= q && e.ik.kind.Value? && (skip.Some? ==> e.ik.user > skip.value)
  }

  /** A forward scan begun at p with skip0 has reached at, with nothing to show so far. */
  ghost predicate Scanned(es: seq<Entry>, q: nat, p: int, at: int, skip0: Option<UserKey>, skip: Option<UserKey>) {
    && 0 <= p <= at <= |es| && Skippable(es, q, at, skip)
    && NoneWanted(es, q, p, at, skip0) && SameWants(es, q, at, skip0, skip)
  }

  lemma ScanStep(es: seq<Entry>, q: nat, p: int, at: int, skip0: Option<UserKey>, skip: Option<UserKey>)
    requires SortedEntries(es) && at < |es| && Scanned(es, q, p, at, skip0, skip)
    ensures Shows(es[at], q, skip) <==> Wanted(es, q, at, skip0)
    ensures !Shows(es[at], q, skip) ==> Scanned(es, q, p, at + 1, skip0, SkipAfter(es[at], q, skip))
  {
    if Seen(es, q, at) && es[at].ik.kind.Deletion? {
      SkipDeleted(es, q, at, skip);
    }
    assert Shows(es[at], q, skip) <==> Wanted(es, q, at, skip);
    assert Wanted(es, q, at, skip) <==> Wanted(es, q, at, skip0);
  }

  lemma SkipDeleted(es: seq<Entry>, q: nat, p: int, skip: Option<UserKey>)
    requires SortedEntries(es) && Skippable(es, q, p, skip) && Seen(es, q, p)
    requires es[p].ik.kind.Deletion?
    ensures Skippable(es, q, p + 1, Some(es[p].ik.user))
    ensures SameWants(es, q, p + 1, skip, Some(es[p].ik.user))
  {
    forall i | p < i < |es|
      ensures es[p].ik.user <= es[i].ik.user
      ensures es[p].ik.user == es[i].ik.user ==> !Yields(es, q, i)
    {
      assert Before(es[p].ik, es[i].ik);
    }
    forall i, k | 0 <= i < p + 1 <= k < |es| && es[i].ik.user == es[k].ik.user && Seen(es, q, i)
      ensures es[k].ik.user <= es[p].ik.user
    {
      assert i == p || Before(es[i].ik, es[p].ik);
    }
  }

  datatype Direction = Forward | Reverse

  class DBIter {
    const iter: MergingIterator
    const sequence: nat
    var savedKey: Option<UserKey>
    var savedValue: string
    var direction: Direction
    var valid: bool
    /** The merged position whose key and value are shown, while valid. */
    ghost var cur: int

    ghost function Entries(): seq<Entry> {
      iter.merged
    }

    /** Nothing visible lies between the inner iterator and the saved key's entries. */
    ghost predicate JustBefore()
      reads this, iter
      requires iter.OK() && 0 <= cur < |Entries()|
    {
      var es := Entries();
      && savedKey.Some? && savedKey == Some(es[cur].ik.user) && savedValue == es[cur].value
      && (iter.Valid() ==> es[iter.at].ik.user < es[cur].ik.user)
      && forall i | (if iter.Valid() then iter.at else -1) < i < cur :: Seen(es, sequence, i) ==> es[i].ik.user >= es[cur].ik.user
    }

    ghost predicate OK()
      reads this, iter
    {
      && iter.OK()
      && (valid ==>
            && Yields(Entries(), sequence, cur)
            && if direction == Forward then iter.Valid() && iter.at == cur else 0 <= cur < |Entries()| && JustBefore())
    }

    constructor (iter: MergingIterator, sequence: nat)
      requires iter.OK()
      ensures OK() && !valid && this.iter == iter && this.sequence == sequence
    {
      this.iter, this.sequence := iter, sequence;
      savedKey, savedValue, direction, valid, cur := None, "", Forward, false, 0;
    }

    function Key(): (u: UserKey)
      reads this, iter
      requires OK() && valid
      ensures u == Entries()[cur].ik.user
    {
      if direction == Forward then iter.Key().ik.user else savedKey.value
    }

    function Value(): (v: string)
      reads this, iter
      requires OK() && valid
      ensures v == Entries()[cur].value
    {
      if direction == Forward then iter.Key().value else savedValue
    }

    /** The forward loop. The skipping flag and the key to skip are one option here: while
        the flag is unset the key is only storage. */
    method ScanForward(skip0: Option<UserKey>) returns (found: bool)
      requires iter.OK() && iter.Valid() && SortedEntries(Entries())
      requires Skippable(Entries(), sequence, iter.at, skip0)
      modifies iter
      ensures iter.OK() && (found <==> iter.Valid())
      ensures found ==> old(iter.at) <= iter.at && Wanted(Entries(), sequence, iter.at, skip0)
      ensures NoneWanted(Entries(), sequence, old(iter.at), if found then iter.at else |Entries()|, skip0)
    {
      var skip := skip0;
      ghost var p := iter.at;
      ghost var es := Entries();
      while true
        invariant iter.OK() && iter.Valid()
        invariant Scanned(es, sequence, p, iter.at, skip0, skip)
        decreases |es| - iter.at
      {
        var e := iter.Key();
        ScanStep(es, sequence, p, iter.at, skip0, skip);
        if Shows(e, sequence, skip) {
          return true;
        }
        skip := SkipAfter(e, sequence, skip);
        iter.Next();
        if !iter.Valid() {
          return false;
        }
      }
    }

    method FindNextUserEntry(skip: Option<UserKey>)
      requires iter.OK() && iter.Valid() && direction == Forward
      requires SortedEntries(Entries()) && Skippable(Entries(), sequence, iter.at, skip)
      modifies this`valid, this`savedKey, this`cur, iter
      ensures OK()
      ensures valid ==> old(iter.at) <= cur && Wanted(Entries(), sequence, cur, skip)
      ensures NoneWanted(Entries(), sequence, old(iter.at), if valid then cur else |Entries()|, skip)
    {
      valid := ScanForward(skip);
      savedKey, cur := None, iter.at;
    }

    /** Scanning backwards: what is remembered of the entries in (at, p]. When a value is
        remembered it is the last visible entry met. */
    ghost predicate Met(es: seq<Entry>, at: int, p: int, kept: bool, lv: int) {
      if kept then
        && at < lv <= p && Seen(es, sequence, lv) && es[lv].ik.kind.Value?
        && (forall i | at < i < lv :: !Seen(es, sequence, i))
        && (forall i | lv < i <= p :: !Yields(es, sequence, i))
      else
        forall i | at < i <= p :: !Yields(es, sequence, i)
    }

    lemma NothingMet(es: seq<Entry>, p: int)
      ensures Met(es, p, p, false, -1)
    {
    }

    /** An entry that is not visible changes nothing. */
    lemma MetUnseen(es: seq<Entry>, at: int, p: int, kept: bool, lv: int)
      requires 0 <= at <= p < |es| && Met(es, at, p, kept, lv) && !Seen(es, sequence, at)
      ensures Met(es, at - 1, p, kept, lv)
    {
    }

    lemma MetRange(es: seq<Entry>, at: int, p: int, lv: int)
      requires Met(es, at, p, true, lv)
      ensures at < lv <= p
    {
    }

    lemma MetStep(es: seq<Entry>, at: int, p: int, kept: bool, lv: int)
      requires SortedEntries(es) && 0 <= at <= p < |es| && Met(es, at, p, kept, lv)
      requires Seen(es, sequence, at) && (kept ==> es[at].ik.user >= es[lv].ik.user)
      ensures Met(es, at - 1, p, es[at].ik.kind.Value?, at)
    {
      if kept {
        assert Before(es[at].ik, es[lv].ik);
        assert !Yields(es, sequence, lv);
      }
    }

    lemma MetYields(es: seq<Entry>, at: int, p: int, lv: int)
      requires SortedEntries(es) && -1 <= at <= p < |es| && Met(es, at, p, true, lv)
      requires at >= 0 ==> es[at].ik.user < es[lv].ik.user
      ensures LastYield(es, sequence, p, lv)
    {
      forall i | 0 <= i <= at
        ensures es[i].ik.user <= es[at].ik.user
      {
        assert i == at || Before(es[i].ik, es[at].ik);
      }
    }

    ghost function Reached(): int
      reads this, iter
    {
      if iter.Valid() then iter.at else -1
    }

    /** The backward loop: stop at a visible entry of an earlier key once a value is kept. */
    method ScanBack() returns (kept: bool, key: UserKey, value: string, ghost lv: int)
      requires iter.OK() && iter.Valid() && SortedEntries(Entries())
      modifies iter
      ensures iter.OK() && Reached() <= old(iter.at)
      ensures Met(Entries(), Reached(), old(iter.at), kept, lv)
      ensures kept ==> key == Entries()[lv].ik.user && value == Entries()[lv].value
      ensures iter.Valid() ==> kept && Entries()[iter.at].ik.user < Entries()[lv].ik.user
    {
      hide Met, SortedEntries;
      ghost var es := Entries();
      ghost var p := iter.at;
      NothingMet(es, p);
      kept, key, value, lv := false, 0, "", -1;
      while true
        invariant iter.OK() && iter.Valid() && iter.at <= p
        invariant Met(es, iter.at, p, kept, lv)
        invariant kept ==> 0 <= lv < |es| && key == es[lv].ik.user && value == es[lv].value
        decreases iter.at
      {
        var e := iter.Key();
        if e.ik.sequence <= sequence {
          if kept && e.ik.user < key {
            return;
          }
          if kept {
            MetRange(es, iter.at, p, lv);
          }
          MetStep(es, iter.at, p, kept, lv);
          kept, key, value, lv := e.ik.kind.Value?, e.ik.user, e.value, iter.at;
        } else {
          MetUnseen(es, iter.at, p, kept, lv);
        }
        iter.Prev();
        if !iter.Valid() {
          return;
        }
      }
    }

    method FindPrevUserEntry()
      requires iter.OK() && direction == Reverse && SortedEntries(Entries())
      modifies this, iter
      ensures OK()
      ensures valid ==> direction == Reverse && LastYield(Entries(), sequence, old(Reached()), cur)
      ensures !valid ==> forall i | 0 <= i <= old(Reached()) :: !Yields(Entries(), sequence, i)
    {
      var kept := false;
      ghost var p, lv := Reached(), -1;
      if iter.Valid() {
        var key, value;
        kept, key, value, lv := ScanBack();
        savedKey, savedValue := Some(key), value;
      }
      if !kept {
        valid, savedKey, savedValue, direction := false, None, "", Forward;
      } else {
        MetYields(Entries(), Reached(), p, lv);
        valid, cur := true, lv;
      }
    }

    // ----- The public operations, against the cursor over yielding positions -----

    /** The cursor is at the first yielding position from p, or nowhere if there is none. */
    ghost predicate AtFirst(p: int)
      reads this
    {
      if valid then FirstYield(Entries(), sequence, p, cur) else forall k | p <= k :: !Yields(Entries(), sequence, k)
    }

    /** The cursor is at the last yielding position up to p, or nowhere if there is none. */
    ghost predicate AtLast(p: int)
      reads this
    {
      if valid then LastYield(Entries(), sequence, p, cur) else forall k | k <= p :: !Yields(Entries(), sequence, k)
    }

    method SeekToFirst()
      requires OK()
      modifies this, iter
      ensures OK() && AtFirst(0)
    {
      direction, savedValue := Forward, "";
      ghost var from := 0;
      iter.SeekToFirst();
      if iter.Valid() {
        FindNextUserEntry(None);
        WantedWithoutSkip(Entries(), sequence, from, if valid then cur else |Entries()|);
      } else {
        valid := false;
      }
    }

    /** Seek: the first live user key at or after the target. */
    method Seek(target: UserKey)
      requires OK()
      modifies this, iter
      ensures OK() && AtFirst(SeekIndex(Entries(), SeekKey(target, sequence)))
      ensures forall k | 0 <= k < |Entries()| && Yields(Entries(), sequence, k) ::
                SeekIndex(Entries(), SeekKey(target, sequence)) <= k <==> target <= Entries()[k].ik.user
    {
      ghost var from := SeekIndex(Entries(), SeekKey(target, sequence));
      direction, savedValue, savedKey := Forward, "", None;
      SeekSkips(Entries(), sequence, target);
      iter.Seek(SeekKey(target, sequence));
      if iter.Valid() {
        FindNextUserEntry(None);
        WantedWithoutSkip(Entries(), sequence, from, if valid then cur else |Entries()|);
      } else {
        valid := false;
      }
    }

    method SeekToLast()
      requires OK()
      modifies this, iter
      ensures OK() && AtLast(|Entries()| - 1)
    {
      direction, savedValue := Reverse, "";
      iter.SeekToLast();
      FindPrevUserEntry();
    }

    method Next()
      requires OK() && valid
      modifies this, iter
      ensures OK() && AtFirst(old(cur) + 1)
    {
      ghost var es, from := Entries(), cur;
      var key := Key();
      if direction == Reverse {
        direction := Forward;
        SkipFromBefore(es, sequence, Reached(), cur);
        if !iter.Valid() {
          iter.SeekToFirst();
        } else {
          iter.Next();
        }
      } else {
        SkipFromBefore(es, sequence, cur - 1, cur);
      }
      ghost var p := iter.at;
      FindNextUserEntry(Some(key));
      WantedAfter(es, sequence, p, from, if valid then cur else |es|);
    }

    method Prev()
      requires OK() && valid
      modifies this, iter
      ensures OK() && AtLast(old(cur) - 1)
    {
      ghost var es, from := Entries(), cur;
      if direction == Forward {
        var key := iter.Key().ik.user;
        var found := StepBackPast(key);
        NoYieldBetween(es, sequence, Reached(), from);
        if !found {
          valid, savedKey, savedValue := false, None, "";
          return;
        }
        direction := Reverse;
      } else {
        NoYieldBetween(es, sequence, Reached(), from);
      }
      FindPrevUserEntry();
    }

    /** Back to the last entry of an earlier user key, if there is one. */
    method StepBackPast(key: UserKey) returns (found: bool)
      requires iter.OK() && iter.Valid() && SortedEntries(Entries()) && iter.Key().ik.user == key
      modifies iter
      ensures iter.OK() && (found <==> iter.Valid()) && Reached() < old(iter.at)
      ensures found ==> Entries()[iter.at].ik.user < key
      ensures forall i | Reached() < i < old(iter.at) :: Entries()[i].ik.user >= key
    {
      ghost var from := iter.at;
      while true
        invariant iter.OK() && iter.Valid() && iter.at <= from
        invariant forall i | iter.at <= i < from :: Entries()[i].ik.user >= key
        decreases iter.at
      {
        iter.Prev();
        if !iter.Valid() {
          return false;
        }
        if iter.Key().ik.user < key {
          return true;
        }
      }
    }
  }

  /** Nothing visible lies between at and the shown position cur, and at is of an earlier key. */
  ghost predicate Bare(es: seq<Entry>, q: nat, at: int, cur: int) {
    && -1 <= at < cur < |es|
    && (forall i | at < i < cur && Seen(es, q, i) :: es[i].ik.user >= es[cur].ik.user)
  }

  lemma NoYieldBetween(es: seq<Entry>, q: nat, at: int, cur: int)
    requires SortedEntries(es) && Yields(es, q, cur) && Bare(es, q, at, cur)
    ensures forall i | at < i < cur :: !Yields(es, q, i)
  {
    forall i | at < i < cur
      ensures !Yields(es, q, i)
    {
      assert Before(es[i].ik, es[cur].ik);
    }
  }

  /** Skipping the shown key from just before its entries (or from itself) is sound. */
  lemma SkipFromBefore(es: seq<Entry>, q: nat, at: int, cur: int)
    requires SortedEntries(es) && Yields(es, q, cur) && Bare(es, q, at, cur)
    requires at == cur - 1 || (at >= 0 ==> es[at].ik.user < es[cur].ik.user)
    ensures Skippable(es, q, at + 1, Some(es[cur].ik.user))
    ensures forall i | at < i < |es| :: Wanted(es, q, i, Some(es[cur].ik.user)) <==> Yields(es, q, i) && i > cur
  {
    NoYieldBetween(es, q, at, cur);
    forall i | at < i < |es| && Seen(es, q, i)
      ensures es[cur].ik.user <= es[i].ik.user
      ensures i > cur && es[cur].ik.user == es[i].ik.user ==> !Yields(es, q, i)
    {
      if cur < i {
        assert Before(es[cur].ik, es[i].ik);
      }
    }
    forall i, k | 0 <= i <= at && at < k < |es| && es[i].ik.user == es[k].ik.user && Seen(es, q, i)
      ensures es[k].ik.user <= es[cur].ik.user
    {
      if at == cur - 1 {
        assert Before(es[i].ik, es[cur].ik);
      } else {
        assert i == at || Before(es[i].ik, es[at].ik);
      }
    }
  }

  lemma WantedAfter(es: seq<Entry>, q: nat, p: int, cur: int, to: int)
    requires 0 <= cur < |es| && p <= cur && NoneWanted(es, q, p, to, Some(es[cur].ik.user))
    requires forall i | p <= i < |es| :: Wanted(es, q, i, Some(es[cur].ik.user)) <==> Yields(es, q, i) && i > cur
    ensures forall i | cur < i < to :: !Yields(es, q, i)
  {
    forall i | cur < i < to
      ensures !Yields(es, q, i)
    {
      assert !Wanted(es, q, i, Some(es[cur].ik.user));
    }
  }

  /** A seek to a user key skips only entries no reader at q sees from that key on. */
  lemma SeekSkips(es: seq<Entry>, q: nat, u: UserKey)
    requires SortedEntries(es)
    ensures Skippable(es, q, SeekIndex(es, SeekKey(u, q)), None)
    ensures forall k | 0 <= k < |es| && Seen(es, q, k) :: SeekIndex(es, SeekKey(u, q)) <= k <==> u <= es[k].ik.user
  {
    var p := SeekIndex(es, SeekKey(u, q));
    forall k | 0 <= k < |es|
      ensures k < p <==> es[k].ik.user < u || (es[k].ik.user == u && es[k].ik.sequence > q)
    {
      SeekKeySplits(es[k].ik, u, q);
      if p <= k {
        CompareIsTotalOrder(es[p].ik, es[k].ik, SeekKey(u, q));
      }
    }
  }
}
