/** Which entries a compaction keeps, and exactly when that leaves every read unchanged. */
module CompactionMeaning {
  import opened DbFormat
  import opened MultiVersion

  /** Rule (A): some newer entry of the same key is already visible at the oldest snapshot. */
  ghost predicate Hidden(input: set<Entry>, smallest: nat, e: Entry) {
    exists p :: p in input && p.ik.user == e.ik.user && e.ik.sequence < p.ik.sequence <= smallest
  }

  /** A deletion marker no snapshot needs, of a key without data in deeper levels. */
  ghost predicate Obsolete(smallest: nat, base: iset<UserKey>, e: Entry) {
    e.ik.kind.Deletion? && e.ik.sequence <= smallest && e.ik.user in base
  }

  ghost function Kept(input: set<Entry>, smallest: nat, base: iset<UserKey>): set<Entry> {
    set e | e in input && !Hidden(input, smallest, e) && !Obsolete(smallest, base, e)
  }

  /** The failing family: the answer at the oldest snapshot is a deletion marker that is
      dropped, while a value it shadowed lies in an entry outside the compaction. */
  ghost predicate Resurrects(rest: set<Entry>, input: set<Entry>, smallest: nat, base: iset<UserKey>, u: UserKey) {
    exists t, r ::
      && t in input && IsNewest(rest + input, u, smallest, t) && Obsolete(smallest, base, t)
      && IsNewest(rest, u, t.ik.sequence, r) && r.ik.kind.Value?
  }

  /** Every read at or above the oldest snapshot sees the same. */
  ghost predicate SameReads(before: set<Entry>, after: set<Entry>, smallest: nat, u: UserKey) {
    forall q | q >= smallest :: Newest(before, u, q).Answer() == Newest(after, u, q).Answer()
  }

  lemma KeptNewest(rest: set<Entry>, input: set<Entry>, smallest: nat, base: iset<UserKey>, u: UserKey, q: nat, n: Entry)
    requires Distinct(rest + input) && q >= smallest
    requires IsNewest(rest + input, u, q, n)
    requires n in input ==> !Obsolete(smallest, base, n)
    ensures Newest(rest + Kept(input, smallest, base), u, q) == Newest(rest + input, u, q)
  {
    NewestIs(rest + input, u, q, n);
    assert n in input ==> !Hidden(input, smallest, n) by {
      assert forall p | p in input && p.ik.user == u && p.ik.sequence <= smallest :: VisibleAt(p, u, q) && p in rest + input;
    }
    assert IsNewest(rest + Kept(input, smallest, base), u, q, n);
    NewestIs(rest + Kept(input, smallest, base), u, q, n);
  }

  /** Once a visible deletion marker is dropped, nothing of its key at or below it is kept:
      what becomes visible is the newest older entry outside the compaction. */
  lemma DroppedNewest(rest: set<Entry>, input: set<Entry>, smallest: nat, base: iset<UserKey>, u: UserKey, q: nat, t: Entry)
    requires Distinct(rest + input) && q >= smallest
    requires t in input && IsNewest(rest + input, u, q, t) && Obsolete(smallest, base, t)
    requires t !in rest
    ensures Newest(rest + Kept(input, smallest, base), u, q) == Newest(rest, u, t.ik.sequence)
    ensures IsNewest(rest + input, u, smallest, t)
  {
    var after := rest + Kept(input, smallest, base);
    forall e | e in input && VisibleAt(e, u, q)
      ensures e !in Kept(input, smallest, base)
    {
      assert e in rest + input && t in rest + input;
      assert e == t || Hidden(input, smallest, e);
    }
    assert forall e | e in after && VisibleAt(e, u, q) :: e in rest && VisibleAt(e, u, t.ik.sequence);
    if r :| r in rest && VisibleAt(r, u, t.ik.sequence) {
      var n := NewestExists(rest, u, t.ik.sequence, r);
      NewestIs(rest, u, t.ik.sequence, n);
      assert IsNewest(after, u, q, n);
      NewestIs(after, u, q, n);
    } else {
      NewestMissing(rest, u, t.ik.sequence);
      NewestMissing(after, u, q);
    }
    forall x | x in rest + input && VisibleAt(x, u, smallest)
      ensures x.ik.sequence <= t.ik.sequence
    {
      assert VisibleAt(x, u, q);
    }
  }

  /** Compaction preserves the reads of a key exactly when it does not resurrect it. */
  lemma CompactionPreservesReads(rest: set<Entry>, input: set<Entry>, smallest: nat, base: iset<UserKey>, u: UserKey)
    requires Distinct(rest + input) && rest !! input
    ensures SameReads(rest + input, rest + Kept(input, smallest, base), smallest, u)
       <==> !Resurrects(rest, input, smallest, base, u)
  {
    var after := rest + Kept(input, smallest, base);
    if Resurrects(rest, input, smallest, base, u) {
      var t, r :|
        && t in input && IsNewest(rest + input, u, smallest, t) && Obsolete(smallest, base, t)
        && IsNewest(rest, u, t.ik.sequence, r) && r.ik.kind.Value?;
      NewestIs(rest + input, u, smallest, t);
      DroppedNewest(rest, input, smallest, base, u, smallest, t);
      NewestIs(rest, u, t.ik.sequence, r);
      assert Newest(rest + input, u, smallest).Answer() != Newest(after, u, smallest).Answer();
    } else {
      forall q | q >= smallest
        ensures Newest(rest + input, u, q).Answer() == Newest(after, u, q).Answer()
      {
        ReadKept(rest, input, smallest, base, u, q);
      }
    }
  }

  lemma ReadKept(rest: set<Entry>, input: set<Entry>, smallest: nat, base: iset<UserKey>, u: UserKey, q: nat)
    requires Distinct(rest + input) && rest !! input && q >= smallest
    requires !Resurrects(rest, input, smallest, base, u)
    ensures Newest(rest + input, u, q).Answer() == Newest(rest + Kept(input, smallest, base), u, q).Answer()
  {
    var after := rest + Kept(input, smallest, base);
    if e :| e in rest + input && VisibleAt(e, u, q) {
      var n := NewestExists(rest + input, u, q, e);
      NewestIs(rest + input, u, q, n);
      if n in input && Obsolete(smallest, base, n) {
        DroppedNewest(rest, input, smallest, base, u, q, n);
        if x :| x in rest && VisibleAt(x, u, n.ik.sequence) {
          var r := NewestExists(rest, u, n.ik.sequence, x);
          NewestIs(rest, u, n.ik.sequence, r);
        } else {
          NewestMissing(rest, u, n.ik.sequence);
        }
      } else {
        KeptNewest(rest, input, smallest, base, u, q, n);
      }
    } else {
      NewestMissing(rest + input, u, q);
      NewestMissing(after, u, q);
    }
  }

  /** With inputs closed under user keys at the output level, no key can come back: an
      older entry outside the compaction would have to lie in a deeper level. */
  lemma ClosedInputsNeverResurrect(rest: set<Entry>, input: set<Entry>, smallest: nat, base: iset<UserKey>, u: UserKey)
    requires Distinct(rest + input) && rest !! input
    requires forall r, i | r in rest && i in input && r.ik.user == i.ik.user == u && u in base :: r.ik.sequence > i.ik.sequence
    ensures !Resurrects(rest, input, smallest, base, u)
  {
  }

  // ----- Nothing superfluous is kept -----

  /** Of the entries of a key at or below the oldest snapshot at most one is left, and no deletion
      marker there without data below; nothing else is lost. */
  ghost predicate Tight(input: set<Entry>, smallest: nat, noneBelow: UserKey -> bool, left: set<Entry>) {
    && left <= input
    && (forall a, b | a in left && b in left && a.ik.user == b.ik.user && a.ik.sequence <= smallest && b.ik.sequence <= smallest :: a == b)
    && (forall e | e in left && e.ik.kind.Deletion? && e.ik.sequence <= smallest :: !noneBelow(e.ik.user))
    && (forall e | e in input && e.ik.sequence > smallest :: e in left)
    && (forall e: Entry | IsNewest(input, e.ik.user, smallest, e) && !(e.ik.kind.Deletion? && noneBelow(e.ik.user)) :: e in left)
  }

  lemma KeptIsTight(input: set<Entry>, smallest: nat, base: iset<UserKey>, noneBelow: UserKey -> bool)
    requires Distinct(input) && forall u :: noneBelow(u) <==> u in base
    ensures Tight(input, smallest, noneBelow, Kept(input, smallest, base))
  {
    var left := Kept(input, smallest, base);
    forall a, b | a in left && b in left && a.ik.user == b.ik.user && a.ik.sequence <= smallest && b.ik.sequence <= smallest
      ensures a == b
    {
      assert a.ik.sequence < b.ik.sequence ==> Hidden(input, smallest, a);
      assert b.ik.sequence < a.ik.sequence ==> Hidden(input, smallest, b);
    }
    forall e: Entry | IsNewest(input, e.ik.user, smallest, e) ensures !Hidden(input, smallest, e) {
      assert forall p | p in input && p.ik.user == e.ik.user && p.ik.sequence <= smallest :: VisibleAt(p, e.ik.user, smallest);
    }
  }
}
