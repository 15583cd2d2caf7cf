/** The specification every read is held to: a flat set of versioned entries, in which a
    lookup of a user key at a sequence number finds the newest entry at or below it. */
module MultiVersion {
  import opened DbFormat

  /** What one table or memtable reports (the saver states of a table lookup). */
  datatype Lookup = Missing | Found(value: string) | Deleted {
    function Or(other: Lookup): Lookup {
      if Missing? then other else this
    }

    function Answer(): Answer {
      if Found? then Ok(value) else NotFound
    }
  }

  /** What the caller of Get sees. */
  datatype Answer = NotFound | Ok(value: string)

  function Report(e: Entry): Lookup {
    if e.ik.kind.Value? then Found(e.value) else Deleted
  }

  ghost predicate Distinct(s: set<Entry>) {
    forall a, b | a in s && b in s && a.ik.user == b.ik.user && a.ik.sequence == b.ik.sequence :: a == b
  }

  ghost predicate VisibleAt(e: Entry, u: UserKey, q: nat) {
    e.ik.user == u && e.ik.sequence <= q
  }

  ghost predicate IsNewest(s: set<Entry>, u: UserKey, q: nat, e: Entry) {
    && e in s
    && VisibleAt(e, u, q)
    && forall x | x in s && VisibleAt(x, u, q) :: x.ik.sequence <= e.ik.sequence
  }

  ghost function Newest(s: set<Entry>, u: UserKey, q: nat): Lookup {
    if exists e :: IsNewest(s, u, q, e) then
      var e :| IsNewest(s, u, q, e);
      Report(e)
    else
      Missing
  }

  lemma NewestIs(s: set<Entry>, u: UserKey, q: nat, e: Entry)
    requires Distinct(s) && IsNewest(s, u, q, e)
    ensures Newest(s, u, q) == Report(e)
  {
    var x :| IsNewest(s, u, q, x) && Newest(s, u, q) == Report(x);
    assert IsNewest(s, u, q, x);
  }

  lemma {:induction false} NewestExists(s: set<Entry>, u: UserKey, q: nat, e: Entry) returns (n: Entry)
    requires e in s && VisibleAt(e, u, q)
    ensures IsNewest(s, u, q, n)
    decreases |s|
  {
    var rest := s - {e};
    if x :| x in rest && VisibleAt(x, u, q) && x.ik.sequence > e.ik.sequence {
      n := NewestExists(rest, u, q, x);
    } else {
      n := e;
    }
  }

  lemma NewestMissing(s: set<Entry>, u: UserKey, q: nat)
    ensures Newest(s, u, q) == Missing <==> forall e | e in s :: !VisibleAt(e, u, q)
  {
    if e :| e in s && VisibleAt(e, u, q) {
      var n := NewestExists(s, u, q, e);
    }
  }

  /** Every entry of a is newer than every entry of b for the same user key. */
  ghost predicate NewerThan(a: set<Entry>, b: set<Entry>) {
    forall x, y | x in a && y in b && x.ik.user == y.ik.user :: x.ik.sequence > y.ik.sequence
  }

  /** A newer layer hides an older one: the flat lookup is the staged one. */
  lemma NewestOfLayers(a: set<Entry>, b: set<Entry>, u: UserKey, q: nat)
    requires Distinct(a) && Distinct(b) && NewerThan(a, b)
    ensures Distinct(a + b)
    ensures Newest(a + b, u, q) == Newest(a, u, q).Or(Newest(b, u, q))
  {
    if e :| e in a && VisibleAt(e, u, q) {
      var n := NewestExists(a, u, q, e);
      NewestIs(a, u, q, n);
      assert IsNewest(a + b, u, q, n);
      NewestIs(a + b, u, q, n);
    } else {
      NewestMissing(a, u, q);
      if e :| e in b && VisibleAt(e, u, q) {
        var n := NewestExists(b, u, q, e);
        NewestIs(b, u, q, n);
        assert IsNewest(a + b, u, q, n);
        NewestIs(a + b, u, q, n);
      } else {
        NewestMissing(b, u, q);
        NewestMissing(a + b, u, q);
      }
    }
  }

  /** Entries above a sequence number do not change what is seen at it. */
  lemma NewestIgnoresLater(s: set<Entry>, t: set<Entry>, u: UserKey, q: nat)
    requires Distinct(s + t)
    requires forall e | e in t :: e.ik.sequence > q
    ensures Newest(s + t, u, q) == Newest(s, u, q)
  {
    if e :| e in s && VisibleAt(e, u, q) {
      var n := NewestExists(s, u, q, e);
      NewestIs(s, u, q, n);
      assert IsNewest(s + t, u, q, n);
      NewestIs(s + t, u, q, n);
    } else {
      NewestMissing(s, u, q);
      NewestMissing(s + t, u, q);
    }
  }
}
