/** Reading a set of tables through one merging iterator. */
module MergeInputs {
  import opened DbFormat
  import opened Merging
  import opened Store

  ghost predicate Comparable(a: seq<Entry>, b: seq<Entry>) {
    forall x, y | x in a && y in b :: Before(x.ik, y.ik) || Before(y.ik, x.ik)
  }

  ghost predicate Mergeable(children: seq<seq<Entry>>) {
    && (forall j | 0 <= j < |children| :: SortedEntries(children[j]))
    && (forall j, k | 0 <= j < k < |children| :: Comparable(children[j], children[k]))
  }

  ghost predicate Somewhere(children: seq<seq<Entry>>, e: Entry) {
    exists j :: 0 <= j < |children| && e in children[j]
  }

  lemma {:induction false} AddAllComparable(es: seq<Entry>, added: seq<Entry>)
    requires SortedEntries(es) && SortedEntries(added) && Comparable(es, added)
    ensures SortedEntries(AddAll(es, added))
    decreases |added|
  {
    if added != [] {
      var more := Insert(es, added[0]);
      assert added[0] in added;
      assert forall x :: x in more <==> x in EntrySet(more);
      assert forall i | 0 < i < |added| :: Before(added[0].ik, added[i].ik);
      AddAllComparable(more, added[1..]);
    }
  }

  /** All entries of the children in one sorted sequence. */
  lemma {:induction false} MergedSequence(children: seq<seq<Entry>>) returns (merged: seq<Entry>)
    requires Mergeable(children)
    ensures SortedEntries(merged)
    ensures forall e :: e in merged <==> Somewhere(children, e)
  {
    if children == [] {
      merged := [];
    } else {
      var n := |children| - 1;
      var rest := MergedSequence(children[..n]);
      forall x, y | x in rest && y in children[n]
        ensures Before(x.ik, y.ik) || Before(y.ik, x.ik)
      {
        var j :| 0 <= j < n && x in children[..n][j];
        assert Comparable(children[j], children[n]);
      }
      merged := AddAll(rest, children[n]);
      AddAllComparable(rest, children[n]);
      forall e
        ensures e in merged <==> Somewhere(children, e)
      {
        assert e in merged <==> e in EntrySet(merged);
        assert e in rest <==> Somewhere(children[..n], e);
        if j :| 0 <= j < n && e in children[..n][j] {
          assert e in children[j];
        }
        if j :| 0 <= j < n && e in children[j] {
          assert e in children[..n][j];
        }
      }
    }
  }

  ghost function IndexOf(es: seq<Entry>, e: Entry): (k: int)
    requires e in es
    ensures 0 <= k < |es| && es[k] == e
  {
    var k :| 0 <= k < |es| && es[k] == e;
    k
  }

  ghost function HomeOf(children: seq<seq<Entry>>, e: Entry): (h: (int, int))
    requires Somewhere(children, e)
    ensures 0 <= h.0 < |children| && 0 <= h.1 < |children[h.0]| && children[h.0][h.1] == e
  {
    var j :| 0 <= j < |children| && e in children[j];
    (j, IndexOf(children[j], e))
  }

  lemma NotShared(children: seq<seq<Entry>>, j: nat, k: nat, e: Entry)
    requires Mergeable(children) && j < |children| && k < |children| && j != k && e in children[j]
    ensures e !in children[k]
  {
    if j < k {
      assert Comparable(children[j], children[k]);
    } else {
      assert Comparable(children[k], children[j]);
    }
  }

  lemma HomeUnique(children: seq<seq<Entry>>, j: nat, i: nat)
    requires Mergeable(children) && j < |children| && i < |children[j]|
    ensures children[j][i] in children[j] && HomeOf(children, children[j][i]) == (j, i)
  {
    var e := children[j][i];
    assert e in children[j];
    var h := HomeOf(children, e);
    if h.0 != j {
      NotShared(children, j, h.0, e);
    } else {
      SameIndex(children[j], h.1, i);
    }
  }

  lemma SameIndex(es: seq<Entry>, i: int, k: int)
    requires SortedEntries(es) && 0 <= i < |es| && 0 <= k < |es| && es[i] == es[k]
    ensures i == k
  {
  }

  ghost predicate Covers(children: seq<seq<Entry>>, merged: seq<Entry>) {
    && SortedEntries(merged)
    && (forall j, i | 0 <= j < |children| && 0 <= i < |children[j]| :: children[j][i] in merged)
    && (forall k | 0 <= k < |merged| :: Somewhere(children, merged[k]))
  }

  ghost function MatchingOf(children: seq<seq<Entry>>, merged: seq<Entry>): Matching
    requires Covers(children, merged)
  {
    Matching(
      seq(|children|, j requires 0 <= j < |children| =>
        seq(|children[j]|, i requires 0 <= i < |children[j]| => IndexOf(merged, children[j][i]))),
      seq(|merged|, k requires 0 <= k < |merged| => HomeOf(children, merged[k])))
  }

  ghost predicate RankFits(children: seq<seq<Entry>>, merged: seq<Entry>, m: Matching, j: int, i: int)
    requires |m.rank| == |children| && |m.home| == |merged| && 0 <= j < |children| && 0 <= i < |children[j]|
  {
    && |m.rank[j]| == |children[j]|
    && 0 <= m.rank[j][i] < |merged| && merged[m.rank[j][i]] == children[j][i] && m.home[m.rank[j][i]] == (j, i)
  }

  ghost predicate HomeFits(children: seq<seq<Entry>>, merged: seq<Entry>, m: Matching, k: int)
    requires |m.rank| == |children| && |m.home| == |merged| && 0 <= k < |merged|
  {
    var h := m.home[k];
    && 0 <= h.0 < |children| && 0 <= h.1 < |children[h.0]| && |m.rank[h.0]| == |children[h.0]| && m.rank[h.0][h.1] == k
  }

  ghost predicate Sized(children: seq<seq<Entry>>, merged: seq<Entry>, m: Matching) {
    && |m.rank| == |children| && |m.home| == |merged|
    && forall j | 0 <= j < |children| :: |m.rank[j]| == |children[j]|
  }

  lemma RankAt(children: seq<seq<Entry>>, merged: seq<Entry>, m: Matching, j: nat, i: nat)
    requires Mergeable(children) && Covers(children, merged) && j < |children| && i < |children[j]|
    requires m == MatchingOf(children, merged)
    ensures RankFits(children, merged, m, j, i)
  {
    HomeUnique(children, j, i);
  }

  lemma HomeAt(children: seq<seq<Entry>>, merged: seq<Entry>, m: Matching, k: nat)
    requires Mergeable(children) && Covers(children, merged) && k < |merged|
    requires m == MatchingOf(children, merged)
    ensures HomeFits(children, merged, m, k)
  {
    var h := m.home[k];
    RankAt(children, merged, m, h.0, h.1);
    SameIndex(merged, m.rank[h.0][h.1], k);
  }

  lemma RankGrows(children: seq<seq<Entry>>, merged: seq<Entry>, m: Matching, j: nat, i: nat, k: nat)
    requires Mergeable(children) && SortedEntries(merged) && Sized(children, merged, m)
    requires j < |children| && i < k < |children[j]|
    requires RankFits(children, merged, m, j, i) && RankFits(children, merged, m, j, k)
    ensures m.rank[j][i] < m.rank[j][k]
  {
    var a, b := m.rank[j][i], m.rank[j][k];
    assert Before(merged[a].ik, merged[b].ik);
  }

  lemma MatchingFits(children: seq<seq<Entry>>, merged: seq<Entry>, m: Matching)
    requires Mergeable(children) && SortedEntries(merged) && Sized(children, merged, m)
    requires forall j, i | 0 <= j < |children| && 0 <= i < |children[j]| :: RankFits(children, merged, m, j, i)
    requires forall k | 0 <= k < |merged| :: HomeFits(children, merged, m, k)
    ensures MergedBy(children, merged, m)
  {
    forall j, i | 0 <= j < |children| && 0 <= i < |children[j]|
      ensures 0 <= m.rank[j][i] < |merged| && merged[m.rank[j][i]] == children[j][i] && m.home[m.rank[j][i]] == (j, i)
    {
      assert RankFits(children, merged, m, j, i);
    }
    forall j, i, k | 0 <= j < |children| && 0 <= i < k < |children[j]|
      ensures m.rank[j][i] < m.rank[j][k]
    {
      RankGrows(children, merged, m, j, i, k);
    }
    forall k | 0 <= k < |merged|
      ensures 0 <= m.home[k].0 < |children| && 0 <= m.home[k].1 < |children[m.home[k].0]| && m.rank[m.home[k].0][m.home[k].1] == k
    {
      assert HomeFits(children, merged, m, k);
    }
  }

  /** Sorted children without common keys can always be merged. */
  lemma MergeExists(children: seq<seq<Entry>>) returns (merged: seq<Entry>, m: Matching)
    requires Mergeable(children)
    ensures MergedBy(children, merged, m)
    ensures forall e :: e in merged <==> Somewhere(children, e)
  {
    merged := MergedSequence(children);
    forall j, i | 0 <= j < |children| && 0 <= i < |children[j]|
      ensures children[j][i] in merged
    {
      assert children[j][i] in children[j];
    }
    forall k | 0 <= k < |merged|
      ensures Somewhere(children, merged[k])
    {
      assert merged[k] in merged;
    }
    m := MatchingOf(children, merged);
    forall j, i | 0 <= j < |children| && 0 <= i < |children[j]|
      ensures RankFits(children, merged, m, j, i)
    {
      RankAt(children, merged, m, j, i);
    }
    forall k | 0 <= k < |merged|
      ensures HomeFits(children, merged, m, k)
    {
      HomeAt(children, merged, m, k);
    }
    MatchingFits(children, merged, m);
  }

  /** Reading an iterator from its first entry to its last yields the merged sequence. */
  method ReadAll(iter: MergingIterator) returns (all: seq<Entry>)
    requires iter.OK()
    modifies iter
    ensures all == iter.merged
  {
    all := [];
    iter.SeekToFirst();
    ghost var n := if iter.Valid() then 0 else |iter.merged|;
    while iter.Valid()
      invariant iter.OK() && 0 <= n <= |iter.merged|
      invariant if iter.Valid() then n == iter.at else n == |iter.merged|
      invariant all == iter.merged[..n]
      decreases |iter.merged| - n
    {
      var e := iter.Key();
      all := all + [e];
      iter.Next();
      n := n + 1;
    }
  }
}
