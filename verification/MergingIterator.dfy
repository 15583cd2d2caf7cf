/** Several sorted children read as one sorted sequence, in both directions. */
module Merging {
  import opened DbFormat
  import opened VersionFiles

  /** Where each child entry stands in the merged sequence, and which child holds each
      merged entry: a one-to-one matching that keeps every child's order. */
  datatype Matching = Matching(rank: seq<seq<int>>, home: seq<(int, int)>)

  ghost predicate MergedBy(children: seq<seq<Entry>>, merged: seq<Entry>, m: Matching) {
    && SortedEntries(merged)
    && |m.rank| == |children| && |m.home| == |merged|
    && (forall j | 0 <= j < |children| :: |m.rank[j]| == |children[j]|)
    && (forall j, i | 0 <= j < |children| && 0 <= i < |children[j]| ::
          0 <= m.rank[j][i] < |merged| && merged[m.rank[j][i]] == children[j][i] && m.home[m.rank[j][i]] == (j, i))
    && (forall j, i, k | 0 <= j < |children| && 0 <= i < k < |children[j]| :: m.rank[j][i] < m.rank[j][k])
    && (forall k | 0 <= k < |merged| ::
          && 0 <= m.home[k].0 < |children| && 0 <= m.home[k].1 < |children[m.home[k].0]|
          && m.rank[m.home[k].0][m.home[k].1] == k)
  }

  /** A child at this index has exactly its entries below merged position p behind it: up to
      and including the index, or just before it. */
  ghost predicate Placed(ranks: seq<int>, p: int, index: int, including: bool) {
    && (if including then -1 <= index < |ranks| else 0 <= index <= |ranks|)
    && forall i | 0 <= i < |ranks| :: ranks[i] < p <==> if including then i <= index else i < index
  }

  lemma PlacedAt(ranks: seq<int>, p: int, index: int, i: nat)
    requires Placed(ranks, p, index, false) && i < |ranks| && ranks[i] == p
    requires forall j, k | 0 <= j < k < |ranks| :: ranks[j] < ranks[k]
    ensures index == i
  {
    if i > 0 {
      assert ranks[i - 1] < p;
    }
  }

  lemma PlacedBefore(ranks: seq<int>, p: int, index: int, i: nat)
    requires Placed(ranks, p, index, true) && i < |ranks| && ranks[i] == p - 1
    requires forall j, k | 0 <= j < k < |ranks| :: ranks[j] < ranks[k]
    ensures index == i
  {
    if i + 1 < |ranks| {
      assert ranks[i + 1] >= p;
    }
  }

  class MergingIterator {
    const children: seq<seq<Entry>>
    ghost const merged: seq<Entry>
    ghost const m: Matching
    var pos: seq<int>
    var current: int
    var forward: bool
    /** Where the cursor stands in the merged sequence, while it is valid. */
    ghost var at: int

    ghost predicate Shape()
      reads this
    {
      MergedBy(children, merged, m) && |pos| == |children|
    }

    predicate ChildValid(j: nat)
      reads this
      requires j < |pos| == |children|
    {
      0 <= pos[j] < |children[j]|
    }

    /** Every child stands at its first entry at or after position p. */
    ghost predicate SplitAt(p: int)
      reads this
      requires Shape()
    {
      forall j | 0 <= j < |children| :: Placed(m.rank[j], p, pos[j], false)
    }

    /** Every child stands at its last entry before position p. */
    ghost predicate SplitBefore(p: int)
      reads this
      requires Shape()
    {
      forall j | 0 <= j < |children| :: Placed(m.rank[j], p, pos[j], true)
    }

    ghost predicate OK()
      reads this
    {
      && Shape() && -1 <= current < |children|
      && (current >= 0 ==>
            && 0 <= at < |merged| && ChildValid(current) && m.rank[current][pos[current]] == at
            && if forward then SplitAt(at) else SplitBefore(at + 1))
    }

    predicate Valid()
      reads this
    {
      current >= 0
    }

    function Key(): (e: Entry)
      reads this
      requires OK() && Valid()
      ensures e == merged[at]
    {
      children[current][pos[current]]
    }

    constructor (children: seq<seq<Entry>>, ghost merged: seq<Entry>, ghost m: Matching)
      requires MergedBy(children, merged, m)
      ensures OK() && !Valid() && this.merged == merged && this.children == children && this.m == m
    {
      this.children, this.merged, this.m := children, merged, m;
      pos := seq(|children|, j => 0);
      current, forward, at := -1, true, 0;
    }

    /** Comparing child keys is comparing merged positions. */
    lemma KeyOrder(j: nat, i: nat, k: nat, l: nat)
      requires Shape() && j < |children| && k < |children| && i < |children[j]| && l < |children[k]|
      ensures Less(children[j][i].ik, children[k][l].ik) <==> m.rank[j][i] < m.rank[k][l]
    {
      var a, b := m.rank[j][i], m.rank[k][l];
      CompareIsTotalOrder(merged[a].ik, merged[b].ik, merged[a].ik);
      CompareIsTotalOrder(merged[b].ik, merged[a].ik, merged[b].ik);
    }

    lemma MergedSizes()
      requires Shape()
      ensures |m.rank| == |children| && forall j | 0 <= j < |children| :: |m.rank[j]| == |children[j]|
    {
    }

    /** If all children stand at or after p, the first of them stands at p. */
    lemma FirstIsAt(p: int, smallest: int)
      requires Shape() && 0 <= p <= |merged| && SplitAt(p) && -1 <= smallest < |children|
      requires smallest == -1 ==> forall j | 0 <= j < |children| :: !ChildValid(j)
      requires smallest >= 0 ==> (ChildValid(smallest)
        && forall j | 0 <= j < |children| && ChildValid(j) :: m.rank[smallest][pos[smallest]] <= m.rank[j][pos[j]])
      ensures smallest >= 0 <==> p < |merged|
      ensures smallest >= 0 ==> m.rank[smallest][pos[smallest]] == p
    {
      assert smallest >= 0 ==> p <= m.rank[smallest][pos[smallest]] < |merged|;
      if p < |merged| {
        var h := m.home[p];
        assert m.rank[h.0][h.1] == p;
        PlacedAt(m.rank[h.0], p, pos[h.0], h.1);
        assert pos[h.0] == h.1;
        assert ChildValid(h.0);
        assert m.rank[h.0][pos[h.0]] >= p;
      }
    }

    /** If all children stand before p, the last of them stands right before it. */
    lemma LastIsAt(p: int, largest: int)
      requires Shape() && 0 <= p <= |merged| && SplitBefore(p) && -1 <= largest < |children|
      requires largest == -1 ==> forall j | 0 <= j < |children| :: !ChildValid(j)
      requires largest >= 0 ==> (ChildValid(largest)
        && forall j | 0 <= j < |children| && ChildValid(j) :: m.rank[j][pos[j]] <= m.rank[largest][pos[largest]])
      ensures largest >= 0 <==> p > 0
      ensures largest >= 0 ==> m.rank[largest][pos[largest]] == p - 1
    {
      assert largest >= 0 ==> 0 <= m.rank[largest][pos[largest]] < p;
      if p > 0 {
        var h := m.home[p - 1];
        assert m.rank[h.0][h.1] == p - 1;
        PlacedBefore(m.rank[h.0], p, pos[h.0], h.1);
        assert pos[h.0] == h.1;
        assert ChildValid(h.0);
        assert m.rank[h.0][pos[h.0]] < p;
      }
    }

    method FindSmallest(ghost p: int)
      requires Shape() && 0 <= p <= |merged| && SplitAt(p)
      modifies this`current, this`at, this`forward
      ensures OK() && forward && (Valid() <==> p < |merged|) && (Valid() ==> at == p)
    {
      hide Placed, MergedBy;
      MergedSizes();
      var smallest := -1;
      for i := 0 to |children|
        invariant -1 <= smallest < i
        invariant smallest == -1 ==> forall j | 0 <= j < i :: !ChildValid(j)
        invariant smallest >= 0 ==> (ChildValid(smallest)
          && forall j | 0 <= j < i && ChildValid(j) :: m.rank[smallest][pos[smallest]] <= m.rank[j][pos[j]])
      {
        if ChildValid(i) {
          if smallest == -1 {
            smallest := i;
          } else {
            KeyOrder(i, pos[i], smallest, pos[smallest]);
            if Less(children[i][pos[i]].ik, children[smallest][pos[smallest]].ik) {
              smallest := i;
            }
          }
        }
      }
      FirstIsAt(p, smallest);
      current, forward, at := smallest, true, p;
    }

    method FindLargest(ghost p: int)
      requires Shape() && 0 <= p <= |merged| && SplitBefore(p)
      modifies this`current, this`at, this`forward
      ensures OK() && !forward && (Valid() <==> p > 0) && (Valid() ==> at == p - 1)
    {
      hide Placed, MergedBy;
      MergedSizes();
      var largest := -1;
      var i := |children| - 1;
      while i >= 0
        invariant -1 <= i < |children| && (largest == -1 || i < largest < |children|)
        invariant largest == -1 ==> forall j | i < j < |children| :: !ChildValid(j)
        invariant largest >= 0 ==> (ChildValid(largest)
          && forall j | i < j < |children| && ChildValid(j) :: m.rank[j][pos[j]] <= m.rank[largest][pos[largest]])
      {
        if ChildValid(i) {
          if largest == -1 {
            largest := i;
          } else {
            KeyOrder(largest, pos[largest], i, pos[i]);
            if Less(children[largest][pos[largest]].ik, children[i][pos[i]].ik) {
              largest := i;
            }
          }
        }
        i := i - 1;
      }
      LastIsAt(p, largest);
      current, forward, at := largest, false, p - 1;
    }

    method SeekToFirst()
      requires OK()
      modifies this
      ensures OK() && (Valid() <==> merged != []) && (Valid() ==> at == 0)
    {
      pos := seq(|children|, j => 0);
      FindSmallest(0);
    }

    method SeekToLast()
      requires OK()
      modifies this
      ensures OK() && (Valid() <==> merged != []) && (Valid() ==> at == |merged| - 1)
    {
      pos := seq(|children|, j requires 0 <= j < |children| => |children[j]| - 1);
      FindLargest(|merged|);
    }

    lemma SeekRank(j: nat, target: InternalKey)
      requires Shape() && j < |children|
      ensures SortedEntries(children[j])
      ensures forall i | 0 <= i < |children[j]| ::
                i < SeekIndex(children[j], target) <==> m.rank[j][i] < SeekIndex(merged, target)
    {
      var es := children[j];
      forall i, k | 0 <= i < k < |es|
        ensures Before(es[i].ik, es[k].ik)
      {
        assert Before(merged[m.rank[j][i]].ik, merged[m.rank[j][k]].ik);
      }
      var c, t := SeekIndex(es, target), SeekIndex(merged, target);
      forall i | 0 <= i < |es|
        ensures i < c <==> m.rank[j][i] < t
      {
        if c <= i {
          CompareIsTotalOrder(es[c].ik, es[i].ik, target);
        }
        if t <= m.rank[j][i] {
          CompareIsTotalOrder(merged[t].ik, merged[m.rank[j][i]].ik, target);
        }
      }
    }

    method Seek(target: InternalKey)
      requires OK()
      modifies this
      ensures OK() && (Valid() <==> SeekIndex(merged, target) < |merged|)
      ensures Valid() ==> at == SeekIndex(merged, target)
    {
      for j := 0 to |children|
        invariant Shape()
        invariant forall k | 0 <= k < j :: SortedEntries(children[k]) && pos[k] == SeekIndex(children[k], target)
      {
        SeekRank(j, target);
        pos := pos[j := SeekIndex(children[j], target)];
      }
      forall j | 0 <= j < |children|
        ensures forall i | 0 <= i < |children[j]| :: m.rank[j][i] < SeekIndex(merged, target) <==> i < pos[j]
      {
        SeekRank(j, target);
      }
      FindSmallest(SeekIndex(merged, target));
    }

    lemma SeekSelf(k: nat)
      requires Shape() && k < |merged|
      ensures SeekIndex(merged, merged[k].ik) == k
    {
      var t := SeekIndex(merged, merged[k].ik);
      CompareIsTotalOrder(merged[k].ik, merged[k].ik, merged[k].ik);
      if t < k {
        CompareIsTotalOrder(merged[t].ik, merged[k].ik, merged[k].ik);
      }
    }

    lemma OtherKeysDiffer(j: nat, key: InternalKey)
      requires Shape() && 0 <= current < |children| && ChildValid(current) && m.rank[current][pos[current]] == at
      requires j < |children| && j != current && 0 <= at < |merged| && key == merged[at].ik
      ensures forall i | 0 <= i < |children[j]| :: m.rank[j][i] != at && Compare(key, children[j][i].ik) != 0
    {
      forall i | 0 <= i < |children[j]|
        ensures m.rank[j][i] != at && Compare(key, children[j][i].ik) != 0
      {
        assert m.home[m.rank[j][i]] == (j, i);
        assert m.home[at] == (current, pos[current]);
        assert m.rank[j][i] < at || at < m.rank[j][i];
        CompareIsTotalOrder(key, children[j][i].ik, key);
      }
    }

    /** Seek the current key in another child and step over it, or back from it. */
    method PositionOther(j: nat, key: InternalKey, before: bool) returns (index: int)
      requires Shape() && 0 <= current < |children| && ChildValid(current) && m.rank[current][pos[current]] == at
      requires 0 <= at < |merged| && key == merged[at].ik && j < |children| && j != current
      ensures Placed(m.rank[j], at, index, before)
    {
      SeekSelf(at);
      SeekRank(j, key);
      OtherKeysDiffer(j, key);
      index := SeekIndex(children[j], key);
      if before {
        index := if index < |children[j]| then index - 1 else |children[j]| - 1;
      } else if index < |children[j]| && Compare(key, children[j][index].ik) == 0 {
        index := index + 1;
      }
    }

    /** The current child stays; every other one is positioned around its key. */
    method PositionOthers(before: bool)
      requires OK() && Valid()
      modifies this`pos
      ensures Shape() && pos[current] == old(pos[current])
      ensures forall j | 0 <= j < |children| && j != current :: Placed(m.rank[j], at, pos[j], before)
    {
      var key := Key().ik;
      for j := 0 to |children|
        invariant Shape() && pos[current] == old(pos[current])
        invariant forall k | 0 <= k < j && k != current :: Placed(m.rank[k], at, pos[k], before)
      {
        if j != current {
          var index := PositionOther(j, key, before);
          pos := pos[j := index];
        }
      }
    }

    /** Next: after a change of direction the other children are first moved past the key. */
    method Next()
      requires OK() && Valid()
      modifies this
      ensures OK() && (Valid() <==> old(at) + 1 < |merged|)
      ensures Valid() ==> at == old(at) + 1
    {
      if !forward {
        PositionOthers(false);
        forward := true;
      }
      CurrentSplits();
      pos := pos[current := pos[current] + 1];
      FindSmallest(at + 1);
    }

    /** Prev: the mirror image, with children moved before the current key. */
    method Prev()
      requires OK() && Valid()
      modifies this
      ensures OK() && (Valid() <==> old(at) > 0)
      ensures Valid() ==> at == old(at) - 1
    {
      if forward {
        PositionOthers(true);
        forward := false;
      }
      CurrentSplits();
      pos := pos[current := pos[current] - 1];
      FindLargest(at);
    }

    /** In the current child, merged positions below and above the cursor split at its entry. */
    lemma CurrentSplits()
      requires Shape() && 0 <= current < |children| && ChildValid(current) && m.rank[current][pos[current]] == at
      ensures forall i | 0 <= i < |children[current]| :: m.rank[current][i] < at <==> i < pos[current]
      ensures forall i | 0 <= i < |children[current]| :: m.rank[current][i] <= at <==> i <= pos[current]
      ensures forall j, i | 0 <= j < |children| && j != current && 0 <= i < |children[j]| :: m.rank[j][i] != at
    {
      forall j, i | 0 <= j < |children| && j != current && 0 <= i < |children[j]|
        ensures m.rank[j][i] != at
      {
        assert m.home[m.rank[j][i]] == (j, i);
        assert m.home[at] == (current, pos[current]);
      }
    }
  }
}
