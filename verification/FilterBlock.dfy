/** The filter block: one filter for every 2 KB of data, and its reader. */
module FilterBlock {
  import opened Coding

  const FILTER_BASE_LG: byte := 11
  const FILTER_BASE: nat := 2048

  /** A filter policy: how filters are made, and what they answer. */
  datatype Policy = Policy(create: seq<Bytes> -> Bytes, mayMatch: (Bytes, Bytes) -> bool) {
    ghost predicate Sound() {
      forall keys, key | key in keys :: mayMatch(key, create(keys))
    }
  }

  /** The filters written for these groups of keys, one after the other. */
  function Filters(p: Policy, groups: seq<seq<Bytes>>): Bytes {
    if groups == [] then []
    else Filters(p, groups[..|groups| - 1]) + FilterOf(p, groups[|groups| - 1])
  }

  /** No filter is made for no keys. */
  function FilterOf(p: Policy, keys: seq<Bytes>): Bytes {
    if keys == [] then [] else p.create(keys)
  }

  function Starts(p: Policy, groups: seq<seq<Bytes>>): (r: seq<nat>)
    ensures |r| == |groups| && forall i | 0 <= i < |groups| :: r[i] == |Filters(p, groups[..i])|
  {
    seq(|groups|, i requires 0 <= i < |groups| => |Filters(p, groups[..i])|)
  }

  /** A finished filter block. */
  function Block(p: Policy, groups: seq<seq<Bytes>>): Bytes {
    Filters(p, groups) + FixedArray(Starts(p, groups)) + (Fixed(|Filters(p, groups)|, 4) + [FILTER_BASE_LG])
  }

  function Concat(keys: seq<Bytes>): Bytes {
    if keys == [] then [] else Concat(keys[..|keys| - 1]) + keys[|keys| - 1]
  }

  lemma {:induction false} ConcatGrows(keys: seq<Bytes>, i: nat)
    requires i <= |keys|
    ensures Concat(keys[..i]) <= Concat(keys)
    decreases |keys|
  {
    var n := |keys| - 1;
    if i <= n {
      ConcatGrows(keys[..n], i);
      assert keys[..n][..i] == keys[..i];
    } else {
      assert keys[..i] == keys;
    }
  }

  /** The keys one after the other, and where each starts. */
  ghost predicate Flattened(keys: Bytes, start: seq<nat>, pending: seq<Bytes>) {
    && keys == Concat(pending) && |start| == |pending|
    && forall i | 0 <= i < |pending| :: start[i] == |Concat(pending[..i])|
  }

  lemma FlattenedNext(keys: Bytes, start: seq<nat>, pending: seq<Bytes>, key: Bytes)
    requires Flattened(keys, start, pending)
    ensures Flattened(keys + key, start + [|keys|], pending + [key])
  {
    var more := pending + [key];
    assert more[..|pending|] == pending;
    forall i | 0 <= i < |pending|
      ensures more[..i] == pending[..i]
    {
    }
  }

  /** Cutting the flattened keys at their starts gives them back. */
  lemma FlattenedAt(keys: Bytes, start: seq<nat>, pending: seq<Bytes>, i: nat)
    requires Flattened(keys, start, pending) && i < |pending|
    ensures var limit := if i + 1 < |start| then start[i + 1] else |keys|;
      start[i] <= limit <= |keys| && keys[start[i]..limit] == pending[i]
  {
    var upTo := pending[..i + 1];
    assert upTo[..i] == pending[..i];
    assert i + 1 == |pending| ==> upTo == pending;
    ConcatGrows(pending, i + 1);
    ConcatGrows(pending, i);
    assert Concat(upTo) == Concat(pending[..i]) + pending[i];
    assert keys[start[i]..|Concat(upTo)|] == Concat(upTo)[start[i]..];
  }

  lemma StartsNext(p: Policy, groups: seq<seq<Bytes>>, g: seq<Bytes>)
    ensures Starts(p, groups + [g]) == Starts(p, groups) + [|Filters(p, groups)|]
    ensures Filters(p, groups + [g]) == Filters(p, groups) + FilterOf(p, g)
  {
    var more := groups + [g];
    assert more[..|groups|] == groups;
    forall i | 0 <= i < |groups|
      ensures more[..i] == groups[..i]
    {
    }
  }

  class FilterBlockBuilder {
    const policy: Policy
    var keys: Bytes
    var start: seq<nat>
    var result: Bytes
    var filterOffsets: seq<nat>
    /** The keys of each filter made, and those waiting for the next one. */
    ghost var groups: seq<seq<Bytes>>
    ghost var pending: seq<Bytes>
    /** Every key added, with the number of the filter it belongs to. */
    ghost var added: set<(nat, Bytes)>

    ghost predicate Valid()
      reads this
    {
      && result == Filters(policy, groups) && filterOffsets == Starts(policy, groups)
      && Flattened(keys, start, pending)
      && forall a | a in added :: if a.0 == |groups| then a.1 in pending else a.0 < |groups| && a.1 in groups[a.0]
    }

    constructor (policy: Policy)
      ensures Valid() && groups == [] && pending == [] && added == {} && this.policy == policy
    {
      this.policy := policy;
      keys, start, result, filterOffsets, groups, pending, added := [], [], [], [], [], [], {};
    }

    /** Give every block before this one its filter. */
    method StartBlock(blockOffset: nat)
      requires Valid() && |groups| <= blockOffset / FILTER_BASE
      modifies this
      ensures Valid() && |groups| == blockOffset / FILTER_BASE && added == old(added)
    {
      var filterIndex := blockOffset / FILTER_BASE;
      while filterIndex > |filterOffsets|
        invariant Valid() && |groups| <= filterIndex && added == old(added)
        decreases filterIndex - |filterOffsets|
      {
        GenerateFilter();
      }
    }

    method AddKey(key: Bytes)
      requires Valid()
      modifies this
      ensures Valid() && groups == old(groups) && added == old(added) + {(|groups|, key)}
    {
      FlattenedNext(keys, start, pending, key);
      start := start + [|keys|];
      keys := keys + key;
      pending := pending + [key];
      added := added + {(|groups|, key)};
    }

    method GenerateFilter()
      requires Valid()
      modifies this
      ensures Valid() && groups == old(groups) + [old(pending)] && pending == [] && added == old(added)
    {
      StartsNext(policy, groups, pending);
      var numKeys := |start|;
      if numKeys == 0 {
        filterOffsets := filterOffsets + [|result|];
        groups, pending := groups + [pending], [];
        return;
      }
      hide Starts, Flattened;
      var tmpKeys := SplitKeys();
      filterOffsets := filterOffsets + [|result|];
      result := result + policy.create(tmpKeys);
      keys, start := [], [];
      groups, pending := groups + [pending], [];
    }

    /** The list of keys made again from the flattened ones. */
    method SplitKeys() returns (tmpKeys: seq<Bytes>)
      requires Valid()
      ensures tmpKeys == pending
    {
      var ends := start + [|keys|];
      tmpKeys := [];
      for i := 0 to |start|
        invariant tmpKeys == pending[..i]
      {
        FlattenedAt(keys, start, pending, i);
        tmpKeys := tmpKeys + [keys[ends[i]..ends[i + 1]]];
      }
    }

    method Finish() returns (block: Bytes)
      requires Valid()
      modifies this
      ensures block == Block(policy, groups) && added == old(added)
      ensures forall a | a in added :: a.0 < |groups| && a.1 in groups[a.0]
    {
      if start != [] {
        GenerateFilter();
      }
      hide Filters, Starts, FixedArray, Fixed;
      var arrayOffset := |result|;
      var table := AppendOffsets(filterOffsets);
      block := result + table + (Fixed(arrayOffset, 4) + [FILTER_BASE_LG]);
    }
  }

  method AppendOffsets(xs: seq<nat>) returns (table: Bytes)
    ensures table == FixedArray(xs)
  {
    table := [];
    for i := 0 to |xs|
      invariant table == FixedArray(xs[..i])
    {
      assert xs[..i + 1][..i] == xs[..i];
      table := table + Fixed(xs[i], 4);
    }
    assert xs[..|xs|] == xs;
  }

  // ----- Reading -----

  /** The reader's view of a block: none when it is malformed. */
  datatype View = View(offset: nat, num: nat, baseLg: nat)

  function Open(contents: Bytes): (r: View)
    ensures r.num > 0 ==> r.offset + 4 * r.num + 5 <= |contents|
  {
    var n := |contents|;
    if n < 5 then View(0, 0, 0)
    else
      var lastWord := FromFixed(contents[n - 5..n - 1]);
      if lastWord > n - 5 then View(0, 0, contents[n - 1])
      else View(lastWord, (n - 5 - lastWord) / 4, contents[n - 1])
  }

  /** FilterBlockReader::KeyMayMatch: what cannot be read counts as a match. */
  method KeyMayMatch(p: Policy, contents: Bytes, blockOffset: nat, key: Bytes) returns (r: bool)
    ensures r == MayMatch(p, contents, blockOffset, key)
  {
    hide FromFixed, Pow, Open;
    var v := Open(contents);
    PowPositive(2, v.baseLg);
    var index := blockOffset / Pow(2, v.baseLg);
    if index < v.num {
      var start := FromFixed(contents[v.offset + index * 4..v.offset + index * 4 + 4]);
      var limit := FromFixed(contents[v.offset + index * 4 + 4..v.offset + index * 4 + 8]);
      if start <= limit && limit <= v.offset {
        return p.mayMatch(key, contents[start..limit]);
      } else if start == limit {
        return false;
      }
    }
    r := true;
  }

  lemma {:induction false} PowPositive(b: nat, n: nat)
    requires b > 0
    ensures Pow(b, n) > 0
  {
    if n > 0 {
      PowPositive(b, n - 1);
    }
  }

  ghost function MayMatch(p: Policy, contents: Bytes, blockOffset: nat, key: Bytes): bool {
    var v := Open(contents);
    PowPositive(2, v.baseLg);
    var index := blockOffset / Pow(2, v.baseLg);
    index < v.num ==>
      var start := FromFixed(contents[v.offset + index * 4..v.offset + index * 4 + 4]);
      var limit := FromFixed(contents[v.offset + index * 4 + 4..v.offset + index * 4 + 8]);
      if start <= limit <= v.offset then p.mayMatch(key, contents[start..limit]) else start != limit
  }

  lemma {:induction false} FiltersGrow(p: Policy, groups: seq<seq<Bytes>>, i: nat)
    requires i <= |groups|
    ensures Filters(p, groups[..i]) <= Filters(p, groups)
    decreases |groups|
  {
    var n := |groups| - 1;
    if i <= n {
      FiltersGrow(p, groups[..n], i);
      assert groups[..n][..i] == groups[..i];
    } else {
      assert groups[..i] == groups;
    }
  }

  /** Where the reader finds filter i of a finished block. */
  lemma FilterAt(p: Policy, groups: seq<seq<Bytes>>, i: nat)
    requires i < |groups| && |Block(p, groups)| < TWO32
    ensures var b, start, limit := Block(p, groups), |Filters(p, groups[..i])|, |Filters(p, groups[..i + 1])|;
      && start <= limit <= |Filters(p, groups)| <= |b| && b[start..limit] == FilterOf(p, groups[i])
  {
    hide FixedArray, Fixed;
    FiltersGrow(p, groups, i + 1);
    var upTo := groups[..i + 1];
    assert upTo[..i] == groups[..i];
    assert Block(p, groups)[..|Filters(p, upTo)|] == Filters(p, upTo);
    assert Filters(p, upTo) == Filters(p, groups[..i]) + FilterOf(p, groups[i]);
    SliceOfPrefix(Block(p, groups), |Filters(p, groups[..i])|, |Filters(p, upTo)|);
  }

  lemma SliceOfPrefix(b: Bytes, i: nat, j: nat)
    requires i <= j <= |b|
    ensures b[i..j] == b[..j][i..]
  {
  }

  lemma Middle(a: Bytes, b: Bytes, c: Bytes, i: nat, at: nat)
    requires i + 4 <= |b| && at == |a| + i
    ensures at + 4 <= |a + b + c| && (a + b + c)[at..at + 4] == b[i..i + 4]
  {
  }

  lemma Reads(v: nat)
    requires v < TWO32
    ensures FromFixed(Fixed(v, 4)) == v
  {
    PowersOf256();
    FixedRoundTrip(v, 4);
  }

  lemma BlockOpens(p: Policy, groups: seq<seq<Bytes>>)
    requires |Block(p, groups)| < TWO32
    ensures Open(Block(p, groups)) == View(|Filters(p, groups)|, |groups|, 11)
  {
    hide Filters, FixedArray, Fixed, FromFixed;
    var filters, table := Filters(p, groups), FixedArray(Starts(p, groups));
    var tail := Fixed(|filters|, 4) + [FILTER_BASE_LG];
    var b, n := Block(p, groups), |Block(p, groups)|;
    TailHead(filters, table, Fixed(|filters|, 4), [FILTER_BASE_LG], n - 5);
    Reads(|filters|);
    assert n - 5 == |filters| + 4 * |groups|;
    assert b[n - 1] == FILTER_BASE_LG;
    assert (4 * |groups|) / 4 == |groups|;
  }

  ghost predicate OffsetsAt(b: Bytes, at: nat, start: nat, limit: nat) {
    at + 8 <= |b| && FromFixed(b[at..at + 4]) == start && FromFixed(b[at + 4..at + 8]) == limit
  }

  /** Entry i of the offset array, and the one after it, which for the last filter is the
      array's own offset. */
  lemma OffsetsRead(p: Policy, groups: seq<seq<Bytes>>, i: nat)
    requires i < |groups| && |Block(p, groups)| < TWO32
    ensures OffsetsAt(Block(p, groups), |Filters(p, groups)| + 4 * i, |Filters(p, groups[..i])|, |Filters(p, groups[..i + 1])|)
  {
    hide Filters, FixedArray, Fixed, FromFixed, OffsetsAt;
    FiltersGrow(p, groups, i);
    FiltersGrow(p, groups, i + 1);
    assert i + 1 == |groups| ==> groups[..i + 1] == groups;
    NeighbourOffsets(Filters(p, groups), Starts(p, groups), i, |Filters(p, groups[..i + 1])|);
  }

  lemma NeighbourOffsets(filters: Bytes, xs: seq<nat>, i: nat, next: nat)
    requires i < |xs| && xs[i] < TWO32 && next < TWO32
    requires next == if i + 1 < |xs| then xs[i + 1] else |filters|
    ensures OffsetsAt(filters + FixedArray(xs) + (Fixed(|filters|, 4) + [FILTER_BASE_LG]), |filters| + 4 * i, xs[i], next)
  {
    hide *;
    var at := |filters| + 4 * i;
    OffsetAt(filters, xs, Fixed(|filters|, 4) + [FILTER_BASE_LG], i, at);
    NextOffset(filters, xs, i, next, at + 4);
    TwoOffsets(filters + FixedArray(xs) + (Fixed(|filters|, 4) + [FILTER_BASE_LG]), at, xs[i], next);
  }

  lemma NextOffset(filters: Bytes, xs: seq<nat>, i: nat, next: nat, at: nat)
    requires i < |xs| && next < TWO32 && at == |filters| + 4 * i + 4
    requires next == if i + 1 < |xs| then xs[i + 1] else |filters|
    ensures var b := filters + FixedArray(xs) + (Fixed(|filters|, 4) + [FILTER_BASE_LG]);
      at + 4 <= |b| && FromFixed(b[at..at + 4]) == next
  {
    hide *;
    if i + 1 < |xs| {
      OffsetAt(filters, xs, Fixed(|filters|, 4) + [FILTER_BASE_LG], i + 1, at);
    } else {
      LastOffset(filters, xs, at);
    }
  }

  lemma TwoOffsets(b: Bytes, at: nat, start: nat, limit: nat)
    requires at + 8 <= |b| && FromFixed(b[at..at + 4]) == start && FromFixed(b[at + 4..at + 4 + 4]) == limit
    ensures OffsetsAt(b, at, start, limit)
  {
    hide FromFixed;
  }

  lemma OffsetAt(filters: Bytes, xs: seq<nat>, tail: Bytes, i: nat, at: nat)
    requires i < |xs| && xs[i] < TWO32 && at == |filters| + 4 * i
    ensures at + 4 <= |filters + FixedArray(xs) + tail| && FromFixed((filters + FixedArray(xs) + tail)[at..at + 4]) == xs[i]
  {
    hide *;
    Middle(filters, FixedArray(xs), tail, 4 * i, at);
    ArrayElement(xs, i);
    Reads(xs[i]);
  }

  lemma TailHead(a: Bytes, b: Bytes, c: Bytes, d: Bytes, at: nat)
    requires at == |a| + |b| && |c| == 4
    ensures at + 4 <= |a + b + (c + d)| && (a + b + (c + d))[at..at + 4] == c
  {
  }

  lemma LastOffset(filters: Bytes, xs: seq<nat>, at: nat)
    requires |filters| < TWO32 && at == |filters| + |FixedArray(xs)|
    ensures var b := filters + FixedArray(xs) + (Fixed(|filters|, 4) + [FILTER_BASE_LG]);
      at + 4 <= |b| && FromFixed(b[at..at + 4]) == |filters|
  {
    hide *;
    TailHead(filters, FixedArray(xs), Fixed(|filters|, 4), [FILTER_BASE_LG], at);
    Reads(|filters|);
  }

  lemma BaseIsTwoKB()
    ensures Pow(2, FILTER_BASE_LG) == FILTER_BASE
  {
    assert Pow(2, 4) == 16 && Pow(2, 8) == 256;
  }

  /** The reader asks the policy about the filter of the offset's own 2 KB, and beyond the last
      filter it rules nothing out. */
  lemma FilterIsAsked(p: Policy, groups: seq<seq<Bytes>>, key: Bytes, blockOffset: nat)
    requires |Block(p, groups)| < TWO32
    ensures var i := blockOffset / FILTER_BASE;
      MayMatch(p, Block(p, groups), blockOffset, key)
      <==> (i < |groups| ==> p.mayMatch(key, if groups[i] == [] then [] else p.create(groups[i])))
  {
    hide MayMatch, Block, Filters, OffsetsAt, Open;
    var i := blockOffset / FILTER_BASE;
    BlockOpens(p, groups);
    if i < |groups| {
      OffsetsRead(p, groups, i);
      FilterAt(p, groups, i);
      AsksAt(p, Block(p, groups), blockOffset, key, |Filters(p, groups)|, |groups|, i, |Filters(p, groups[..i])|, |Filters(p, groups[..i + 1])|);
    } else {
      BeyondFilters(p, Block(p, groups), blockOffset, key, |Filters(p, groups)|, |groups|);
    }
  }

  lemma AsksAt(p: Policy, b: Bytes, blockOffset: nat, key: Bytes, offset: nat, num: nat, i: nat, start: nat, limit: nat)
    requires Open(b) == View(offset, num, 11) && i < num && blockOffset / FILTER_BASE == i
    requires OffsetsAt(b, offset + 4 * i, start, limit) && start <= limit <= offset <= |b|
    ensures MayMatch(p, b, blockOffset, key) <==> p.mayMatch(key, b[start..limit])
  {
    BaseIsTwoKB();
    hide Open, FromFixed, Pow;
  }

  lemma BeyondFilters(p: Policy, b: Bytes, blockOffset: nat, key: Bytes, offset: nat, num: nat)
    requires Open(b) == View(offset, num, 11) && blockOffset / FILTER_BASE >= num
    ensures MayMatch(p, b, blockOffset, key)
  {
    BaseIsTwoKB();
    hide Open, FromFixed, Pow;
  }

  /** No false negatives: a key of filter i may match at every offset of that filter's 2 KB. */
  lemma NoFalseNegatives(p: Policy, groups: seq<seq<Bytes>>, i: nat, key: Bytes, blockOffset: nat)
    requires p.Sound() && i < |groups| && key in groups[i] && blockOffset / FILTER_BASE == i
    requires |Block(p, groups)| < TWO32
    ensures MayMatch(p, Block(p, groups), blockOffset, key)
  {
    hide MayMatch, Block;
    FilterIsAsked(p, groups, key, blockOffset);
  }
}
