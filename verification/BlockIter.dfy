/** Reading a block: a cursor over its entries, found through the restart array. */
module BlockReading {
  import opened Basics
  import opened Coding
  import opened BlockFormat
  import opened BlockBuilding

  type Comparator = (Bytes, Bytes) -> int

  ghost predicate Transitive(cmp: Comparator) {
    forall a: Bytes, b: Bytes, c: Bytes :: cmp(a, b) < 0 && cmp(b, c) < 0 ==> cmp(a, c) < 0
  }

  ghost predicate Increasing(cmp: Comparator, es: seq<KeyValue>) {
    forall i, j | 0 <= i < j < |es| :: cmp(es[i].key, es[j].key) < 0
  }

  function RestartPoint(data: Bytes, restarts: nat, index: nat): nat
    requires restarts + 4 * index + 4 <= |data|
  {
    FromFixed(data[restarts + 4 * index..restarts + 4 * index + 4])
  }

  /** The data area holds these entries and the restart array these points. */
  ghost predicate Holds(data: Bytes, restarts: nat, num: nat, es: seq<KeyValue>, points: seq<nat>) {
    && restarts + 4 * num <= |data|
    && Storable(es) && RestartPoints(points, |es|) && num == |points|
    && data[..restarts] == Body(es, points, |es|)
    && forall r | 0 <= r < num :: points[r] <= |es| && RestartPoint(data, restarts, r) == Offset(es, points, points[r])
  }

  /** An iterator between entries: the next one to parse is entry m. */
  ghost predicate Ready(es: seq<KeyValue>, points: seq<nat>, m: nat, key: Bytes, next: nat, index: nat) {
    && m <= |es| && next == Offset(es, points, m)
    && index < |points| && points[index] <= m && (index + 1 < |points| ==> m <= points[index + 1] + 1)
    && (m == 0 || m in points || key == es[m - 1].key)
  }

  /** An iterator at entry i. */
  ghost predicate Stands(es: seq<KeyValue>, points: seq<nat>, i: nat, key: Bytes, value: Bytes, current: nat, next: nat, index: nat) {
    && i < |es| && current == Offset(es, points, i) && next == Offset(es, points, i + 1)
    && key == es[i].key && value == es[i].value && Bracket(points, index, i)
  }

  /** The restart point at or before an entry, or the one before that if the entry is one. */
  ghost predicate Bracket(points: seq<nat>, index: nat, i: nat) {
    index < |points| && points[index] <= i && (index + 1 < |points| ==> i <= points[index + 1])
  }

  lemma StandsIsReady(es: seq<KeyValue>, points: seq<nat>, i: nat, key: Bytes, value: Bytes, current: nat, next: nat, index: nat)
    requires Stands(es, points, i, key, value, current, next, index)
    ensures Ready(es, points, i + 1, key, next, index) && i < |es| && index < |points|
    ensures current == Offset(es, points, i) && next == Offset(es, points, i + 1) && Bracket(points, index, i)
  {
  }

  lemma {:induction false} BodySlice(es: seq<KeyValue>, points: seq<nat>, i: nat)
    requires i < |es|
    ensures Offset(es, points, i) <= Offset(es, points, i + 1) <= Offset(es, points, |es|)
    ensures Body(es, points, |es|)[Offset(es, points, i)..Offset(es, points, i + 1)] == EntryBytes(Shared(es, points, i), es[i])
  {
    hide EntryBytes, Shared;
    BodyGrows(es, points, i, |es|);
    BodyGrows(es, points, i + 1, |es|);
    var whole := Body(es, points, |es|);
    assert whole[..Offset(es, points, i + 1)] == Body(es, points, i + 1);
    assert whole[Offset(es, points, i)..Offset(es, points, i + 1)] == Body(es, points, i + 1)[Offset(es, points, i)..];
  }

  lemma EntryAt(data: Bytes, restarts: nat, num: nat, es: seq<KeyValue>, points: seq<nat>, i: nat)
    requires Holds(data, restarts, num, es, points) && i < |es|
    ensures var off, end := Offset(es, points, i), Offset(es, points, i + 1);
      off < end <= restarts && data[off..end] == EntryBytes(Shared(es, points, i), es[i])
  {
    hide EntryBytes, Shared, Body, Storable, RestartPoints;
    BodySlice(es, points, i);
    OffsetOrder(es, points, i, i + 1);
    PrefixSlice(data, restarts, Offset(es, points, i), Offset(es, points, i + 1));
  }

  lemma PrefixSlice(data: Bytes, n: nat, from: nat, to: nat)
    requires from <= to <= n <= |data|
    ensures data[from..to] == data[..n][from..to]
  {
  }

  /** Decoding at off, after a key, gives this entry and ends at end. */
  ghost predicate Parses(data: Bytes, off: nat, limit: nat, key: Bytes, e: KeyValue, end: nat)
    requires limit <= |data|
  {
    match Decode(data, off, limit)
    case None => false
    case Some(h) =>
      && h.shared <= |key|
      && h.start + h.nonShared + h.valueLength == end
      && key[..h.shared] + data[h.start..h.start + h.nonShared] == e.key
      && data[h.start + h.nonShared..end] == e.value
  }

  /** Parsing at an entry's offset rebuilds its key from the previous one, and its value. */
  lemma EntryParsed(data: Bytes, restarts: nat, num: nat, es: seq<KeyValue>, points: seq<nat>, m: nat, key: Bytes)
    requires Holds(data, restarts, num, es, points) && m < |es|
    requires m == 0 || m in points || key == es[m - 1].key
    ensures restarts <= |data| && Parses(data, Offset(es, points, m), restarts, key, es[m], Offset(es, points, m + 1))
  {
    EntryAt(data, restarts, num, es, points, m);
    KeyJoined(es, points, m, key);
    Lengths(data, restarts, num, es, points, m);
    EncodedParses(data, Offset(es, points, m), Offset(es, points, m + 1), restarts, Shared(es, points, m), key, es[m]);
  }

  lemma EncodedParses(data: Bytes, off: nat, end: nat, limit: nat, shared: nat, key: Bytes, e: KeyValue)
    requires shared <= |e.key| < TWO32 && |e.value| < TWO32
    requires off <= end <= limit <= |data| && data[off..end] == EntryBytes(shared, e)
    requires shared <= |key| && key[..shared] + e.key[shared..] == e.key
    ensures Parses(data, off, limit, key, e, end)
  {
    hide Decode, EntryBytes;
    DecodeEncoded(data, off, end, limit, shared, e);
  }

  lemma Lengths(data: Bytes, restarts: nat, num: nat, es: seq<KeyValue>, points: seq<nat>, m: nat)
    requires Holds(data, restarts, num, es, points) && m < |es|
    ensures |es[m].key| < TWO32 && |es[m].value| < TWO32 && restarts <= |data|
  {
  }

  lemma KeyJoined(es: seq<KeyValue>, points: seq<nat>, m: nat, key: Bytes)
    requires m < |es| && (m == 0 || m in points || key == es[m - 1].key)
    ensures var shared := Shared(es, points, m);
      shared <= |key| && key[..shared] + es[m].key[shared..] == es[m].key
  {
    var shared := Shared(es, points, m);
    assert shared <= |key| && key[..shared] == es[m].key[..shared];
    assert es[m].key[..shared] + es[m].key[shared..] == es[m].key;
  }

  /** The whole key stands at a restart point. */
  lemma RestartKey(data: Bytes, restarts: nat, num: nat, es: seq<KeyValue>, points: seq<nat>, r: nat)
    requires Holds(data, restarts, num, es, points) && 0 < r < num
    ensures points[r] < |es| && restarts + 4 * r + 4 <= |data|
    ensures Parses(data, RestartPoint(data, restarts, r), restarts, [], es[points[r]], Offset(es, points, points[r] + 1))
  {
    EntryParsed(data, restarts, num, es, points, points[r], []);
  }

  lemma WholeKey(data: Bytes, off: nat, limit: nat, e: KeyValue, end: nat)
    requires limit <= |data| && Parses(data, off, limit, [], e, end)
    ensures var h := Decode(data, off, limit);
      h.Some? && h.value.shared == 0 && data[h.value.start..h.value.start + h.value.nonShared] == e.key
  {
    hide Decode;
    var h := Decode(data, off, limit).value;
    Empty(data[h.start..h.start + h.nonShared]);
  }

  lemma Empty(s: Bytes)
    ensures [][..0] + s == s
  {
  }

  lemma ReadyOffset(es: seq<KeyValue>, points: seq<nat>, m: nat, key: Bytes, next: nat, index: nat)
    requires Ready(es, points, m, key, next, index)
    ensures m <= |es| && next == Offset(es, points, m) && index < |points| && points[index] <= m
  {
  }

  /** What ParseNextKey finds at a ready position. */
  lemma ReadyParses(data: Bytes, restarts: nat, num: nat, es: seq<KeyValue>, points: seq<nat>, m: nat, key: Bytes, next: nat, index: nat)
    requires Holds(data, restarts, num, es, points) && Ready(es, points, m, key, next, index) && restarts <= |data|
    ensures next < restarts <==> m < |es|
    ensures m < |es| ==> Parses(data, next, restarts, key, es[m], Offset(es, points, m + 1))
  {
    EndOffset(data, restarts, num, es, points, m);
    if m < |es| {
      EntryParsed(data, restarts, num, es, points, m, key);
    }
  }

  /** Restart offsets compare like the entries they point at. */
  lemma RestartOrder(data: Bytes, restarts: nat, num: nat, es: seq<KeyValue>, points: seq<nat>, r: nat, m: nat)
    requires Holds(data, restarts, num, es, points) && r < num && m <= |es|
    ensures RestartPoint(data, restarts, r) < Offset(es, points, m) <==> points[r] < m
  {
    OffsetOrder(es, points, points[r], m);
  }

  lemma EndOffset(data: Bytes, restarts: nat, num: nat, es: seq<KeyValue>, points: seq<nat>, m: nat)
    requires Holds(data, restarts, num, es, points) && m <= |es|
    ensures Offset(es, points, |es|) == restarts
    ensures Offset(es, points, m) < restarts <==> m < |es|
  {
    OffsetOrder(es, points, m, |es|);
    assert |data[..restarts]| == restarts;
  }

  lemma ReadyAtRestart(data: Bytes, restarts: nat, num: nat, es: seq<KeyValue>, points: seq<nat>, r: nat)
    requires Holds(data, restarts, num, es, points) && r < num
    ensures Ready(es, points, points[r], [], RestartPoint(data, restarts, r), r)
  {
    assert r + 1 < num ==> points[r] < points[r + 1];
  }

  /** The first entry whose key is not below the target, or the end. */
  ghost predicate LowerBound(cmp: Comparator, es: seq<KeyValue>, target: Bytes, i: nat) {
    && i <= |es|
    && (forall j | 0 <= j < i :: cmp(es[j].key, target) < 0)
    && (forall j | i <= j < |es| :: cmp(es[j].key, target) >= 0)
  }

  ghost predicate AllBelow(cmp: Comparator, es: seq<KeyValue>, target: Bytes, i: nat) {
    i <= |es| && forall j | 0 <= j < i :: cmp(es[j].key, target) < 0
  }

  lemma BelowEarlier(cmp: Comparator, es: seq<KeyValue>, target: Bytes, i: nat)
    requires Transitive(cmp) && Increasing(cmp, es) && i < |es| && cmp(es[i].key, target) < 0
    ensures AllBelow(cmp, es, target, i + 1)
  {
    forall j | 0 <= j < i
      ensures cmp(es[j].key, target) < 0
    {
      assert cmp(es[j].key, es[i].key) < 0;
    }
  }

  lemma FirstNotBelow(cmp: Comparator, es: seq<KeyValue>, target: Bytes, i: nat)
    requires Transitive(cmp) && Increasing(cmp, es) && AllBelow(cmp, es, target, i)
    requires i < |es| ==> cmp(es[i].key, target) >= 0
    ensures LowerBound(cmp, es, target, i)
  {
    forall j | i < j < |es|
      ensures cmp(es[j].key, target) >= 0
    {
      assert cmp(es[i].key, es[j].key) < 0;
    }
  }

  // ----- Opening a block -----

  datatype Opened = BadContents | NoEntries | Readable(restarts: nat, numRestarts: nat)

  /** Block's constructor and NewIterator: find the restart array from the end. */
  function Open(contents: Bytes): (r: Opened)
    ensures r.Readable? ==> r.numRestarts > 0 && r.restarts + 4 * r.numRestarts + 4 == |contents|
  {
    if |contents| < 4 then BadContents
    else
      var num := FromFixed(contents[|contents| - 4..]);
      if num > (|contents| - 4) / 4 then BadContents
      else if num == 0 then NoEntries
      else Readable(|contents| - (1 + num) * 4, num)
  }

  /** A finished block opens to an iterator over exactly its entries. */
  lemma FinishedBlockOpens(es: seq<KeyValue>, points: seq<nat>)
    requires Storable(es) && RestartPoints(points, |es|) && (forall i | 0 <= i < |points| :: points[i] <= |es|)
    requires |Block(es, points)| < TWO32
    ensures Open(Block(es, points)) == Readable(Offset(es, points, |es|), |points|)
    ensures Holds(Block(es, points), Offset(es, points, |es|), |points|, es, points)
  {
    hide Body, Storable, FixedArray, Fixed, RestartPoint, Open;
    ArrayOpens(Body(es, points, |es|), Offsets(es, points));
    forall r | 0 <= r < |points|
      ensures RestartPoint(Block(es, points), Offset(es, points, |es|), r) == Offset(es, points, points[r])
    {
      RestartInBlock(es, points, r);
    }
  }

  lemma ArrayOpens(body: Bytes, xs: seq<nat>)
    requires xs != [] && |body| + 4 * |xs| + 4 < TWO32
    ensures var data := body + FixedArray(xs) + Fixed(|xs|, 4);
      Open(data) == Readable(|body|, |xs|) && data[..|body|] == body
  {
    var data := body + FixedArray(xs) + Fixed(|xs|, 4);
    hide FixedArray, Fixed, FromFixed, Open;
    Ends(body, FixedArray(xs), Fixed(|xs|, 4));
    StoredOffset(|xs|);
    CountOpens(data, |body|, |xs|);
  }

  lemma Ends(a: Bytes, b: Bytes, c: Bytes)
    ensures (a + b + c)[..|a|] == a && (a + b + c)[|a| + |b|..] == c
  {
  }

  lemma CountOpens(contents: Bytes, restarts: nat, num: nat)
    requires num > 0 && |contents| == restarts + 4 * num + 4 && FromFixed(contents[|contents| - 4..]) == num
    ensures Open(contents) == Readable(restarts, num)
  {
    hide FromFixed;
    assert (|contents| - 4) / 4 >= num;
  }

  lemma RestartInBlock(es: seq<KeyValue>, points: seq<nat>, r: nat)
    requires (forall i | 0 <= i < |points| :: points[i] <= |es|) && r < |points|
    requires |Block(es, points)| < TWO32
    ensures Offset(es, points, |es|) + 4 * r + 4 <= |Block(es, points)|
    ensures RestartPoint(Block(es, points), Offset(es, points, |es|), r) == Offset(es, points, points[r])
  {
    hide Body, FixedArray, Fixed, Pow, FromFixed;
    BodyGrows(es, points, points[r], |es|);
    StoredElement(Body(es, points, |es|), Offsets(es, points), |points|, r);
  }

  lemma StoredElement(body: Bytes, xs: seq<nat>, n: nat, r: nat)
    requires r < |xs| && xs[r] < TWO32
    ensures RestartPoint(body + FixedArray(xs) + Fixed(n, 4), |body|, r) == xs[r]
  {
    hide FixedArray, Fixed, FromFixed;
    ArrayElement(xs, r);
    MiddleSlice(body, FixedArray(xs), Fixed(n, 4), 4 * r, 4 * r + 4);
    StoredOffset(xs[r]);
  }

  lemma StoredOffset(v: nat)
    requires v < TWO32
    ensures FromFixed(Fixed(v, 4)) == v
  {
    PowersOf256();
    FixedRoundTrip(v, 4);
  }

  lemma MiddleSlice(a: Bytes, b: Bytes, c: Bytes, i: nat, j: nat)
    requires i <= j <= |b|
    ensures (a + b + c)[|a| + i..|a| + j] == b[i..j]
  {
  }

  class BlockIter {
    const cmp: Comparator
    const data: Bytes
    const restarts: nat
    const numRestarts: nat
    ghost const es: seq<KeyValue>
    ghost const points: seq<nat>
    var current: nat
    var restartIndex: nat
    var key: Bytes
    var valueStart: nat
    var valueEnd: nat
    var corrupt: bool

    ghost predicate Shape()
      reads this
    {
      numRestarts > 0 && restarts + 4 * numRestarts <= |data| && valueStart <= valueEnd
    }

    ghost predicate OK()
      reads this
    {
      Shape() && (Valid() ==> valueEnd <= restarts && restartIndex < numRestarts)
    }

    /** The block was built from these entries. */
    ghost predicate Built() {
      Holds(data, restarts, numRestarts, es, points)
    }

    ghost predicate Sorted() {
      Transitive(cmp) && Increasing(cmp, es)
    }

    ghost predicate At(i: nat)
      requires OK()
      reads this
    {
      Valid() && Stands(es, points, i, key, data[valueStart..valueEnd], current, valueEnd, restartIndex)
    }

    /** At entry i, or past the end. */
    ghost predicate Cursor(i: nat)
      requires OK()
      reads this
    {
      if i < |es| then At(i) else !Valid()
    }

    ghost predicate Before(m: nat)
      reads this
    {
      Ready(es, points, m, key, valueEnd, restartIndex)
    }

    predicate Valid()
      reads this
    {
      current < restarts
    }

    constructor (cmp: Comparator, data: Bytes, restarts: nat, numRestarts: nat, ghost es: seq<KeyValue>, ghost points: seq<nat>)
      requires numRestarts > 0 && restarts + 4 * numRestarts <= |data|
      ensures OK() && !Valid() && !corrupt
      ensures this.cmp == cmp && this.data == data && this.restarts == restarts && this.numRestarts == numRestarts
      ensures this.es == es && this.points == points
    {
      this.cmp, this.data, this.restarts, this.numRestarts, this.es, this.points := cmp, data, restarts, numRestarts, es, points;
      current, restartIndex, key, valueStart, valueEnd, corrupt := restarts, numRestarts, [], restarts, restarts, false;
    }

    function Value(): Bytes
      requires OK() && Valid()
      reads this
    {
      data[valueStart..valueEnd]
    }

    function GetRestartPoint(index: nat): nat
      requires index < numRestarts && restarts + 4 * numRestarts <= |data|
    {
      RestartPoint(data, restarts, index)
    }

    method SeekToRestartPoint(index: nat)
      requires Shape() && index < numRestarts
      modifies `key, `restartIndex, `valueStart, `valueEnd
      ensures Shape() && restartIndex == index && valueEnd == GetRestartPoint(index)
      ensures Built() ==> Before(points[index])
    {
      key := [];
      restartIndex := index;
      valueStart, valueEnd := GetRestartPoint(index), GetRestartPoint(index);
      if Built() {
        ReadyAtRestart(data, restarts, numRestarts, es, points, index);
      }
    }

    method CorruptionError()
      modifies `key, `restartIndex, `valueStart, `valueEnd, `current, `corrupt
      ensures !Valid() && corrupt && valueStart == valueEnd
    {
      current, restartIndex, corrupt := restarts, numRestarts, true;
      key, valueStart, valueEnd := [], restarts, restarts;
    }

    /** Entry m starts at the current offset and not before the current restart point. */
    ghost predicate Follows(m: nat)
      reads this
    {
      Built() && m <= |es| && current == Offset(es, points, m) && restartIndex < |points| && points[restartIndex] <= m
    }

    /** Follow the restart points up to the current entry. */
    method AdvanceRestart(ghost m: nat)
      requires Shape() && restartIndex < numRestarts
      modifies `restartIndex
      ensures restartIndex < numRestarts
      ensures old(Follows(m)) ==> Bracket(points, restartIndex, m)
    {
      hide Holds, RestartPoint;
      while restartIndex + 1 < numRestarts && GetRestartPoint(restartIndex + 1) < current
        invariant restartIndex < numRestarts
        invariant old(Follows(m)) ==> Follows(m)
        decreases numRestarts - restartIndex
      {
        if Follows(m) {
          NextRestart(m);
        }
        restartIndex := restartIndex + 1;
      }
      if Follows(m) {
        NextRestart(m);
      }
    }

    lemma NextRestart(m: nat)
      requires Follows(m) && restartIndex < numRestarts
      ensures |points| == numRestarts && restarts + 4 * numRestarts <= |data|
      ensures restartIndex + 1 < numRestarts ==> (GetRestartPoint(restartIndex + 1) < current <==> points[restartIndex + 1] < m)
    {
      if restartIndex + 1 < numRestarts {
        RestartOrder(data, restarts, numRestarts, es, points, restartIndex + 1, m);
      }
    }

    lemma Upcoming(m: nat) returns (e: Option<(KeyValue, nat)>)
      requires Shape()
      ensures e.Some? <==> Built() && Before(m) && valueEnd < restarts
      ensures e.Some? ==> m < |es| && e.value == (es[m], Offset(es, points, m + 1)) && Parses(data, valueEnd, restarts, key, e.value.0, e.value.1)
      ensures Built() && Before(m) ==>
        && m <= |es| && valueEnd == Offset(es, points, m) && restartIndex < |points| && points[restartIndex] <= m
        && (valueEnd < restarts <==> m < |es|)
    {
      e := None;
      if Built() && Before(m) {
        ReadyParses(data, restarts, numRestarts, es, points, m, key, valueEnd, restartIndex);
        ReadyOffset(es, points, m, key, valueEnd, restartIndex);
        if valueEnd < restarts {
          e := Some((es[m], Offset(es, points, m + 1)));
        }
      }
    }

    /** Move to the entry that starts where the current one ends. */
    method ParseNextKey(ghost m: nat) returns (ok: bool)
      requires Shape() && restartIndex < numRestarts
      modifies `key, `restartIndex, `valueStart, `valueEnd, `current, `corrupt
      ensures OK() && ok == Valid()
      ensures ok ==> current == old(valueEnd) < valueEnd
      ensures Built() && old(Before(m)) ==> Cursor(m) && corrupt == old(corrupt)
    {
      hide Holds, Ready, Parses, Bracket;
      ghost var e := Upcoming(m);
      current := valueEnd;
      if current >= restarts {
        current, restartIndex := restarts, numRestarts;
        return false;
      }
      ok := LoadEntry(e);
      if ok {
        AdvanceRestart(m);
      }
    }

    /** Decode the entry at the current offset. */
    method LoadEntry(ghost e: Option<(KeyValue, nat)>) returns (ok: bool)
      requires Shape() && restartIndex < numRestarts && current == valueEnd < restarts
      requires e.Some? ==> Parses(data, current, restarts, key, e.value.0, e.value.1)
      modifies `key, `restartIndex, `valueStart, `valueEnd, `current, `corrupt
      ensures Shape() && ok == Valid()
      ensures ok ==> current == old(current) < valueEnd <= restarts && restartIndex == old(restartIndex) && corrupt == old(corrupt)
      ensures e.Some? ==> ok && key == e.value.0.key && valueEnd == e.value.1 && data[valueStart..valueEnd] == e.value.0.value
    {
      hide Decode;
      var header := DecodeEntry(data, current, restarts);
      if header.None? || |key| < header.value.shared {
        CorruptionError();
        return false;
      }
      var h := header.value;
      key := key[..h.shared];
      key := key + data[h.start..h.start + h.nonShared];
      valueStart, valueEnd := h.start + h.nonShared, h.start + h.nonShared + h.valueLength;
      return true;
    }

    method SeekToFirst()
      requires OK()
      modifies this
      ensures OK()
      ensures Built() ==> Cursor(0) && corrupt == old(corrupt)
    {
      SeekToRestartPoint(0);
      var _ := ParseNextKey(0);
    }

    method Next(ghost i: nat)
      requires OK() && Valid()
      modifies this
      ensures OK()
      ensures Built() && old(At(i)) ==> Cursor(i + 1) && corrupt == old(corrupt)
    {
      var _ := ParseNextKey(i + 1);
    }

    lemma AtFacts(i: nat)
      requires OK() && Built() && At(i)
      ensures i < |es| && Before(i + 1) && current == Offset(es, points, i) && valueEnd == Offset(es, points, i + 1)
      ensures valueEnd < restarts <==> i + 1 < |es|
      ensures |points| == numRestarts && Bracket(points, restartIndex, i)
    {
      hide Body, Storable, RestartPoints;
      StandsIsReady(es, points, i, key, data[valueStart..valueEnd], current, valueEnd, restartIndex);
      EndOffset(data, restarts, numRestarts, es, points, i + 1);
    }

    lemma ScanGoesOn(j: nat, last: nat, limit: nat)
      requires OK() && Built() && At(j) && j <= last < |es| && limit == Offset(es, points, last + 1)
      ensures Before(j + 1) && (valueEnd < limit <==> j < last)
    {
      AtFacts(j);
      OffsetOrder(es, points, j + 1, last + 1);
    }

    /** The scan of SeekToLast and Prev: on to the entry that ends at the limit. */
    method ScanTo(limit: nat, ghost m: nat, ghost last: nat)
      requires Shape() && restartIndex < numRestarts
      modifies `key, `restartIndex, `valueStart, `valueEnd, `current, `corrupt
      ensures OK()
      ensures Built() && old(Before(m)) && m <= last < |es| && limit == Offset(es, points, last + 1) ==> At(last) && corrupt == old(corrupt)
      ensures Built() && old(Before(m)) && m == |es| ==> !Valid() && corrupt == old(corrupt)
    {
      hide Holds, Ready, Stands, RestartPoint, Offset;
      ghost var known := Built() && Before(m) && m <= last < |es| && limit == Offset(es, points, last + 1);
      ghost var j: nat := m;
      var ok := ParseNextKey(m);
      if !ok {
        return;
      }
      while valueEnd < limit
        invariant OK() && Valid() && (known ==> At(j) && j <= last && corrupt == old(corrupt))
        invariant old(Built() && Before(m) && m == |es|) ==> false
        decreases restarts - valueEnd
      {
        if known {
          ScanGoesOn(j, last, limit);
        }
        ok := ParseNextKey(j + 1);
        if !ok {
          return;
        }
        j := j + 1;
      }
      if known {
        ScanGoesOn(j, last, limit);
      }
    }

    method SeekToLast()
      requires OK()
      modifies this
      ensures OK()
      ensures Built() ==> Cursor(if es == [] then 0 else |es| - 1) && corrupt == old(corrupt)
    {
      SeekToRestartPoint(numRestarts - 1);
      ghost var m: nat, last: nat := 0, 0;
      if Built() {
        m, last := points[numRestarts - 1], if es == [] then 0 else |es| - 1;
        EndOffset(data, restarts, numRestarts, es, points, 0);
        assert m <= last;
      }
      hide Holds, Ready, Stands, RestartPoint;
      ScanTo(restarts, m, last);
    }

    /** Go back to the last restart point before the current entry, if there is one. */
    method PrecedingRestart(ghost i: nat) returns (found: bool, ghost m: nat)
      requires OK() && Valid()
      modifies `restartIndex
      ensures found ==> restartIndex < numRestarts
      ensures Built() && old(At(i)) ==> (found <==> i > 0) && i < |es| && current == Offset(es, points, i)
      ensures Built() && old(At(i)) && found ==> restartIndex < |points| && points[restartIndex] == m < i
    {
      m := 0;
      ghost var known := Built() && At(i);
      if known {
        AtFacts(i);
      }
      hide Holds, Ready, Stands, RestartPoint;
      while GetRestartPoint(restartIndex) >= current
        invariant restartIndex < numRestarts
        invariant known ==> |points| == numRestarts && current == Offset(es, points, i) && i < |es|
        decreases restartIndex
      {
        if known {
          RestartOrder(data, restarts, numRestarts, es, points, restartIndex, i);
          PointsRise(restartIndex);
        }
        if restartIndex == 0 {
          return false, 0;
        }
        restartIndex := restartIndex - 1;
      }
      if known {
        RestartOrder(data, restarts, numRestarts, es, points, restartIndex, i);
        m := points[restartIndex];
      }
      found := true;
    }

    lemma PointsRise(r: nat)
      requires Built() && r < numRestarts
      ensures |points| == numRestarts && points[0] == 0
    {
    }

    /** One entry back: from the last restart point before the current entry, forward again. */
    method Prev(ghost i: nat)
      requires OK() && Valid()
      modifies this
      ensures OK()
      ensures Built() && old(At(i)) ==> (if i == 0 then !Valid() else At(i - 1)) && corrupt == old(corrupt)
    {
      hide Holds, Ready, Stands, RestartPoint, Offset;
      var original := current;
      var found, m := PrecedingRestart(i);
      if !found {
        current, restartIndex := restarts, numRestarts;
        return;
      }
      SeekToRestartPoint(restartIndex);
      ScanTo(original, m, if i > 0 then i - 1 else 0);
    }

    /** Binary search over the restart points, then forward to the first key not below. */
    method Seek(target: Bytes) returns (ghost i: nat)
      requires OK()
      modifies this
      ensures OK()
      ensures Built() && Sorted() ==> LowerBound(cmp, es, target, i) && Cursor(i) && corrupt == old(corrupt)
    {
      hide Ready, Stands, RestartPoint, Transitive, Increasing, LowerBound, AllBelow;
      var left, found := SearchRestarts(target);
      i := 0;
      if !found {
        CorruptionError();
        return;
      }
      SeekToRestartPoint(left);
      i := if Built() then points[left] else 0;
      i := ScanForward(target, i);
    }

    /** Parse on until a key is not below the target. */
    method ScanForward(target: Bytes, ghost from: nat) returns (ghost i: nat)
      requires Shape() && restartIndex < numRestarts
      modifies `key, `restartIndex, `valueStart, `valueEnd, `current, `corrupt
      ensures OK()
      ensures Built() && Sorted() && old(Before(from)) && AllBelow(cmp, es, target, from) ==>
        LowerBound(cmp, es, target, i) && Cursor(i) && corrupt == old(corrupt)
    {
      hide Holds, Ready, Stands, RestartPoint, Transitive, Increasing, LowerBound, AllBelow;
      ghost var known := Built() && Sorted() && Before(from) && AllBelow(cmp, es, target, from);
      i := from;
      var ok := ParseNextKey(i);
      while ok && cmp(key, target) < 0
        invariant OK() && ok == Valid()
        invariant known ==> Cursor(i) && AllBelow(cmp, es, target, i) && corrupt == old(corrupt)
        decreases if Valid() then restarts - valueEnd + 1 else 0
      {
        if known {
          KeyAt(i);
          BelowEarlier(cmp, es, target, i);
        }
        ok := ParseNextKey(i + 1);
        i := i + 1;
      }
      if known {
        KeyAt(i);
        FirstNotBelow(cmp, es, target, i);
      }
    }

    lemma KeyAt(i: nat)
      requires OK() && Built() && Cursor(i)
      ensures Valid() ==> i < |es| && key == es[i].key && Before(i + 1)
      ensures i < |es| ==> Valid()
    {
    }

    /** The last restart point whose key is below the target, or the first restart point. */
    method SearchRestarts(target: Bytes) returns (left: nat, found: bool)
      requires OK()
      ensures found ==> left < numRestarts
      ensures Built() && Sorted() ==> found && AllBelow(cmp, es, target, points[left])
    {
      hide Decode, Storable, Body, RestartPoint, Transitive, Increasing;
      left := 0;
      var right := numRestarts - 1;
      while left < right
        invariant left <= right < numRestarts
        invariant Built() && Sorted() ==> AllBelow(cmp, es, target, points[left])
      {
        var mid := (left + right + 1) / 2;
        if Built() {
          RestartKey(data, restarts, numRestarts, es, points, mid);
          WholeKey(data, GetRestartPoint(mid), restarts, es[points[mid]], Offset(es, points, points[mid] + 1));
        }
        var header := DecodeEntry(data, GetRestartPoint(mid), restarts);
        if header.None? || header.value.shared != 0 {
          return 0, false;
        }
        var midKey := data[header.value.start..header.value.start + header.value.nonShared];
        if cmp(midKey, target) < 0 {
          if Built() && Sorted() {
            BelowEarlier(cmp, es, target, points[mid]);
          }
          left := mid;
        } else {
          right := mid - 1;
        }
      }
      found := true;
    }
  }
}
