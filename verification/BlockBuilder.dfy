/** Building a block: prefix compression, with a restart point every so many entries. */
module BlockBuilding {
  import opened Coding
  import opened BlockFormat

  /** Restart points at every interval-th entry, the last one no further back than that. */
  ghost predicate Spaced(points: seq<nat>, interval: nat, n: nat) {
    && points != [] && points[0] == 0
    && (forall r, t | 0 <= r < |points| && 0 <= t < |points| && t == r + 1 :: points[t] == points[r] + interval)
    && points[|points| - 1] <= n <= points[|points| - 1] + interval
    && (n > 0 ==> points[|points| - 1] < n)
  }

  /** Entry r * interval is restart point r, and there are no others. */
  lemma {:induction false} SpacedIsRegular(points: seq<nat>, interval: nat, n: nat, r: nat)
    requires Spaced(points, interval, n) && r < |points|
    ensures points[r] == r * interval
  {
    if r > 0 {
      SpacedIsRegular(points, interval, n, r - 1);
      assert r * interval == (r - 1) * interval + interval;
    }
  }

  lemma SpacedIsRestarts(points: seq<nat>, interval: nat, n: nat)
    requires Spaced(points, interval, n) && interval > 0
    ensures RestartPoints(points, n)
  {
    forall r, t | 0 <= r < t < |points|
      ensures points[r] < points[t]
    {
      Rises(points, interval, n, r, t);
    }
    forall r | 0 < r < |points|
      ensures points[r] < n
    {
      if r < |points| - 1 {
        Rises(points, interval, n, r, |points| - 1);
      }
      Rises(points, interval, n, 0, r);
    }
  }

  lemma {:induction false} Rises(points: seq<nat>, interval: nat, n: nat, r: nat, t: nat)
    requires Spaced(points, interval, n) && interval > 0 && r < t < |points|
    ensures points[r] < points[t]
    decreases t
  {
    if r < t - 1 {
      Rises(points, interval, n, r, t - 1);
    }
  }

  /** The counter reaches the interval exactly when the next entry is a restart point. */
  lemma SpacedStep(points: seq<nat>, interval: nat, n: nat)
    requires interval > 0 && Spaced(points, interval, n) && RestartPoints(points, n)
    ensures var last := points[|points| - 1];
      var points' := if n - last < interval then points else points + [n];
      && Spaced(points', interval, n + 1) && RestartPoints(points', n + 1)
      && points'[|points'| - 1] == (if n - last < interval then last else n)
  {
    var last := points[|points| - 1];
    var points' := if n - last < interval then points else points + [n];
    SpacedIsRestarts(points', interval, n + 1);
  }

  ghost predicate Storable(es: seq<KeyValue>) {
    |es| < TWO32 && forall i | 0 <= i < |es| :: |es[i].key| < TWO32 && |es[i].value| < TWO32
  }

  lemma StorableAdd(es: seq<KeyValue>, e: KeyValue)
    requires Storable(es) && |es| + 1 < TWO32 && |e.key| < TWO32 && |e.value| < TWO32
    ensures Storable(es + [e])
  {
  }

  lemma AddedToBody(es: seq<KeyValue>, points: seq<nat>, e: KeyValue, points': seq<nat>, shared: nat)
    requires RestartPoints(points, |es|) && (points' == points || points' == points + [|es|])
    requires shared == if es == [] || points' != points then 0 else CommonPrefix(es[|es| - 1].key, e.key)
    ensures shared <= |e.key|
    ensures Body(es + [e], points', |es| + 1) == Body(es, points, |es|) + EntryBytes(shared, e)
    ensures Offset(es, points, |es|) == Offset(es + [e], points', |es|)
  {
    var es' := es + [e];
    BodyStays(es, points, es', points', |es|);
    if points' == points {
      assert es != [] ==> |es| !in points;
    } else {
      assert points'[|points|] == |es|;
    }
    assert Shared(es', points', |es|) == shared;
  }

  lemma AddedOffsets(es: seq<KeyValue>, points: seq<nat>, e: KeyValue, points': seq<nat>)
    requires RestartPoints(points, |es|) && (points' == points || points' == points + [|es|])
    requires forall i | 0 <= i < |points| :: points[i] <= |es|
    ensures Offsets(es + [e], points') == Offsets(es, points) + if points' == points then [] else [Offset(es, points, |es|)]
  {
    forall i | 0 <= i < |points|
      ensures Offset(es + [e], points', points[i]) == Offset(es, points, points[i])
    {
      BodyStays(es, points, es + [e], points', points[i]);
    }
    if points' != points {
      BodyStays(es, points, es + [e], points', |es|);
    }
  }

  /** What the builder remembers of the entries added so far. */
  ghost predicate Built(interval: nat, es: seq<KeyValue>, points: seq<nat>, restarts: seq<nat>, counter: nat, lastKey: Bytes) {
    && interval > 0 && Storable(es)
    && Spaced(points, interval, |es|) && RestartPoints(points, |es|)
    && counter == |es| - points[|points| - 1]
    && restarts == Offsets(es, points)
    && lastKey == (if es == [] then [] else es[|es| - 1].key)
  }

  /** The restart points once one more entry is added. */
  ghost function NextPoints(interval: nat, n: nat, points: seq<nat>, counter: nat): seq<nat> {
    if counter < interval then points else points + [n]
  }

  lemma BuiltStep(interval: nat, es: seq<KeyValue>, points: seq<nat>, restarts: seq<nat>, counter: nat, lastKey: Bytes,
                  e: KeyValue, shared: nat)
    requires Built(interval, es, points, restarts, counter, lastKey)
    requires |es| + 1 < TWO32 && |e.key| < TWO32 && |e.value| < TWO32
    requires shared == if counter < interval then CommonPrefix(lastKey, e.key) else 0
    ensures var points' := NextPoints(interval, |es|, points, counter);
      && Built(interval, es + [e], points', if counter < interval then restarts else restarts + [Offset(es, points, |es|)],
               (if counter < interval then counter else 0) + 1, e.key)
      && shared <= |e.key|
      && Body(es + [e], points', |es| + 1) == Body(es, points, |es|) + EntryBytes(shared, e)
  {
    hide EntryBytes, Body, Offsets, Spaced, RestartPoints, Storable;
    var points' := NextPoints(interval, |es|, points, counter);
    StorableAdd(es, e);
    SpacedStep(points, interval, |es|);
    PointsBelow(points, |es|);
    NothingShared(e.key);
    AddedToBody(es, points, e, points', shared);
    AddedOffsets(es, points, e, points');
  }

  lemma PointsBelow(points: seq<nat>, n: nat)
    requires RestartPoints(points, n)
    ensures points != [] && forall i | 0 <= i < |points| :: points[i] <= n
  {
  }

  lemma NothingShared(key: Bytes)
    ensures CommonPrefix([], key) == 0
  {
  }

  class BlockBuilder {
    const interval: nat
    var buffer: Bytes
    var restarts: seq<nat>
    var counter: nat
    var finished: bool
    var lastKey: Bytes
    ghost var es: seq<KeyValue>
    ghost var points: seq<nat>

    ghost predicate Valid()
      reads this
    {
      && Built(interval, es, points, restarts, counter, lastKey)
      && (!finished ==> buffer == Body(es, points, |es|))
    }

    constructor (interval: nat)
      requires interval > 0
      ensures Valid() && es == [] && !finished && this.interval == interval
    {
      this.interval := interval;
      buffer, restarts, counter, finished, lastKey, es, points := [], [0], 0, false, [], [], [0];
    }

    method Reset()
      requires Valid()
      modifies this
      ensures Valid() && es == [] && !finished
    {
      buffer, restarts, counter, finished, lastKey, es, points := [], [0], 0, false, [], [], [0];
    }

    method SharedWithLast(key: Bytes) returns (shared: nat)
      ensures shared == CommonPrefix(lastKey, key)
    {
      shared := 0;
      while shared < |lastKey| && shared < |key| && lastKey[shared] == key[shared]
        invariant shared <= |lastKey| && shared <= |key|
        invariant CommonPrefix(lastKey, key) == shared + CommonPrefix(lastKey[shared..], key[shared..])
      {
        assert lastKey[shared..][1..] == lastKey[shared + 1..] && key[shared..][1..] == key[shared + 1..];
        shared := shared + 1;
      }
    }

    /** Share with the last key, or restart compression. */
    method Compress(key: Bytes) returns (shared: nat)
      modifies `restarts, `counter
      ensures shared == if old(counter) < interval then CommonPrefix(lastKey, key) else 0
      ensures restarts == if old(counter) < interval then old(restarts) else old(restarts) + [|buffer|]
      ensures counter == if old(counter) < interval then old(counter) else 0
    {
      shared := 0;
      if counter < interval {
        shared := SharedWithLast(key);
      } else {
        restarts := restarts + [|buffer|];
        counter := 0;
      }
    }

    method Add(key: Bytes, value: Bytes)
      requires Valid() && !finished && |es| + 1 < TWO32 && |key| < TWO32 && |value| < TWO32
      modifies this
      ensures Valid() && !finished && es == old(es) + [KeyValue(key, value)]
    {
      ghost var e := KeyValue(key, value);
      hide EntryBytes, Body, Built, NextPoints, CommonPrefix;
      ghost var points' := NextPoints(interval, |es|, points, counter);
      BuiltStep(interval, es, points, restarts, counter, lastKey, e, if counter < interval then CommonPrefix(lastKey, key) else 0);
      var shared := Compress(key);
      buffer := AppendEntry(buffer, shared, key, value);
      lastKey := JoinKey(lastKey, shared, key);
      counter := counter + 1;
      es, points := es + [e], points';
    }

    /** last_key_.resize(shared), then the rest of the new key. */
    static method JoinKey(last: Bytes, shared: nat, key: Bytes) returns (r: Bytes)
      requires shared <= |last| && shared <= |key| && last[..shared] == key[..shared]
      ensures r == key
    {
      r := last[..shared];
      r := r + key[shared..];
    }

    /** The finished block, holding the entries added since the last reset. */
    method Finish() returns (block: Bytes)
      requires Valid() && !finished
      modifies this
      ensures Valid() && finished && es == old(es) && block == Block(es, points)
    {
      hide Body, Offsets, Spaced, RestartPoints, Storable;
      buffer := AppendArray(buffer, restarts);
      buffer := buffer + Fixed(|restarts|, 4);
      finished := true;
      block := buffer;
    }
  }

  method AppendArray(buffer: Bytes, xs: seq<nat>) returns (r: Bytes)
    ensures r == buffer + FixedArray(xs)
  {
    r := buffer;
    for i := 0 to |xs|
      invariant r == buffer + FixedArray(xs[..i])
    {
      assert xs[..i + 1][..i] == xs[..i];
      r := r + Fixed(xs[i], 4);
    }
    assert xs[..|xs|] == xs;
  }

  method AppendEntry(buffer: Bytes, shared: nat, key: Bytes, value: Bytes) returns (r: Bytes)
    requires shared <= |key|
    ensures r == buffer + EntryBytes(shared, KeyValue(key, value))
  {
    hide Varint;
    r := buffer + Varint(shared);
    r := r + Varint(|key| - shared);
    r := r + Varint(|value|);
    r := r + key[shared..];
    r := r + value;
  }
}
