/** The format of a table block: prefix-compressed entries and a restart array. */
module BlockFormat {
  import opened Basics
  import opened Coding

  datatype KeyValue = KeyValue(key: Bytes, value: Bytes)

  function CommonPrefix(a: Bytes, b: Bytes): (n: nat)
    ensures n <= |a| && n <= |b| && a[..n] == b[..n]
    ensures n < |a| && n < |b| ==> a[n] != b[n]
  {
    if a == [] || b == [] || a[0] != b[0] then 0
    else
      var n := CommonPrefix(a[1..], b[1..]);
      assert a[..n + 1] == [a[0]] + a[1..][..n];
      assert b[..n + 1] == [b[0]] + b[1..][..n];
      n + 1
  }

  /** The entries with an uncompressed key, by index: the first one and some later ones. */
  ghost predicate RestartPoints(points: seq<nat>, n: nat) {
    && points != [] && points[0] == 0
    && (forall r, t | 0 <= r < t < |points| :: points[r] < points[t])
    && (forall r | 0 < r < |points| :: points[r] < n)
  }

  function Shared(es: seq<KeyValue>, points: seq<nat>, i: nat): (n: nat)
    requires i < |es|
    ensures n <= |es[i].key|
  {
    if i == 0 || i in points then 0 else CommonPrefix(es[i - 1].key, es[i].key)
  }

  function EntryBytes(shared: nat, e: KeyValue): (r: Bytes)
    requires shared <= |e.key|
    ensures |r| >= 3
  {
    Varint(shared) + (Varint(|e.key| - shared) + (Varint(|e.value|) + (e.key[shared..] + e.value)))
  }

  function Body(es: seq<KeyValue>, points: seq<nat>, n: nat): Bytes
    requires n <= |es|
  {
    if n == 0 then [] else Body(es, points, n - 1) + EntryBytes(Shared(es, points, n - 1), es[n - 1])
  }

  function Offset(es: seq<KeyValue>, points: seq<nat>, n: nat): nat
    requires n <= |es|
  {
    |Body(es, points, n)|
  }

  function Offsets(es: seq<KeyValue>, points: seq<nat>): (r: seq<nat>)
    requires forall i | 0 <= i < |points| :: points[i] <= |es|
    ensures |r| == |points| && forall i | 0 <= i < |points| :: r[i] == Offset(es, points, points[i])
  {
    seq(|points|, i requires 0 <= i < |points| => Offset(es, points, points[i]))
  }

  /** A finished block. */
  function Block(es: seq<KeyValue>, points: seq<nat>): Bytes
    requires forall i | 0 <= i < |points| :: points[i] <= |es|
  {
    Body(es, points, |es|) + FixedArray(Offsets(es, points)) + Fixed(|points|, 4)
  }

  lemma {:induction false} BodyGrows(es: seq<KeyValue>, points: seq<nat>, m: nat, n: nat)
    requires m <= n <= |es|
    ensures Body(es, points, m) <= Body(es, points, n)
    ensures Offset(es, points, n) >= Offset(es, points, m) + 3 * (n - m)
  {
    if m < n {
      BodyGrows(es, points, m, n - 1);
    }
  }

  lemma OffsetOrder(es: seq<KeyValue>, points: seq<nat>, m: nat, n: nat)
    requires m <= |es| && n <= |es|
    ensures Offset(es, points, m) < Offset(es, points, n) <==> m < n
  {
    if m < n {
      BodyGrows(es, points, m, n);
    } else {
      BodyGrows(es, points, n, m);
    }
  }

  /** Adding entries and later restart points leaves what is written as it is. */
  lemma {:induction false} BodyStays(es: seq<KeyValue>, points: seq<nat>, es': seq<KeyValue>, points': seq<nat>, n: nat)
    requires n <= |es| <= |es'| && es' [..|es|] == es
    requires forall i | 0 <= i < n :: i in points <==> i in points'
    ensures Body(es, points, n) == Body(es', points', n)
  {
    if n > 0 {
      BodyStays(es, points, es', points', n - 1);
      assert es[n - 1] == es'[n - 1];
      assert n >= 2 ==> es[n - 2] == es'[n - 2];
    }
  }

  // ----- Decoding one entry -----

  datatype EntryHeader = EntryHeader(shared: nat, nonShared: nat, valueLength: nat, start: nat)

  /** DecodeEntry over data[off..limit]: three lengths, and where the key delta starts. */
  function Decode(data: Bytes, off: nat, limit: nat): (r: Option<EntryHeader>)
    requires limit <= |data|
    ensures r.Some? ==> off < r.value.start && r.value.start + r.value.nonShared + r.value.valueLength <= limit
  {
    if off > limit then None
    else
      match GetVarint32(data[off..limit])
      case None => None
      case Some(a) =>
        Consumed(data[off..limit]);
        match GetVarint32(a.rest)
        case None => None
        case Some(b) =>
          Consumed(a.rest);
          match GetVarint32(b.rest)
          case None => None
          case Some(c) =>
            Consumed(b.rest);
            if |c.rest| < b.value + c.value then None
            else Some(EntryHeader(a.value, b.value, c.value, limit - |c.rest|))
  }

  lemma Consumed(input: Bytes)
    ensures GetVarint32(input).Some? ==> |GetVarint32(input).value.rest| < |input|
  {
    if ParseVarint(input, 5).Some? {
      ParseVarintConsumes(input, 5);
    }
  }

  lemma DecodeParts(a: Word, b: Word, c: Word, rest: Bytes)
    ensures GetVarint32(Varint(a) + (Varint(b) + (Varint(c) + rest))) == Some(Parsed(a, Varint(b) + (Varint(c) + rest)))
    ensures GetVarint32(Varint(b) + (Varint(c) + rest)) == Some(Parsed(b, Varint(c) + rest))
    ensures GetVarint32(Varint(c) + rest) == Some(Parsed(c, rest))
  {
    Varint32RoundTrip(a, Varint(b) + (Varint(c) + rest));
    Varint32RoundTrip(b, Varint(c) + rest);
    Varint32RoundTrip(c, rest);
  }

  lemma DecodeLengths(data: Bytes, off: nat, limit: nat, a: Word, b: Word, c: Word, rest: Bytes)
    requires off <= limit <= |data| && data[off..limit] == Varint(a) + (Varint(b) + (Varint(c) + rest)) && b + c <= |rest|
    ensures |rest| <= limit && Decode(data, off, limit) == Some(EntryHeader(a, b, c, limit - |rest|))
  {
    DecodeParts(a, b, c, rest);
    hide Varint, GetVarint32;
  }

  /** The key delta and the value end the entry. */
  lemma EntryPayload(data: Bytes, off: nat, end: nat, limit: nat, shared: nat, e: KeyValue)
    requires shared <= |e.key| && off <= end <= limit <= |data| && data[off..end] == EntryBytes(shared, e)
    ensures var rest := (e.key[shared..] + e.value) + data[end..limit];
      && data[off..limit] == Varint(shared) + (Varint(|e.key| - shared) + (Varint(|e.value|) + rest))
      && limit - |rest| == end - |e.key| + shared - |e.value| >= 0
      && data[limit - |rest|..end] == e.key[shared..] + e.value
  {
    hide Varint;
    var payload := e.key[shared..] + e.value;
    assert data[off..limit] == data[off..end] + data[end..limit];
    assert data[end - |payload|..end] == data[off..end][end - off - |payload|..];
  }

  /** Decoding an encoded entry finds its lengths, its key delta and its value. */
  lemma DecodeEncoded(data: Bytes, off: nat, end: nat, limit: nat, shared: nat, e: KeyValue)
    requires shared <= |e.key| < TWO32 && |e.value| < TWO32
    requires off <= end <= limit <= |data| && data[off..end] == EntryBytes(shared, e)
    ensures var h := Decode(data, off, limit);
      && h.Some? && h.value.shared == shared && h.value.nonShared == |e.key| - shared && h.value.valueLength == |e.value|
      && h.value.start + h.value.nonShared + h.value.valueLength == end
      && data[h.value.start..h.value.start + h.value.nonShared] == e.key[shared..]
      && data[h.value.start + h.value.nonShared..end] == e.value
  {
    hide Decode, EntryBytes, Varint;
    EntryPayload(data, off, end, limit, shared, e);
    DecodeLengths(data, off, limit, shared, |e.key| - shared, |e.value|, (e.key[shared..] + e.value) + data[end..limit]);
    SplitSlice(data, end - |e.key| + shared - |e.value|, end, e.key[shared..], e.value);
  }

  lemma SplitSlice(data: Bytes, start: nat, end: nat, a: Bytes, b: Bytes)
    requires start <= end <= |data| && data[start..end] == a + b
    ensures data[start..start + |a|] == a && data[start + |a|..end] == b
  {
    assert data[start..start + |a|] == data[start..end][..|a|];
    assert data[start + |a|..end] == data[start..end][|a|..];
  }

  /** DecodeEntry, with its shortcut for three one-byte lengths. */
  method DecodeEntry(data: Bytes, off: nat, limit: nat) returns (r: Option<EntryHeader>)
    requires limit <= |data|
    ensures r == Decode(data, off, limit)
  {
    hide Decode;
    if limit < off + 3 {
      TooShort(data, off, limit);
      return None;
    }
    var shared, nonShared, valueLength := data[off], data[off + 1], data[off + 2];
    if shared < 128 && nonShared < 128 && valueLength < 128 {
      OneByteLengths(data, off, limit);
      var start := off + 3;
      if limit - start < nonShared as int + valueLength as int {
        return None;
      }
      return Some(EntryHeader(shared, nonShared, valueLength, start));
    }
    r := DecodeLongEntry(data, off, limit);
  }

  method DecodeLongEntry(data: Bytes, off: nat, limit: nat) returns (r: Option<EntryHeader>)
    requires off <= limit <= |data|
    ensures r == Decode(data, off, limit)
  {
    hide GetVarint32;
    var a := GetVarint32(data[off..limit]);
    if a.None? {
      return None;
    }
    Consumed(data[off..limit]);
    var b := GetVarint32(a.value.rest);
    if b.None? {
      return None;
    }
    Consumed(a.value.rest);
    var c := GetVarint32(b.value.rest);
    if c.None? {
      return None;
    }
    Consumed(b.value.rest);
    if |c.value.rest| < b.value.value as int + c.value.value as int {
      return None;
    }
    r := Some(EntryHeader(a.value.value, b.value.value, c.value.value, limit - |c.value.rest|));
  }

  lemma TooShort(data: Bytes, off: nat, limit: nat)
    requires limit <= |data| && limit < off + 3
    ensures Decode(data, off, limit) == None
  {
    if off <= limit {
      var a := GetVarint32(data[off..limit]);
      Consumed(data[off..limit]);
      if a.Some? {
        Consumed(a.value.rest);
        var b := GetVarint32(a.value.rest);
        if b.Some? {
          Consumed(b.value.rest);
        }
      }
    }
  }

  lemma OneByteLengths(data: Bytes, off: nat, limit: nat)
    requires off + 3 <= limit <= |data| && data[off] < 128 && data[off + 1] < 128 && data[off + 2] < 128
    ensures Decode(data, off, limit) == if limit - (off + 3) < data[off + 1] as int + data[off + 2] as int then None
                                        else Some(EntryHeader(data[off], data[off + 1], data[off + 2], off + 3))
  {
    var d := data[off..limit];
    assert d[1..] == data[off + 1..limit] && d[1..][1..] == data[off + 2..limit] && d[1..][1..][1..] == data[off + 3..limit];
  }
}
