/** Internal keys as byte strings: a user key and eight bytes of sequence number and type. */
module InternalKeys {
  import opened Basics
  import opened Coding
  import DbFormat

  type Comparator = (Bytes, Bytes) -> int

  /** What a user comparator promises. Different byte strings may compare equal. */
  ghost predicate Ordering(cmp: Comparator) {
    && (forall a: Bytes, b: Bytes :: cmp(a, b) < 0 <==> cmp(b, a) > 0)
    && (forall a: Bytes, b: Bytes, c: Bytes :: cmp(a, b) <= 0 && cmp(b, c) <= 0 ==> cmp(a, c) <= 0)
  }

  datatype ParsedKey = ParsedKey(user: Bytes, sequence: nat, kind: DbFormat.Kind)

  predicate Packable(p: ParsedKey) {
    p.sequence <= DbFormat.MAX_SEQUENCE
  }

  /** PackSequenceAndType. */
  function Pack(sequence: nat, kind: DbFormat.Kind): (tag: nat)
    requires sequence <= DbFormat.MAX_SEQUENCE
    ensures tag < TWO64
  {
    sequence * 256 + kind.Code()
  }

  /** AppendInternalKey to an empty string. */
  function InternalKey(p: ParsedKey): (b: Bytes)
    requires Packable(p)
    ensures |b| == |p.user| + 8
  {
    p.user + Fixed64(Pack(p.sequence, p.kind))
  }

  function TagOf(b: Bytes): nat
    requires |b| >= 8
  {
    FromFixed(b[|b| - 8..])
  }

  function ExtractUserKey(b: Bytes): Bytes
    requires |b| >= 8
  {
    b[..|b| - 8]
  }

  function ParseInternalKey(b: Bytes): Option<ParsedKey> {
    if |b| < 8 then None else
      var tag := TagOf(b);
      if tag % 256 > 1 then None
      else Some(ParsedKey(ExtractUserKey(b), tag / 256, if tag % 256 == 0 then DbFormat.Deletion else DbFormat.Value))
  }

  lemma InternalKeyParts(p: ParsedKey)
    requires Packable(p)
    ensures ExtractUserKey(InternalKey(p)) == p.user && TagOf(InternalKey(p)) == Pack(p.sequence, p.kind)
  {
    var b := InternalKey(p);
    assert b[|b| - 8..] == Fixed64(Pack(p.sequence, p.kind));
  }

  /** Exactly the byte strings that are internal keys are parsed, and to the key they are. */
  lemma ParseIsInverse(b: Bytes, p: ParsedKey)
    ensures ParseInternalKey(b) == Some(p) <==> Packable(p) && b == InternalKey(p)
  {
    if Packable(p) && b == InternalKey(p) {
      InternalKeyParts(p);
    }
    if ParseInternalKey(b) == Some(p) {
      var suffix := b[|b| - 8..];
      FixedIsBounded(suffix);
      PowersOf256();
      assert TagOf(b) == p.sequence * 256 + p.kind.Code();
      assert b == ExtractUserKey(b) + suffix;
    }
  }

  /** InternalKeyComparator::Compare. */
  function Compare(cmp: Comparator, a: Bytes, b: Bytes): int
    requires |a| >= 8 && |b| >= 8
  {
    var r := cmp(ExtractUserKey(a), ExtractUserKey(b));
    if r != 0 then r
    else if TagOf(a) > TagOf(b) then -1
    else if TagOf(a) < TagOf(b) then 1
    else 0
  }

  /** User keys ascending, then sequence numbers descending, then types descending. */
  predicate Before(cmp: Comparator, a: ParsedKey, b: ParsedKey) {
    var r := cmp(a.user, b.user);
    r < 0 || (r == 0 && (a.sequence > b.sequence || (a.sequence == b.sequence && a.kind.Code() > b.kind.Code())))
  }

  /** The comparison of the encoded keys is the order of the decoded ones. */
  lemma CompareIsBefore(cmp: Comparator, a: ParsedKey, b: ParsedKey)
    requires Ordering(cmp) && Packable(a) && Packable(b)
    ensures Compare(cmp, InternalKey(a), InternalKey(b)) < 0 <==> Before(cmp, a, b)
    ensures Compare(cmp, InternalKey(a), InternalKey(b)) > 0 <==> Before(cmp, b, a)
    ensures Compare(cmp, InternalKey(a), InternalKey(b)) == 0 <==>
      cmp(a.user, b.user) == 0 && a.sequence == b.sequence && a.kind == b.kind
  {
    InternalKeyParts(a);
    InternalKeyParts(b);
    assert cmp(a.user, b.user) < 0 <==> cmp(b.user, a.user) > 0;
  }

  /** It orders any byte strings long enough, whatever their tags. */
  lemma CompareIsOrdering(cmp: Comparator, a: Bytes, b: Bytes, c: Bytes)
    requires Ordering(cmp) && |a| >= 8 && |b| >= 8 && |c| >= 8
    ensures Compare(cmp, a, b) < 0 <==> Compare(cmp, b, a) > 0
    ensures Compare(cmp, a, b) <= 0 && Compare(cmp, b, c) <= 0 ==> Compare(cmp, a, c) <= 0
    ensures Compare(cmp, a, b) < 0 && Compare(cmp, b, c) <= 0 ==> Compare(cmp, a, c) < 0
  {
    var x, y, z := ExtractUserKey(a), ExtractUserKey(b), ExtractUserKey(c);
    assert cmp(x, y) < 0 <==> cmp(y, x) > 0;
    assert cmp(y, z) < 0 <==> cmp(z, y) > 0;
    assert cmp(x, z) < 0 <==> cmp(z, x) > 0;
    assert cmp(x, y) <= 0 && cmp(y, z) <= 0 ==> cmp(x, z) <= 0;
    assert cmp(y, z) <= 0 && cmp(z, x) <= 0 ==> cmp(y, x) <= 0;
    assert cmp(z, x) <= 0 && cmp(x, y) <= 0 ==> cmp(z, y) <= 0;
  }

  // ----- Shortened keys for index blocks -----

  /** InternalKeyComparator::FindShortestSeparator, given what the user comparator makes of the
      user key. */
  function Separator(cmp: Comparator, start: Bytes, shortened: Bytes): (r: Bytes)
    requires |start| >= 8
    ensures |r| >= 8
  {
    var user := ExtractUserKey(start);
    if |shortened| < |user| && cmp(user, shortened) < 0
    then InternalKey(ParsedKey(shortened, DbFormat.MAX_SEQUENCE, DbFormat.Value))
    else start
  }

  /** A separator stays between the keys it separates, provided the user comparator kept to its
      contract for distinct user keys and left equal ones alone. */
  lemma SeparatorSeparates(cmp: Comparator, start: Bytes, limit: Bytes, shortened: Bytes)
    requires Ordering(cmp) && |start| >= 8 && |limit| >= 8 && Compare(cmp, start, limit) < 0
    requires var u, l := ExtractUserKey(start), ExtractUserKey(limit);
      if cmp(u, l) < 0 then cmp(shortened, l) < 0 else shortened == u
    ensures Compare(cmp, start, Separator(cmp, start, shortened)) <= 0
    ensures Compare(cmp, Separator(cmp, start, shortened), limit) < 0
    ensures |Separator(cmp, start, shortened)| <= |start|
  {
    var u := ExtractUserKey(start);
    CompareIsOrdering(cmp, start, start, start);
    if |shortened| < |u| && cmp(u, shortened) < 0 {
      InternalKeyParts(ParsedKey(shortened, DbFormat.MAX_SEQUENCE, DbFormat.Value));
    }
  }

  /** FindShortSuccessor: without a limit. */
  lemma SuccessorIsNotSmaller(cmp: Comparator, key: Bytes, shortened: Bytes)
    requires Ordering(cmp) && |key| >= 8
    ensures Compare(cmp, key, Separator(cmp, key, shortened)) <= 0
    ensures |Separator(cmp, key, shortened)| <= |key|
  {
    var u := ExtractUserKey(key);
    if |shortened| < |u| && cmp(u, shortened) < 0 {
      InternalKeyParts(ParsedKey(shortened, DbFormat.MAX_SEQUENCE, DbFormat.Value));
    }
  }

  // ----- Search keys -----

  /** The three views of a LookupKey: one buffer holds them all. */
  class LookupKey {
    const buffer: Bytes
    const kstart: nat
    ghost const user: Bytes
    ghost const sequence: nat

    ghost predicate Valid()
    {
      && sequence <= DbFormat.MAX_SEQUENCE && kstart + |user| + 8 == |buffer|
      && buffer == LengthPrefixed(InternalKey(ParsedKey(user, sequence, DbFormat.Value)))
      && buffer[kstart..] == InternalKey(ParsedKey(user, sequence, DbFormat.Value))
    }

    constructor (user: Bytes, s: nat)
      requires |user| + 8 < TWO32 && s <= DbFormat.MAX_SEQUENCE
      ensures Valid() && this.user == user && sequence == s
    {
      this.user, sequence := user, s;
      var dst: Bytes := EncodeVarint32([], |user| + 8);
      kstart := |dst|;
      var tag := Fixed64(Pack(s, DbFormat.Value));
      buffer := dst + user + tag;
      new;
      var ik := InternalKey(ParsedKey(user, s, DbFormat.Value));
      assert [] + Varint(|ik|) == Varint(|ik|);
      assert buffer == Varint(|ik|) + ik;
    }

    method MemtableKey() returns (b: Bytes)
      requires Valid()
      ensures b == LengthPrefixed(InternalKey(ParsedKey(user, sequence, DbFormat.Value)))
    {
      return buffer;
    }

    method InternalKeyView() returns (b: Bytes)
      requires Valid()
      ensures b == InternalKey(ParsedKey(user, sequence, DbFormat.Value))
    {
      return buffer[kstart..];
    }

    method UserKey() returns (b: Bytes)
      requires Valid()
      ensures b == user
    {
      InternalKeyParts(ParsedKey(user, sequence, DbFormat.Value));
      assert buffer[kstart..|buffer| - 8] == buffer[kstart..][..|user|];
      return buffer[kstart..|buffer| - 8];
    }
  }

  /** A search key sorts before exactly the entries of its user key that are visible at it. */
  lemma LookupSplits(cmp: Comparator, e: ParsedKey, user: Bytes, q: nat)
    requires Ordering(cmp) && Packable(e) && q <= DbFormat.MAX_SEQUENCE
    ensures Compare(cmp, InternalKey(e), InternalKey(ParsedKey(user, q, DbFormat.Value))) < 0 <==>
      cmp(e.user, user) < 0 || (cmp(e.user, user) == 0 && e.sequence > q)
  {
    CompareIsBefore(cmp, e, ParsedKey(user, q, DbFormat.Value));
  }
}
