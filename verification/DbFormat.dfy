module Basics {
  datatype Option<+T> = None | Some(value: T)
}

/** Internal keys and entries: a user key, a sequence number and a value type. */
module DbFormat {
  const NUM_LEVELS: nat := 7
  const MAX_MEM_COMPACT_LEVEL: nat := 2
  const MAX_SEQUENCE: nat := 0xFF_FFFF_FFFF_FFFF

  /** User keys matter only through the order of the user's comparator; any finite set of
      keys of a total order embeds into the integers. */
  type UserKey = int

  datatype Kind = Deletion | Value {
    function Code(): (c: nat)
      ensures c <= 1
    {
      if Deletion? then 0 else 1
    }
  }

  datatype InternalKey = InternalKey(user: UserKey, sequence: nat, kind: Kind) {
    /** The packed 64-bit trailer: sequence number above, type in the low eight bits. */
    function Tag(): nat {
      sequence * 256 + kind.Code()
    }
  }

  datatype Entry = Entry(ik: InternalKey, value: string)

  /** The internal comparator: user keys ascending, then tags descending. */
  function Compare(a: InternalKey, b: InternalKey): int {
    if a.user < b.user then -1
    else if a.user > b.user then 1
    else if a.Tag() > b.Tag() then -1
    else if a.Tag() < b.Tag() then 1
    else 0
  }

  predicate Less(a: InternalKey, b: InternalKey) {
    Compare(a, b) < 0
  }

  /** The order the store keeps between any two of its entries: sequence numbers of one
      user key are never shared, so newer entries of a key come strictly first. */
  predicate Before(a: InternalKey, b: InternalKey) {
    a.user < b.user || (a.user == b.user && a.sequence > b.sequence)
  }

  /** The search key of a lookup at sequence number q: it sorts before exactly the
      entries of u that are visible at q. */
  function SeekKey(u: UserKey, q: nat): InternalKey {
    InternalKey(u, q, Value)
  }

  lemma CompareIsTotalOrder(a: InternalKey, b: InternalKey, c: InternalKey)
    ensures Compare(a, b) == 0 <==> a == b
    ensures Less(a, b) <==> Compare(b, a) > 0
    ensures Less(a, b) && Less(b, c) ==> Less(a, c)
    ensures Before(a, b) ==> Less(a, b)
    ensures Less(a, b) ==> Before(a, b) || (a.user == b.user && a.sequence == b.sequence)
  {
  }

  lemma SeekKeySplits(e: InternalKey, u: UserKey, q: nat)
    ensures Less(e, SeekKey(u, q)) <==> e.user < u || (e.user == u && e.sequence > q)
  {
  }

  predicate SortedEntries(es: seq<Entry>) {
    forall i, j | 0 <= i < j < |es| :: Before(es[i].ik, es[j].ik)
  }

  ghost function EntrySet(es: seq<Entry>): set<Entry> {
    set e | e in es
  }
}
