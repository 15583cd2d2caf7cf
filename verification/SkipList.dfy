/** The skip list: one writer storing links one by one, any number of readers in between. */
module SkipLists {

  const MAX_HEIGHT: nat := 12
  const HEAD: nat := 0
  const NIL: int := -1

  /** What the list asks of its comparator: a strict order in which incomparable keys are
      equivalent. */
  ghost predicate Ordering<K(!new)>(lt: (K, K) -> bool) {
    && (forall a: K, b: K :: lt(a, b) ==> !lt(b, a))
    && (forall a: K, b: K, c: K :: lt(a, b) && !lt(c, b) ==> lt(a, c))
    && (forall a: K, b: K, c: K :: !lt(b, a) && lt(b, c) ==> lt(a, c))
  }

  /** The shared memory: node keys, the links of every level, and the height. Node 0 is the
      head; its key is never read. */
  datatype Memory<!K(!new)> = Memory(keys: seq<K>, next: seq<seq<int>>, height: nat, lt: (K, K) -> bool) {
    predicate Shape() {
      && |keys| > 0 && |next| == MAX_HEIGHT && 1 <= height <= MAX_HEIGHT
      && (forall i | 0 <= i < MAX_HEIGHT :: |next[i]| == |keys|)
      && forall i, p | 0 <= i < MAX_HEIGHT && 0 <= p < |keys| :: next[i][p] == NIL || 1 <= next[i][p] < |keys|
    }

    /** The nodes some link of the level points to. */
    ghost function Members(i: nat): set<int>
      requires Shape() && i < MAX_HEIGHT
    {
      set p | 0 <= p < |keys| && next[i][p] != NIL :: next[i][p]
    }

    predicate Lt(x: int, y: int)
      requires 0 <= x < |keys| && 0 <= y < |keys|
    {
      x == HEAD || lt(keys[x], keys[y])
    }

    /** Whether a search for the target goes past a key. */
    predicate Above(target: Target<K>, k: K) {
      target.End? || lt(k, target.key)
    }

    /** The link of x at this level leads to the member with the next greater key. */
    ghost predicate Successor(i: nat, x: int)
      requires Shape() && i < MAX_HEIGHT && 0 <= x < |keys|
    {
      var y := next[i][x];
      if y == NIL then forall z | z in Members(i) :: !Lt(x, z)
      else Lt(x, y) && forall z | z in Members(i) && Lt(x, z) :: !lt(keys[z], keys[y])
    }

    ghost predicate Level(i: nat)
      requires Shape() && i < MAX_HEIGHT
    {
      && (forall x | x == HEAD || x in Members(i) :: Successor(i, x))
      && (i > 0 ==> Members(i) <= Members(i - 1))
    }

    /** Every level is a sorted list of nodes, all of them also on the level below. */
    ghost predicate Inv() {
      && Shape() && Ordering(lt)
      && (forall x, y | 1 <= x < |keys| && 1 <= y < |keys| && x != y :: lt(keys[x], keys[y]) || lt(keys[y], keys[x]))
      && (forall i | 0 <= i < MAX_HEIGHT :: Level(i))
    }

    /** The keys in the list. */
    ghost function Keys(): set<K>
      requires Shape()
    {
      set x | x in Members(0) :: keys[x]
    }

    /** No key of the list is equivalent to this one. */
    ghost predicate NewKey(key: K)
      requires Shape()
    {
      forall x | x in Members(0) :: lt(keys[x], key) || lt(key, keys[x])
    }

    function SetNext(i: nat, p: nat, y: int): Memory<K>
      requires Shape() && i < MAX_HEIGHT && p < |keys|
    {
      this.(next := next[i := next[i][p := y]])
    }
  }

  /** The head needs some key; any will do. */
  function EmptyList<K(!new)>(lt: (K, K) -> bool, any: K): (m: Memory<K>)
    requires Ordering(lt)
    ensures m.Inv() && m.Keys() == {} && m.lt == lt
  {
    var m := Memory([any], seq(MAX_HEIGHT, _ => [NIL]), 1, lt);
    assert forall i | 0 <= i < MAX_HEIGHT :: m.Members(i) == {};
    m
  }

  // ----- The writer's stores -----

  datatype Store<K> =
    | Grow(height: nat)
    | NewNode(key: K)
    | Own(x: nat, i: nat, y: int)
    | Link(p: nat, i: nat, x: nat)

  ghost predicate Allowed<K(!new)>(m: Memory<K>, s: Store<K>)
    requires m.Inv()
  {
    match s
    case Grow(h) => m.height <= h <= MAX_HEIGHT
    case NewNode(k) => forall x | 1 <= x < |m.keys| :: m.lt(m.keys[x], k) || m.lt(k, m.keys[x])
    case Own(x, i, y) => 1 <= x < |m.keys| && i < MAX_HEIGHT && x !in m.Members(i) && (y == NIL || y in m.Members(i))
    case Link(p, i, x) =>
      && p < |m.keys| && 1 <= x < |m.keys| && i < MAX_HEIGHT
      && x !in m.Members(i) && (p == HEAD || p in m.Members(i)) && (i > 0 ==> x in m.Members(i - 1))
      && m.next[i][x] == m.next[i][p] && m.Lt(p, x) && (m.next[i][p] != NIL ==> m.lt(m.keys[x], m.keys[m.next[i][p]]))
  }

  function Stored<K(!new)>(m: Memory<K>, s: Store<K>): Memory<K>
    requires m.Shape()
    requires s.Own? ==> s.x < |m.keys| && s.i < MAX_HEIGHT
    requires s.Link? ==> s.p < |m.keys| && s.i < MAX_HEIGHT
  {
    match s
    case Grow(h) => m.(height := h)
    case NewNode(k) => m.(keys := m.keys + [k], next := seq(MAX_HEIGHT, i requires 0 <= i < MAX_HEIGHT => m.next[i] + [NIL]))
    case Own(x, i, y) => m.SetNext(i, x, y)
    case Link(p, i, x) => m.SetNext(i, p, x)
  }

  /** A store into a node no link of the level leads to changes no list. */
  lemma OwnKeepsInv<K(!new)>(m: Memory<K>, x: nat, i: nat, y: int)
    requires m.Inv() && Allowed(m, Own(x, i, y))
    ensures var m' := m.SetNext(i, x, y);
      m'.Inv() && forall k | 0 <= k < MAX_HEIGHT :: m'.Members(k) == m.Members(k)
  {
    var m' := m.SetNext(i, x, y);
    assert m'.Shape() by {
      if y != NIL {
        MemberRange(m, i, y);
      }
    }
    forall k | 0 <= k < MAX_HEIGHT
      ensures m'.Members(k) == m.Members(k)
    {
      if k == i {
        OwnMembers(m, x, i, y);
      } else {
        SameRowMembers(m, m', k);
      }
    }
    forall k | 0 <= k < MAX_HEIGHT
      ensures m'.Level(k)
    {
      SameLevel(m, m', k);
    }
  }

  lemma MemberRange<K(!new)>(m: Memory<K>, i: nat, y: int)
    requires m.Shape() && i < MAX_HEIGHT && y in m.Members(i)
    ensures 1 <= y < |m.keys|
  {
  }

  lemma SameRowMembers<K(!new)>(m: Memory<K>, m': Memory<K>, k: nat)
    requires m.Shape() && m'.Shape() && k < MAX_HEIGHT && m.next[k] == m'.next[k]
    ensures m'.Members(k) == m.Members(k)
  {
  }

  /** The links of an unlinked node add no member, and lose none. */
  lemma OwnMembers<K(!new)>(m: Memory<K>, x: nat, i: nat, y: int)
    requires m.Inv() && Allowed(m, Own(x, i, y)) && m.SetNext(i, x, y).Shape()
    ensures m.SetNext(i, x, y).Members(i) == m.Members(i)
  {
    var m' := m.SetNext(i, x, y);
    forall z | z in m.Members(i)
      ensures z in m'.Members(i)
    {
      var p := Predecessor(m, i, z);
      assert m'.next[i][p] == z;
    }
  }

  /** Every member is the successor of the head or of another member. */
  lemma Predecessor<K(!new)>(m: Memory<K>, i: nat, z: int) returns (p: int)
    requires m.Inv() && i < MAX_HEIGHT && z in m.Members(i)
    ensures 0 <= p < |m.keys| && (p == HEAD || p in m.Members(i)) && m.next[i][p] == z
  {
    var below := set x | x in m.Members(i) && m.lt(m.keys[x], m.keys[z]);
    p := HEAD;
    if x :| x in below {
      p := Greatest(m, below, x);
    }
    assert m.Level(i) && m.Successor(i, p);
    var y := m.next[i][p];
    assert m.Lt(p, z);
    assert y in m.Members(i) && (m.lt(m.keys[y], m.keys[z]) ==> y in below);
  }

  lemma {:induction false} Greatest<K(!new)>(m: Memory<K>, s: set<int>, any: int) returns (g: int)
    requires Ordering(m.lt) && any in s && forall x | x in s :: 0 <= x < |m.keys|
    ensures g in s && forall x | x in s :: !m.lt(m.keys[g], m.keys[x])
    decreases |s|
  {
    g := any;
    if x :| x in s && m.lt(m.keys[any], m.keys[x]) {
      g := Greatest(m, s - {any}, x);
    }
  }

  lemma SameLevel<K(!new)>(m: Memory<K>, m': Memory<K>, k: nat)
    requires m.Inv() && m'.Shape() && k < MAX_HEIGHT && m'.keys == m.keys && m'.lt == m.lt
    requires m'.Members(k) == m.Members(k) && (k > 0 ==> m.Members(k - 1) <= m'.Members(k - 1))
    requires forall x | x == HEAD || x in m.Members(k) :: m'.next[k][x] == m.next[k][x]
    ensures m'.Level(k)
  {
    assert m.Level(k);
    forall x | x == HEAD || x in m'.Members(k)
      ensures m'.Successor(k, x)
    {
      assert m.Successor(k, x);
    }
  }

  /** The lone store that makes a node part of a level. */
  lemma LinkKeepsInv<K(!new)>(m: Memory<K>, p: nat, i: nat, x: nat)
    requires m.Inv() && Allowed(m, Link(p, i, x))
    ensures var m' := m.SetNext(i, p, x);
      m'.Inv() && m'.Members(i) == m.Members(i) + {x as int}
      && forall k | 0 <= k < MAX_HEIGHT && k != i :: m'.Members(k) == m.Members(k)
  {
    var m' := m.SetNext(i, p, x);
    assert m'.Shape();
    hide Memory.Successor;
    LinkMembers(m, p, i, x);
    forall k | 0 <= k < MAX_HEIGHT && k != i
      ensures m'.Members(k) == m.Members(k)
    {
      SameRowMembers(m, m', k);
    }
    forall k | 0 <= k < MAX_HEIGHT
      ensures m'.Level(k)
    {
      assert m.Level(k);
      if k == i {
        LinkSuccessors(m, p, i, x);
      } else {
        SameLevel(m, m', k);
      }
    }
  }

  lemma LinkMembers<K(!new)>(m: Memory<K>, p: nat, i: nat, x: nat)
    requires m.Inv() && Allowed(m, Link(p, i, x)) && m.SetNext(i, p, x).Shape()
    ensures m.SetNext(i, p, x).Members(i) == m.Members(i) + {x as int}
  {
    var m' := m.SetNext(i, p, x);
    assert m'.next[i][p] == x && m'.next[i][x] == m.next[i][x];
    forall z | z in m.Members(i)
      ensures z in m'.Members(i)
    {
      var q := Predecessor(m, i, z);
      assert m'.next[i][if q == p then x else q] == z;
    }
  }

  lemma LinkSuccessors<K(!new)>(m: Memory<K>, p: nat, i: nat, x: nat)
    requires m.Inv() && Allowed(m, Link(p, i, x))
    requires var m' := m.SetNext(i, p, x); m'.Shape() && m'.Members(i) == m.Members(i) + {x as int}
    ensures forall y | y == HEAD || y in m.SetNext(i, p, x).Members(i) :: m.SetNext(i, p, x).Successor(i, y)
  {
    var m' := m.SetNext(i, p, x);
    assert m.Level(i) && m.Successor(i, p);
    forall y | y == HEAD || y in m'.Members(i)
      ensures m'.Successor(i, y)
    {
      if y != x && y != p {
        OtherSuccessor(m, p, i, x, y);
      } else {
        assert m'.next[i][x] == m.next[i][p];
      }
    }
  }

  /** A node before the new one, other than its predecessor, is before the predecessor too. */
  lemma OtherSuccessor<K(!new)>(m: Memory<K>, p: nat, i: nat, x: nat, y: int)
    requires m.Inv() && Allowed(m, Link(p, i, x)) && (y == HEAD || y in m.Members(i)) && y != p && y != x
    requires var m' := m.SetNext(i, p, x); m'.Shape() && m'.Members(i) == m.Members(i) + {x as int}
    ensures m.SetNext(i, p, x).Successor(i, y)
  {
    var m' := m.SetNext(i, p, x);
    assert m.Level(i) && m.Successor(i, p) && m.Successor(i, y);
    assert m'.next[i][y] == m.next[i][y];
    if m.Lt(y, x) {
      assert m.Lt(y, p);
    }
  }

  lemma NewNodeKeepsInv<K(!new)>(m: Memory<K>, key: K)
    requires m.Inv() && Allowed(m, NewNode(key))
    ensures var m' := Stored(m, NewNode(key));
      m'.Inv() && (forall i | 0 <= i < MAX_HEIGHT :: m'.Members(i) == m.Members(i) && |m.keys| !in m'.Members(i))
  {
    var m' := Stored(m, NewNode(key));
    assert m'.Shape();
    hide Memory.Level;
    forall i | 0 <= i < MAX_HEIGHT
      ensures m'.Members(i) == m.Members(i)
    {
      forall z | z in m.Members(i)
        ensures z in m'.Members(i)
      {
        var p :| 0 <= p < |m.keys| && m.next[i][p] == z;
        assert m'.next[i][p] == z;
      }
    }
    forall i | 0 <= i < MAX_HEIGHT
      ensures m'.Level(i)
    {
      assert m.Level(i);
      forall x | x == HEAD || x in m'.Members(i)
        ensures m'.Successor(i, x)
      {
        assert m.Successor(i, x);
        assert m'.next[i][x] == m.next[i][x];
      }
    }
  }

  /** Every single store keeps the levels sorted and nested; the key set changes exactly
      when a node is linked at level 0. */
  lemma StoreKeepsInv<K(!new)>(m: Memory<K>, s: Store<K>)
    requires m.Inv() && Allowed(m, s)
    ensures Stored(m, s).Inv()
    ensures Stored(m, s).Keys() == m.Keys() + if s.Link? && s.i == 0 then {m.keys[s.x]} else {}
    ensures forall i | 0 <= i < MAX_HEIGHT :: m.Members(i) <= Stored(m, s).Members(i)
    ensures m.keys <= Stored(m, s).keys && Stored(m, s).lt == m.lt
  {
    match s {
      case Grow(h) =>
        var m' := Stored(m, s);
        assert m'.Shape();
        assert forall i | 0 <= i < MAX_HEIGHT :: m'.Members(i) == m.Members(i);
        forall i | 0 <= i < MAX_HEIGHT
          ensures m'.Level(i)
        {
          SameLevel(m, m', i);
        }
      case NewNode(k) =>
        NewNodeKeepsInv(m, k);
        SameKeys(m, Stored(m, s));
      case Own(x, i, y) =>
        OwnKeepsInv(m, x, i, y);
      case Link(p, i, x) =>
        LinkKeepsInv(m, p, i, x);
        LinkedKeys(m, p, i, x);
    }
  }

  lemma SameKeys<K(!new)>(m: Memory<K>, m': Memory<K>)
    requires m.Shape() && m'.Shape() && m.keys <= m'.keys && m'.Members(0) == m.Members(0)
    ensures m'.Keys() == m.Keys()
  {
    assert forall x | x in m.Members(0) :: m'.keys[x] == m.keys[x];
    forall k
      ensures k in m'.Keys() <==> k in m.Keys()
    {
      if k in m.Keys() {
        var x :| x in m.Members(0) && m.keys[x] == k;
        assert m'.keys[x] == k;
      }
    }
  }

  lemma LinkedKeys<K(!new)>(m: Memory<K>, p: nat, i: nat, x: nat)
    requires m.Inv() && Allowed(m, Link(p, i, x))
    requires var m' := m.SetNext(i, p, x); m'.Shape() && m'.Members(0) == m.Members(0) + if i == 0 then {x as int} else {}
    ensures m.SetNext(i, p, x).Keys() == m.Keys() + if i == 0 then {m.keys[x]} else {}
  {
    var m' := m.SetNext(i, p, x);
    forall k | k in m.Keys() || (i == 0 && k == m.keys[x])
      ensures k in m'.Keys()
    {
      if k in m.Keys() {
        var z :| z in m.Members(0) && m.keys[z] == k;
        assert z in m'.Members(0);
      }
    }
  }

  // ----- Histories of the memory -----

  ghost predicate Performed<K(!new)>(m: Memory<K>, s: Store<K>, m': Memory<K>) {
    m.Inv() && Allowed(m, s) && m' == Stored(m, s)
  }

  /** The memory after each of the writer's stores. */
  ghost predicate History<K(!new)>(mems: seq<Memory<K>>, stores: seq<Store<K>>) {
    && |mems| == |stores| + 1 && mems[0].Inv()
    && forall t {:trigger stores[t]} | 0 <= t < |stores| :: Performed(mems[t], stores[t], mems[t + 1])
  }

  lemma HistoryInv<K(!new)>(mems: seq<Memory<K>>, stores: seq<Store<K>>, t: nat)
    requires History(mems, stores) && t < |mems|
    ensures mems[t].Inv()
  {
    if t > 0 {
      StoreKeepsInv(mems[t - 1], stores[t - 1]);
    }
  }

  /** Nodes stay members, with their keys. */
  lemma {:induction false} MembersStay<K(!new)>(mems: seq<Memory<K>>, stores: seq<Store<K>>, t: nat, u: nat, i: nat)
    requires History(mems, stores) && t <= u < |mems| && i < MAX_HEIGHT
    ensures mems[t].Shape() && mems[u].Shape() && mems[t].keys <= mems[u].keys && mems[t].lt == mems[u].lt && mems[t].Members(i) <= mems[u].Members(i)
    decreases u
  {
    HistoryInv(mems, stores, t);
    if t < u {
      MembersStay(mems, stores, t, u - 1, i);
      HistoryInv(mems, stores, u - 1);
      StoreKeepsInv(mems[u - 1], stores[u - 1]);
      assert mems[u] == Stored(mems[u - 1], stores[u - 1]);
    }
  }

  // ----- A reader in between -----

  /** What a search looks for: the first key at or above a target, or the end of the list. */
  datatype Target<K> = Key(key: K) | End

  /** Where a search stands, or what its last link read made it return: the node before and
      the node after the target. */
  datatype Search = At(x: int, level: nat) | Done(x: int, next: int)

  /** One link read, and what the search does with it. */
  function ReadLink<K(!new)>(m: Memory<K>, target: Target<K>, s: Search): Search
    requires m.Shape() && s.At? && 0 <= s.x < |m.keys| && s.level < MAX_HEIGHT
  {
    var next := m.next[s.level][s.x];
    if next != NIL && m.Above(target, m.keys[next]) then At(next, s.level)
    else if s.level > 0 then At(s.x, s.level - 1)
    else Done(s.x, next)
  }

  /** A search standing at a linked node before the target. */
  ghost predicate Standing<K(!new)>(m: Memory<K>, target: Target<K>, s: Search)
    requires m.Shape()
  {
    match s
    case At(x, level) => level < MAX_HEIGHT && 0 <= x < |m.keys| && (x == HEAD || (x in m.Members(level) && m.Above(target, m.keys[x])))
    case Done(x, next) => Found(m, target, x, next)
  }

  /** next is the first member not below the target, and x the last one below it. */
  ghost predicate Found<K(!new)>(m: Memory<K>, target: Target<K>, x: int, next: int)
    requires m.Shape()
  {
    && (next == NIL || (next in m.Members(0) && !m.Above(target, m.keys[next])))
    && (x == HEAD || (x in m.Members(0) && m.Above(target, m.keys[x])))
    && (forall z | z in m.Members(0) && m.Above(target, m.keys[z]) :: x != HEAD && !m.lt(m.keys[x], m.keys[z]))
    && (forall z | z in m.Members(0) && !m.Above(target, m.keys[z]) :: next != NIL && !m.lt(m.keys[z], m.keys[next]))
  }

  lemma ReadLinkStands<K(!new)>(m: Memory<K>, target: Target<K>, s: Search)
    requires m.Inv() && s.At? && Standing(m, target, s)
    ensures Standing(m, target, ReadLink(m, target, s))
  {
    assert m.Level(s.level);
    assert m.Successor(s.level, s.x);
  }

  /** A reader started at any level, reading one link at each of the given moments. */
  ghost predicate ReaderRun<K(!new)>(mems: seq<Memory<K>>, target: Target<K>, times: seq<nat>, searches: seq<Search>) {
    && |searches| == |times| + 1
    && searches[0].At? && searches[0].x == HEAD && searches[0].level < MAX_HEIGHT
    && (forall k | 0 <= k < |times| :: times[k] < |mems|)
    && (forall j, k | 0 <= j < k < |times| :: times[j] <= times[k])
    && forall k {:trigger times[k]} | 0 <= k < |times| ::
         && searches[k].At? && mems[times[k]].Shape()
         && 0 <= searches[k].x < |mems[times[k]].keys| && searches[k].level < MAX_HEIGHT
         && searches[k + 1] == ReadLink(mems[times[k]], target, searches[k])
  }

  /** While the writer goes on, a reader stays on linked nodes before its target. */
  lemma {:induction false} ReaderStands<K(!new)>(mems: seq<Memory<K>>, stores: seq<Store<K>>, target: Target<K>, times: seq<nat>, searches: seq<Search>, k: nat)
    requires History(mems, stores) && ReaderRun(mems, target, times, searches) && 0 < k <= |times|
    ensures mems[times[k - 1]].Shape() && Standing(mems[times[k - 1]], target, searches[k])
    decreases k
  {
    var t := times[k - 1];
    HistoryInv(mems, stores, t);
    if k > 1 {
      ReaderStands(mems, stores, target, times, searches, k - 1);
      var before := times[k - 2];
      assert before <= t;
      MembersStay(mems, stores, before, t, searches[k - 1].level);
    }
    assert Standing(mems[t], target, searches[k - 1]);
    ReadLinkStands(mems[t], target, searches[k - 1]);
  }

  /** A search that returns gives the answer for the list as it was at its last link read,
      whatever was inserted while it ran. */
  lemma ReaderIsLinearizable<K(!new)>(mems: seq<Memory<K>>, stores: seq<Store<K>>, target: Target<K>, times: seq<nat>, searches: seq<Search>)
    requires History(mems, stores) && ReaderRun(mems, target, times, searches) && searches[|times|].Done?
    ensures |times| > 0 && mems[times[|times| - 1]].Shape()
    ensures Found(mems[times[|times| - 1]], target, searches[|times|].x, searches[|times|].next)
  {
    ReaderStands(mems, stores, target, times, searches, |times|);
  }

  // ----- The list itself -----

  /** Where a key goes on a level: after p, before p's successor. */
  ghost predicate Splice<K(!new)>(m: Memory<K>, i: nat, key: K, p: int)
    requires m.Shape() && i < MAX_HEIGHT
  {
    && 0 <= p < |m.keys| && (p == HEAD || (p in m.Members(i) && m.lt(m.keys[p], key)))
    && (m.next[i][p] == NIL || !m.lt(m.keys[m.next[i][p]], key))
  }

  /** The members of a level after a node. */
  ghost function Ahead<K(!new)>(m: Memory<K>, i: nat, x: int): set<int>
    requires m.Shape() && i < MAX_HEIGHT && 0 <= x < |m.keys|
  {
    set z | z in m.Members(i) && m.Lt(x, z)
  }

  lemma AheadShrinks<K(!new)>(m: Memory<K>, i: nat, x: int)
    requires m.Inv() && i < MAX_HEIGHT && 0 <= x < |m.keys| && (x == HEAD || x in m.Members(i)) && m.next[i][x] != NIL
    ensures Ahead(m, i, m.next[i][x]) < Ahead(m, i, x)
  {
    assert m.Level(i) && m.Successor(i, x);
    assert m.next[i][x] in Ahead(m, i, x);
  }

  lemma HistoryExtends<K(!new)>(mems: seq<Memory<K>>, stores: seq<Store<K>>, s: Store<K>)
    requires History(mems, stores) && mems[|stores|].Inv() && Allowed(mems[|stores|], s)
    ensures History(mems + [Stored(mems[|stores|], s)], stores + [s])
  {
    var mems', stores' := mems + [Stored(mems[|stores|], s)], stores + [s];
    assert mems'[0] == mems[0];
    forall t {:trigger stores'[t]} | 0 <= t < |stores'|
      ensures Performed(mems'[t], stores'[t], mems'[t + 1])
    {
      if t < |stores| {
        assert Performed(mems[t], stores[t], mems[t + 1]);
      }
    }
  }

  /** Half-way through an insertion: node x is linked on the levels below i, and prev says
      where it goes on the others. */
  ghost predicate Linking<K(!new)>(m: Memory<K>, key: K, prev: seq<nat>, x: nat, i: nat, height: nat) {
    && m.Inv() && |prev| == MAX_HEIGHT && i <= height <= m.height
    && 1 <= x == |m.keys| - 1 && m.keys[x] == key
    && (forall y | 1 <= y < x :: y in m.Members(0))
    && (forall k | m.height <= k < MAX_HEIGHT :: m.Members(k) == {})
    && (forall k | 0 <= k < i :: x in m.Members(k))
    && (forall k | i <= k < MAX_HEIGHT :: x !in m.Members(k))
    && (forall k | i <= k < height :: Splice(m, k, key, prev[k]))
  }

  /** The two stores of one round of the insertion loop. */
  function OwnStore<K(!new)>(m: Memory<K>, prev: seq<nat>, x: nat, i: nat): Store<K>
    requires m.Shape() && i < MAX_HEIGHT && |prev| == MAX_HEIGHT && prev[i] < |m.keys|
  {
    Own(x, i, m.next[i][prev[i]])
  }

  lemma OwnStoreAllowed<K(!new)>(m: Memory<K>, key: K, prev: seq<nat>, x: nat, i: nat, height: nat)
    requires Linking(m, key, prev, x, i, height) && i < height
    ensures prev[i] < |m.keys| && Allowed(m, OwnStore(m, prev, x, i))
    ensures var m1 := Stored(m, OwnStore(m, prev, x, i));
      && Linking(m1, key, prev, x, i, height) && m1.Keys() == m.Keys() && m1.next[i][x] == m1.next[i][prev[i]]
  {
    assert Splice(m, i, key, prev[i]);
    var s := OwnStore(m, prev, x, i);
    var m1 := Stored(m, s);
    OwnKeepsInv(m, x, i, m.next[i][prev[i]]);
    StoreKeepsInv(m, s);
    assert prev[i] != x;
    forall k | i <= k < height
      ensures Splice(m1, k, key, prev[k])
    {
      assert Splice(m, k, key, prev[k]);
      assert prev[k] != x;
    }
  }

  lemma LinkStoreAllowed<K(!new)>(m: Memory<K>, key: K, prev: seq<nat>, x: nat, i: nat, height: nat)
    requires Linking(m, key, prev, x, i, height) && i < height && prev[i] < |m.keys| && m.next[i][x] == m.next[i][prev[i]]
    ensures Allowed(m, Link(prev[i], i, x))
    ensures var m2 := Stored(m, Link(prev[i], i, x));
      Linking(m2, key, prev, x, i + 1, height) && m2.Keys() == m.Keys() + if i == 0 then {key} else {}
  {
    assert Splice(m, i, key, prev[i]);
    assert m.next[i][prev[i]] != NIL ==> m.next[i][prev[i]] != x && m.lt(key, m.keys[m.next[i][prev[i]]]);
    var m2 := Stored(m, Link(prev[i], i, x));
    LinkKeepsInv(m, prev[i], i, x);
    StoreKeepsInv(m, Link(prev[i], i, x));
    forall k | i < k < height
      ensures Splice(m2, k, key, prev[k])
    {
      assert Splice(m, k, key, prev[k]);
    }
  }

  lemma LinkingEnds<K(!new)>(m: Memory<K>, key: K, prev: seq<nat>, x: nat, height: nat)
    requires Linking(m, key, prev, x, height, height) && height > 0
    ensures m.Inv() && (forall y | 1 <= y < |m.keys| :: y in m.Members(0)) && (forall i | m.height <= i < MAX_HEIGHT :: m.Members(i) == {})
  {
  }

  /** Before the first link: a fresh node, and a place for it on every level. */
  lemma LinkingStarts<K(!new)>(m: Memory<K>, key: K, prev: seq<nat>, height: nat)
    requires m.Inv() && m.NewKey(key) && 1 <= height <= m.height && |prev| == MAX_HEIGHT
    requires forall x | 1 <= x < |m.keys| :: x in m.Members(0)
    requires forall k | m.height <= k < MAX_HEIGHT :: m.Members(k) == {}
    requires forall k | 0 <= k < height :: Splice(m, k, key, prev[k])
    ensures Allowed(m, NewNode(key)) && Linking(Stored(m, NewNode(key)), key, prev, |m.keys|, 0, height)
    ensures Stored(m, NewNode(key)).Keys() == m.Keys()
  {
    var m' := Stored(m, NewNode(key));
    NewNodeKeepsInv(m, key);
    StoreKeepsInv(m, NewNode(key));
    forall k | 0 <= k < height
      ensures Splice(m', k, key, prev[k])
    {
      assert Splice(m, k, key, prev[k]);
      assert m'.next[k][prev[k]] == m.next[k][prev[k]];
    }
  }

  /** Raising the height leaves room at the head of the new levels. */
  lemma GrownSplice<K(!new)>(m: Memory<K>, key: K, h: nat, i: nat, p: int)
    requires m.Inv() && m.height <= h <= MAX_HEIGHT && i < h
    requires if i < m.height then Splice(m, i, key, p) else p == HEAD && m.Members(i) == {}
    ensures Stored(m, Grow(h)).Inv() && Splice(Stored(m, Grow(h)), i, key, p)
  {
    StoreKeepsInv(m, Grow(h));
    var m' := Stored(m, Grow(h));
    assert m'.Members(i) == m.Members(i);
    assert m.next[i][HEAD] == NIL || m.next[i][HEAD] in m.Members(i);
  }

  class SkipList<K(!new)> {
    var mem: Memory<K>
    ghost var mems: seq<Memory<K>>
    ghost var stores: seq<Store<K>>

    ghost predicate Recorded()
      reads this
    {
      History(mems, stores) && mems[|stores|] == mem && mem.Inv()
    }

    /** Between insertions every node is linked, and the levels above the height are empty. */
    ghost predicate Valid()
      reads this
    {
      && Recorded()
      && (forall x | 1 <= x < |mem.keys| :: x in mem.Members(0))
      && (forall i | mem.height <= i < MAX_HEIGHT :: mem.Members(i) == {})
    }

    constructor (lt: (K, K) -> bool, any: K)
      requires Ordering(lt)
      ensures Valid() && mem.Keys() == {} && mem.lt == lt
    {
      mem := EmptyList(lt, any);
      mems, stores := [EmptyList(lt, any)], [];
    }

    /** One store, seen by every reader from now on. */
    method Perform(s: Store<K>)
      requires Recorded() && Allowed(mem, s)
      modifies this
      ensures Recorded() && mem == Stored(old(mem), s) && mems == old(mems) + [mem] && stores == old(stores) + [s]
    {
      StoreKeepsInv(mem, s);
      HistoryExtends(mems, stores, s);
      mem := Stored(mem, s);
      mems, stores := mems + [mem], stores + [s];
    }

    method FindGreaterOrEqual(key: K, prev: array?<nat>) returns (next: int, ghost x: int)
      requires Recorded() && (prev != null ==> prev.Length == MAX_HEIGHT)
      modifies prev
      ensures Found(mem, Key(key), x, next)
      ensures prev != null ==> forall i | 0 <= i < mem.height :: Splice(mem, i, key, prev[i])
    {
      var node: nat := HEAD;
      var level: nat := mem.height - 1;
      while true
        invariant level < mem.height && Standing(mem, Key(key), At(node, level))
        invariant prev != null ==> forall i | level < i < mem.height :: Splice(mem, i, key, prev[i])
        decreases level, Ahead(mem, level, node)
      {
        ReadLinkStands(mem, Key(key), At(node, level));
        next := mem.next[level][node];
        if next != NIL && mem.lt(mem.keys[next], key) {
          AheadShrinks(mem, level, node);
          node := next;
        } else {
          if prev != null {
            prev[level] := node;
          }
          if level == 0 {
            return next, node;
          }
          level := level - 1;
        }
      }
    }

    /** The last node before the key, or the head. */
    method FindLessThan(key: K) returns (node: nat)
      requires Recorded()
      ensures exists next :: Found(mem, Key(key), node, next)
    {
      node := HEAD;
      var level: nat := mem.height - 1;
      while true
        invariant level < mem.height && Standing(mem, Key(key), At(node, level))
        decreases level, Ahead(mem, level, node)
      {
        ReadLinkStands(mem, Key(key), At(node, level));
        var next := mem.next[level][node];
        if next == NIL || !mem.lt(mem.keys[next], key) {
          if level == 0 {
            return;
          }
          level := level - 1;
        } else {
          AheadShrinks(mem, level, node);
          node := next;
        }
      }
    }

    /** The last node of the list, or the head. */
    method FindLast() returns (node: nat)
      requires Recorded()
      ensures Found(mem, End, node, NIL)
    {
      node := HEAD;
      var level: nat := mem.height - 1;
      while true
        invariant level < mem.height && Standing(mem, End, At(node, level))
        decreases level, Ahead(mem, level, node)
      {
        ReadLinkStands(mem, End, At(node, level));
        var next := mem.next[level][node];
        if next == NIL {
          if level == 0 {
            return;
          }
          level := level - 1;
        } else {
          AheadShrinks(mem, level, node);
          node := next;
        }
      }
    }

    method Contains(key: K) returns (found: bool)
      requires Recorded()
      ensures found <==> !mem.NewKey(key)
    {
      var next, x := FindGreaterOrEqual(key, null);
      found := next != NIL && !mem.lt(key, mem.keys[next]);
      if !mem.NewKey(key) {
        var z :| z in mem.Members(0) && !mem.lt(mem.keys[z], key) && !mem.lt(key, mem.keys[z]);
        assert !mem.Above(Key(key), mem.keys[z]);
      }
    }

    /** Insert: the key appears at one instant, at the store that links it on level 0; before
        that instant every reader sees the old keys, from then on the new ones. */
    method Insert(key: K, height: nat)
      requires Valid() && mem.NewKey(key) && 1 <= height <= MAX_HEIGHT
      modifies this
      ensures Valid() && mem.Keys() == old(mem.Keys()) + {key} && mem.lt == old(mem.lt)
      ensures old(stores) <= stores && old(mems) <= mems
      ensures forall t | |old(mems)| <= t < |mems| :: mems[t].Shape() && (mems[t].Keys() == old(mem.Keys()) || mems[t].Keys() == mem.Keys())
    {
      var prev := FindPlaces(key, height);
      LinkingStarts(mem, key, prev[..], height);
      var x := |mem.keys|;
      Perform(NewNode(key));
      LinkNode(key, height, prev, x);
    }

    /** The node to link after on every level of the new node, the head on new levels. */
    method FindPlaces(key: K, height: nat) returns (prev: array<nat>)
      requires Valid() && 1 <= height <= MAX_HEIGHT
      modifies this
      ensures Valid() && height <= mem.height && mem.lt == old(mem.lt) && mem.NewKey(key) == old(mem.NewKey(key))
      ensures mem.Keys() == old(mem.Keys()) && Passed(old(mems), old(stores), old(mem.Keys()), key)
      ensures fresh(prev) && prev.Length == MAX_HEIGHT && forall k | 0 <= k < height :: Splice(mem, k, key, prev[k])
    {
      prev := new nat[MAX_HEIGHT];
      var next, before := FindGreaterOrEqual(key, prev);
      if height > mem.height {
        for i := mem.height to height
          modifies prev
          invariant forall k | 0 <= k < mem.height :: Splice(mem, k, key, prev[k])
          invariant forall k | mem.height <= k < i :: prev[k] == HEAD
        {
          prev[i] := HEAD;
        }
        RaiseHeight(key, height, prev);
      }
    }

    method LinkNode(key: K, height: nat, prev: array<nat>, x: nat)
      requires Recorded() && prev.Length == MAX_HEIGHT && height > 0 && Linking(mem, key, prev[..], x, 0, height)
      modifies this
      ensures Valid() && mem.Keys() == old(mem.Keys()) + {key} && mem.lt == old(mem.lt)
      ensures Passed(old(mems), old(stores), old(mem.Keys()), key)
    {
      hide Linking, History, Memory.Level, Memory.Keys;
      for i := 0 to height
        invariant Recorded() && Linking(mem, key, prev[..], x, i, height) && mem.lt == old(mem.lt)
        invariant mem.Keys() == old(mem.Keys()) + if i > 0 then {key} else {}
        invariant Passed(old(mems), old(stores), old(mem.Keys()), key)
      {
        LinkLevel(key, height, prev, x, i);
      }
      LinkingEnds(mem, key, prev[..], x, height);
    }

    method LinkLevel(key: K, height: nat, prev: array<nat>, x: nat, i: nat)
      requires Recorded() && prev.Length == MAX_HEIGHT && i < height && Linking(mem, key, prev[..], x, i, height)
      modifies this
      ensures Recorded() && Linking(mem, key, prev[..], x, i + 1, height) && mem.lt == old(mem.lt)
      ensures mem.Keys() == old(mem.Keys()) + if i == 0 then {key} else {}
      ensures |mems| == |old(mems)| + 2 && mems == old(mems) + [mems[|mems| - 2], mem] && old(stores) <= stores
      ensures mems[|mems| - 2].Shape() && mems[|mems| - 2].Keys() == old(mem.Keys())
    {
      assert prev[..][i] == prev[i];
      OwnStoreAllowed(mem, key, prev[..], x, i, height);
      hide Linking, History, Memory.Level, Memory.Keys, Allowed;
      Perform(Own(x, i, mem.next[i][prev[i]]));
      LinkStoreAllowed(mem, key, prev[..], x, i, height);
      Perform(Link(prev[i], i, x));
    }

    /** Every memory since then held the old keys, or those and the new one. */
    ghost predicate Passed(mems0: seq<Memory<K>>, stores0: seq<Store<K>>, keys: set<K>, key: K)
      reads this
    {
      && mems0 <= mems && stores0 <= stores
      && forall t | |mems0| <= t < |mems| :: mems[t].Shape() && (mems[t].Keys() == keys || mems[t].Keys() == keys + {key})
    }

    method RaiseHeight(key: K, height: nat, prev: array<nat>)
      requires Valid() && mem.height < height <= MAX_HEIGHT && prev.Length == MAX_HEIGHT
      requires forall k | 0 <= k < mem.height :: Splice(mem, k, key, prev[k])
      requires forall k | mem.height <= k < height :: prev[k] == HEAD
      modifies this
      ensures Valid() && mem.height == height && mem.Keys() == old(mem.Keys())
      ensures mem.lt == old(mem.lt) && mem.NewKey(key) == old(mem.NewKey(key))
      ensures mems == old(mems) + [mem] && old(stores) <= stores
      ensures forall k | 0 <= k < height :: Splice(mem, k, key, prev[k])
    {
      forall k | 0 <= k < height
        ensures Splice(Stored(mem, Grow(height)), k, key, prev[k])
      {
        GrownSplice(mem, key, height, k, prev[k]);
      }
      StoreKeepsInv(mem, Grow(height));
      ghost var m' := Stored(mem, Grow(height));
      assert forall i | 0 <= i < MAX_HEIGHT :: m'.Members(i) == mem.Members(i);
      Perform(Grow(height));
    }
  }
}
