/** Live snapshots in a circular doubly linked list around a dummy head. */
module Snapshots {
  class SnapshotImpl {
    const sequence: nat
    var prev: SnapshotImpl
    var next: SnapshotImpl

    constructor (sequence: nat)
      ensures this.sequence == sequence && prev == this && next == this
    {
      this.sequence := sequence;
      prev := this;
      next := this;
    }
  }

  ghost predicate OldestFirst(nodes: seq<SnapshotImpl>) {
    forall i, j | 0 <= i < j < |nodes| :: nodes[i] != nodes[j] && nodes[i].sequence <= nodes[j].sequence
  }

  ghost function Without<T>(s: seq<T>, k: nat): (r: seq<T>)
    requires k < |s|
    ensures |r| == |s| - 1
    ensures forall i | 0 <= i < |r| :: r[i] == s[if i < k then i else i + 1]
  {
    s[..k] + s[k + 1..]
  }

  ghost function SequencesOf(nodes: seq<SnapshotImpl>): (r: seq<nat>)
    ensures |r| == |nodes| && forall i | 0 <= i < |r| :: r[i] == nodes[i].sequence
  {
    seq(|nodes|, i requires 0 <= i < |nodes| => nodes[i].sequence)
  }

  lemma WithoutOldestFirst(nodes: seq<SnapshotImpl>, head: SnapshotImpl, k: nat)
    requires OldestFirst(nodes) && head !in nodes && k < |nodes|
    ensures OldestFirst(Without(nodes, k)) && head !in Without(nodes, k)
    ensures [head] + Without(nodes, k) + [head] == Without([head] + nodes + [head], k + 1)
  {
  }

  lemma RingDistinct(nodes: seq<SnapshotImpl>, head: SnapshotImpl, k: nat)
    requires OldestFirst(nodes) && head !in nodes && k < |nodes|
    ensures var ring := [head] + nodes + [head];
      && (forall i | 0 <= i <= |nodes| && i != k :: ring[i] != ring[k])
      && (forall i | 1 <= i <= |nodes| + 1 && i != k + 2 :: ring[i] != ring[k + 2])
  {
  }

  class SnapshotList {
    const head: SnapshotImpl
    /** The live snapshots, oldest first. */
    ghost var nodes: seq<SnapshotImpl>

    ghost function Ring(): seq<SnapshotImpl>
      reads this
    {
      [head] + nodes + [head]
    }

    ghost predicate Linked()
      reads this, Ring()
    {
      var ring := Ring();
      forall i | 0 <= i <= |nodes| :: ring[i].next == ring[i + 1] && ring[i + 1].prev == ring[i]
    }

    ghost predicate Valid()
      reads this, Ring()
    {
      head !in nodes && OldestFirst(nodes) && Linked()
    }

    constructor ()
      ensures Valid() && nodes == [] && fresh(this) && fresh(head)
    {
      head := new SnapshotImpl(0);
      nodes := [];
    }

    predicate Empty()
      reads this, Ring()
      requires Valid()
      ensures Empty() <==> nodes == []
    {
      assert Ring()[0].next == Ring()[1];
      head.next == head
    }

    /** The first node is the live snapshot with the smallest sequence number. */
    function Oldest(): (s: SnapshotImpl)
      reads this, Ring()
      requires Valid() && !Empty()
      ensures s in nodes && s == nodes[0]
      ensures forall n | n in nodes :: s.sequence <= n.sequence
    {
      assert Ring()[0].next == Ring()[1];
      head.next
    }

    function Newest(): (s: SnapshotImpl)
      reads this, Ring()
      requires Valid() && !Empty()
      ensures s == nodes[|nodes| - 1]
    {
      assert Ring()[|nodes| + 1].prev == Ring()[|nodes|];
      head.prev
    }

    method New(sequence: nat) returns (s: SnapshotImpl)
      requires Valid() && (Empty() || Newest().sequence <= sequence)
      modifies this, Ring()
      ensures Valid() && fresh(s) && s.sequence == sequence
      ensures nodes == old(nodes) + [s]
    {
      var last := head.prev;
      ghost var ring := Ring();
      assert last == ring[|nodes|] by { assert ring[|nodes| + 1].prev == ring[|nodes|]; }
      s := new SnapshotImpl(sequence);
      s.next := head;
      s.prev := last;
      last.next := s;
      head.prev := s;
      nodes := nodes + [s];
      assert forall i | 0 <= i < |ring| - 1 :: Ring()[i] == ring[i];
    }

    method Delete(s: SnapshotImpl, ghost k: nat)
      requires Valid() && k < |nodes| && nodes[k] == s
      modifies this, Ring()
      ensures Valid() && nodes == old(Without(nodes, k))
    {
      ghost var ring := Ring();
      assert ring[k].next == ring[k + 1] && ring[k + 1].prev == ring[k] && ring[k + 1].next == ring[k + 2];
      RingDistinct(nodes, head, k);
      WithoutOldestFirst(nodes, head, k);
      s.prev.next := s.next;
      s.next.prev := s.prev;
      assert forall i | 0 <= i <= |nodes| && i != k :: ring[i].next == ring[i + 1];
      assert forall i | 0 <= i <= |nodes| && i != k + 1 :: ring[i + 1].prev == ring[i];
      nodes := Without(nodes, k);
    }
  }
}
