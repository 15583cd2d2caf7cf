/** The writer queue: one leader commits a group of waiting batches in a single log record. */
module GroupCommit {
  import opened Basics
  import opened WriteBatches
  import Recovery

  /** A thread inside Write: its batch (none when it only forces a compaction) and its options. */
  datatype Request = Request(batch: Option<seq<BatchOp>>, sync: bool) {
    function Ops(): seq<BatchOp> {
      if batch.Some? then batch.value else []
    }
  }

  function ByteSize(ops: seq<BatchOp>): nat {
    BATCH_HEADER + |Records(ops)|
  }

  /** The operations of the requests, in queue order. */
  function AllOps(rs: seq<Request>): seq<BatchOp>
    decreases |rs|
  {
    if rs == [] then [] else rs[0].Ops() + AllOps(rs[1..])
  }

  function TotalSize(rs: seq<Request>): nat
    decreases |rs|
  {
    if rs == [] then 0 else (if rs[0].batch.Some? then ByteSize(rs[0].batch.value) else 0) + TotalSize(rs[1..])
  }

  /** A small first write keeps its group small. */
  function MaxSize(first: seq<BatchOp>): nat {
    if ByteSize(first) <= 0x20000 then ByteSize(first) + 0x20000 else 0x100000
  }

  /** The request may ride along behind this leader. */
  predicate Joins(queue: seq<Request>, k: nat)
    requires 0 < k < |queue| && queue[0].batch.Some?
  {
    && (queue[k].sync ==> queue[0].sync)
    && (queue[k].batch.Some? ==> TotalSize(queue[..k + 1]) <= MaxSize(queue[0].batch.value))
  }

  /** The longest run of requests that may ride along with the first. */
  ghost predicate IsGroup(queue: seq<Request>, k: nat) {
    && 0 < k <= |queue| && queue[0].batch.Some?
    && (forall i | 0 < i < k :: Joins(queue, i))
    && (k < |queue| ==> !Joins(queue, k))
  }

  lemma {:induction false} AllOpsLast(rs: seq<Request>, r: Request)
    ensures AllOps(rs + [r]) == AllOps(rs) + r.Ops()
    decreases |rs|
  {
    if rs == [] {
      assert rs + [r] == [r] && [r][1..] == [];
    } else {
      assert (rs + [r])[0] == rs[0] && (rs + [r])[1..] == rs[1..] + [r];
      AllOpsLast(rs[1..], r);
    }
  }

  lemma {:induction false} TotalSizeLast(rs: seq<Request>, r: Request)
    ensures TotalSize(rs + [r]) == TotalSize(rs) + TotalSize([r])
    decreases |rs|
  {
    if rs == [] {
      assert rs + [r] == [r];
    } else {
      assert (rs + [r])[0] == rs[0] && (rs + [r])[1..] == rs[1..] + [r];
      TotalSizeLast(rs[1..], r);
    }
  }

  lemma GroupStep(queue: seq<Request>, k: nat)
    requires k < |queue|
    ensures AllOps(queue[..k + 1]) == AllOps(queue[..k]) + queue[k].Ops()
    ensures TotalSize(queue[..k + 1]) == TotalSize(queue[..k]) + if queue[k].batch.Some? then ByteSize(queue[k].batch.value) else 0
  {
    assert queue[..k + 1] == queue[..k] + [queue[k]];
    AllOpsLast(queue[..k], queue[k]);
    TotalSizeLast(queue[..k], queue[k]);
    assert [queue[k]][1..] == [];
  }

  /** The first k requests, collected. */
  ghost predicate Collected(queue: seq<Request>, k: nat, ops: seq<BatchOp>, size: nat) {
    && 0 < k <= |queue| && queue[0].batch.Some?
    && ops == AllOps(queue[..k]) && size == TotalSize(queue[..k])
    && forall i | 0 < i < k :: Joins(queue, i)
  }

  lemma CollectedFirst(queue: seq<Request>)
    requires queue != [] && queue[0].batch.Some?
    ensures Collected(queue, 1, queue[0].batch.value, ByteSize(queue[0].batch.value))
  {
    assert queue[..1][0] == queue[0] && queue[..1][1..] == [];
    assert queue[0].batch.value + [] == queue[0].batch.value;
  }

  lemma CollectedNext(queue: seq<Request>, k: nat, ops: seq<BatchOp>, size: nat)
    requires Collected(queue, k, ops, size)
    ensures k == |queue| ==> IsGroup(queue, k) && ops == AllOps(queue[..k])
    ensures k < |queue| ==>
      var w := queue[k];
      var added := if w.batch.Some? then ByteSize(w.batch.value) else 0;
      if (w.sync && !queue[0].sync) || (w.batch.Some? && size + added > MaxSize(queue[0].batch.value)) then
        IsGroup(queue, k) && ops == AllOps(queue[..k])
      else Collected(queue, k + 1, ops + w.Ops(), size + added)
  {
    if k < |queue| {
      GroupStep(queue, k);
    }
    hide AllOps, TotalSize, MaxSize, ByteSize;
  }

  /** How many operations the first k requests bring along. */
  function OpsBefore(rs: seq<Request>, k: nat): nat
    requires k <= |rs|
  {
    if k == 0 then 0 else OpsBefore(rs, k - 1) + if rs[k - 1].batch.Some? then |rs[k - 1].batch.value| else 0
  }

  /** Every request's batch is in the group's, whole and in its order, behind those of the requests
      before it, and nothing else is there. */
  ghost predicate HoldsEach(rs: seq<Request>, ops: seq<BatchOp>) {
    && |ops| == OpsBefore(rs, |rs|)
    && forall i | 0 <= i < |rs| :: HoldsAt(rs, ops, i)
  }

  lemma {:induction false} SameBefore(rs: seq<Request>, more: seq<Request>, k: nat)
    requires k <= |rs|
    ensures OpsBefore(rs + more, k) == OpsBefore(rs, k)
  {
    if k > 0 {
      SameBefore(rs, more, k - 1);
    }
  }

  /** The batch of request i is where it should be. */
  ghost predicate HoldsAt(rs: seq<Request>, ops: seq<BatchOp>, i: nat)
    requires i < |rs|
  {
    rs[i].batch.Some? ==>
      && OpsBefore(rs, i) + |rs[i].batch.value| <= |ops|
      && ops[OpsBefore(rs, i)..OpsBefore(rs, i) + |rs[i].batch.value|] == rs[i].batch.value
  }

  lemma HoldsLonger(rs: seq<Request>, last: Request, ops: seq<BatchOp>, more: seq<BatchOp>, i: nat)
    requires i < |rs| && HoldsAt(rs, ops, i)
    ensures HoldsAt(rs + [last], ops + more, i)
  {
    SameBefore(rs, [last], i);
    if rs[i].batch.Some? {
      var from, to := OpsBefore(rs, i), OpsBefore(rs, i) + |rs[i].batch.value|;
      assert (ops + more)[from..to] == ops[from..to];
    }
  }

  lemma HoldsLast(rs: seq<Request>, last: Request, ops: seq<BatchOp>)
    requires |ops| == OpsBefore(rs, |rs|)
    ensures HoldsAt(rs + [last], ops + last.Ops(), |rs|) && |ops + last.Ops()| == OpsBefore(rs + [last], |rs| + 1)
  {
    SameBefore(rs, [last], |rs|);
    var all := ops + last.Ops();
    assert all[|ops|..|ops| + |last.Ops()|] == last.Ops();
  }

  lemma {:induction false} AllOpsHoldsEach(rs: seq<Request>)
    ensures HoldsEach(rs, AllOps(rs))
    decreases |rs|
  {
    if rs != [] {
      var front, last := rs[..|rs| - 1], rs[|rs| - 1];
      assert rs == front + [last];
      AllOpsHoldsEach(front);
      AllOpsLast(front, last);
      HoldsLast(front, last, AllOps(front));
      hide AllOps, OpsBefore, HoldsAt;
      forall i | 0 <= i < |front| ensures HoldsAt(rs, AllOps(rs), i) {
        assert HoldsAt(front, AllOps(front), i);
        HoldsLonger(front, last, AllOps(front), last.Ops(), i);
      }
    }
  }

  /** DBImpl::BuildBatchGroup. */
  method BuildBatchGroup(queue: seq<Request>) returns (k: nat, ops: seq<BatchOp>)
    requires queue != [] && queue[0].batch.Some?
    ensures IsGroup(queue, k) && ops == AllOps(queue[..k]) && HoldsEach(queue[..k], ops)
  {
    k, ops := CollectGroup(queue);
    AllOpsHoldsEach(queue[..k]);
  }

  method CollectGroup(queue: seq<Request>) returns (k: nat, ops: seq<BatchOp>)
    requires queue != [] && queue[0].batch.Some?
    ensures IsGroup(queue, k) && ops == AllOps(queue[..k])
  {
    var first := queue[0];
    ops := first.batch.value;
    var size: nat := ByteSize(first.batch.value);
    var maxSize := 0x100000;
    if size <= 0x20000 {
      maxSize := size + 0x20000;
    }
    k := 1;
    CollectedFirst(queue);
    assert maxSize == MaxSize(first.batch.value);
    hide AllOps, ByteSize, MaxSize, IsGroup, Collected;
    while k < |queue|
      invariant 0 < k <= |queue| && Collected(queue, k, ops, size)
    {
      var w := queue[k];
      CollectedNext(queue, k, ops, size);
      if w.sync && !first.sync {
        return;
      }
      if w.batch.Some? {
        var more := size + ByteSize(w.batch.value);
        if more > maxSize {
          return;
        }
        size := more;
        ops := ops + w.batch.value;
      } else {
        assert ops + [] == ops;
      }
      k := k + 1;
    }
    CollectedNext(queue, k, ops, size);
  }

  /** One commit: the requests it answered, what it wrote and how that ended. */
  datatype Commit = Commit(members: seq<Request>, first: nat, ops: seq<BatchOp>, wrote: bool, appended: bool, synced: bool, ok: bool)

  /** What the leader is doing with the mutex released. */
  datatype Active = Active(size: nat, ops: Option<seq<BatchOp>>, ok: bool)

  function Members(cs: seq<Commit>): seq<Request>
    decreases |cs|
  {
    if cs == [] then [] else cs[0].members + Members(cs[1..])
  }

  ghost predicate CommitOk(c: Commit) {
    && c.members != []
    && (c.wrote ==> c.members[0].batch.Some? && c.ops == AllOps(c.members))
    && (!c.wrote ==> |c.members| == 1 && c.ops == [] && !c.appended)
    && (c.wrote ==> (c.ok <==> c.appended && (c.members[0].sync ==> c.synced)))
    && (c.wrote && c.ok ==> forall i | 0 <= i < |c.members| && c.members[i].sync :: c.synced)
  }

  /** Each commit takes the sequence numbers right after those of the one before. */
  ghost predicate Ranges(cs: seq<Commit>, before: nat, last: nat)
    decreases |cs|
  {
    if cs == [] then before == last
    else cs[0].first == before + 1 && Ranges(cs[1..], before + |cs[0].ops|, last)
  }

  lemma {:induction false} MembersLast(cs: seq<Commit>, c: Commit)
    ensures Members(cs + [c]) == Members(cs) + c.members
    decreases |cs|
  {
    if cs == [] {
      assert cs + [c] == [c] && [c][1..] == [];
    } else {
      assert (cs + [c])[0] == cs[0] && (cs + [c])[1..] == cs[1..] + [c];
      MembersLast(cs[1..], c);
    }
  }

  lemma {:induction false} RangesLast(cs: seq<Commit>, before: nat, last: nat, c: Commit)
    requires Ranges(cs, before, last) && c.first == last + 1
    ensures Ranges(cs + [c], before, last + |c.ops|)
    decreases |cs|
  {
    if cs == [] {
      assert cs + [c] == [c] && [c][1..] == [];
    } else {
      assert (cs + [c])[0] == cs[0] && (cs + [c])[1..] == cs[1..] + [c];
      RangesLast(cs[1..], before + |cs[0].ops|, last, c);
    }
  }

  /** What every step of the queue keeps. */
  ghost predicate Inv(arrived: seq<Request>, commits: seq<Commit>, writers: seq<Request>, start: nat, last: nat, failed: bool) {
    && arrived == Members(commits) + writers
    && (forall i | 0 <= i < |commits| :: CommitOk(commits[i]))
    && Ranges(commits, start, last)
    && (failed <==> exists i :: 0 <= i < |commits| && SyncFailed(commits[i]))
    && (forall i, j | 0 <= i < j < |commits| && SyncFailed(commits[i]) :: !commits[j].wrote && !commits[j].ok)
  }

  lemma EnterKeepsInv(arrived: seq<Request>, commits: seq<Commit>, writers: seq<Request>, start: nat, last: nat, failed: bool, r: Request)
    requires Inv(arrived, commits, writers, start, last, failed)
    ensures Inv(arrived + [r], commits, writers + [r], start, last, failed)
  {
    assert (Members(commits) + writers) + [r] == Members(commits) + (writers + [r]);
  }

  /** A commit of the first k waiting requests. */
  lemma CommitKeepsInv(arrived: seq<Request>, commits: seq<Commit>, writers: seq<Request>, start: nat, last: nat, failed: bool, c: Commit, k: nat)
    requires Inv(arrived, commits, writers, start, last, failed)
    requires k <= |writers| && c.members == writers[..k] && c.first == last + 1 && CommitOk(c)
    requires failed ==> !c.wrote && !c.ok
    ensures Inv(arrived, commits + [c], writers[k..], start, last + |c.ops|, failed || SyncFailed(c))
  {
    var more := commits + [c];
    MembersLast(commits, c);
    RangesLast(commits, start, last, c);
    assert Members(commits) + writers == (Members(commits) + writers[..k]) + writers[k..];
    assert forall i | 0 <= i < |commits| :: more[i] == commits[i];
    assert more[|commits|] == c;
    if i :| 0 <= i < |commits| && SyncFailed(commits[i]) {
      assert SyncFailed(more[i]);
    }
  }

  class WriteQueue {
    var writers: seq<Request>
    var lastSequence: nat
    var active: Option<Active>
    /** Set when a sync failed: every later write fails. */
    var backgroundError: bool
    ghost var start: nat
    ghost var arrived: seq<Request>
    ghost var commits: seq<Commit>

    ghost predicate Valid()
      reads this
    {
      && Inv(arrived, commits, writers, start, lastSequence, backgroundError)
      && (active.Some? ==> ActiveOk(writers, active.value) && (backgroundError ==> active.value.ops.None? && !active.value.ok))
    }

    constructor (lastSequence: nat)
      ensures Valid() && arrived == [] && commits == [] && start == lastSequence && this.lastSequence == lastSequence
    {
      writers, this.lastSequence, active, backgroundError := [], lastSequence, None, false;
      start, arrived, commits := lastSequence, [], [];
    }

    /** A thread enters Write and waits at the back of the queue. */
    method Enter(r: Request)
      requires Valid()
      modifies this
      ensures Valid() && arrived == old(arrived) + [r] && commits == old(commits)
    {
      if active.Some? && active.value.ops.Some? {
        assert (writers + [r])[..active.value.size] == writers[..active.value.size];
      }
      writers, arrived := writers + [r], arrived + [r];
      EnterKeepsInv(old(arrived), commits, old(writers), start, lastSequence, backgroundError, r);
    }

    /** The front thread takes the lead; room tells how MakeRoomForWrite ended. */
    method Lead(room: bool)
      requires Valid() && active.None? && writers != []
      modifies `active
      ensures Valid() && active.Some?
      ensures active.value.ok == (room && !backgroundError)
      ensures active.value.ops.Some? <==> active.value.ok && writers[0].batch.Some?
      ensures active.value.ops.Some? ==> IsGroup(writers, active.value.size)
    {
      var ok := room && !backgroundError;
      if ok && writers[0].batch.Some? {
        var k, ops := BuildBatchGroup(writers);
        forall i | 0 < i < k && writers[i].sync
          ensures writers[0].sync
        {
          assert Joins(writers, i);
        }
        active := Some(Active(k, Some(ops), true));
      } else {
        active := Some(Active(1, None, ok));
      }
    }

    /** The leader takes the mutex back, moves the last sequence number on, whether or not the
        write succeeded, and answers its group. */
    method Finish(appended: bool, syncOk: bool)
      requires Valid() && active.Some?
      modifies this
      ensures Valid() && active.None? && arrived == old(arrived)
      ensures |commits| == |old(commits)| + 1 && old(commits) <= commits
      ensures var c, a := commits[|old(commits)|], old(active).value;
        && c.members == old(writers)[..a.size] && writers == old(writers)[a.size..]
        && c.first == old(lastSequence) + 1 && lastSequence == old(lastSequence) + |c.ops|
        && c.wrote == a.ops.Some? && (c.wrote ==> c.ops == a.ops.value && c.appended == appended)
        && c.ok == (if c.wrote then appended && (old(writers)[0].sync ==> syncOk) else a.ok)
    {
      hide Inv, AllOps;
      var a := active.value;
      var leader := writers[0];
      var status := a.ok;
      ghost var c;
      if a.ops.Some? {
        status := appended;
        var synced := false;
        if status && leader.sync {
          status := syncOk;
          synced := syncOk;
          if !syncOk {
            backgroundError := true;
          }
        }
        c := Commit(writers[..a.size], lastSequence + 1, a.ops.value, true, appended, synced, status);
        lastSequence := lastSequence + |a.ops.value|;
      } else {
        c := Commit(writers[..a.size], lastSequence + 1, [], false, false, false, status);
      }
      CommitKeepsInv(arrived, commits, writers, start, old(lastSequence), old(backgroundError), c, a.size);
      commits := commits + [c];
      writers := writers[a.size..];
      active := None;
    }
  }

  ghost predicate SyncFailed(c: Commit) {
    c.appended && c.members != [] && c.members[0].sync && !c.synced
  }

  ghost predicate ActiveOk(writers: seq<Request>, a: Active) {
    && 0 < a.size <= |writers|
    && if a.ops.Some? then
         a.ok && writers[0].batch.Some? && a.ops.value == AllOps(writers[..a.size])
         && forall i | 0 < i < a.size && writers[i].sync :: writers[0].sync
       else a.size == 1
  }

  // ----- What holds of every run of the queue -----

  /** The requests answered so far are the first that arrived, in order, each in one commit. */
  lemma AnsweredInOrder(q: WriteQueue)
    requires q.Valid()
    ensures Members(q.commits) == q.arrived[..|Members(q.commits)|] && q.writers == q.arrived[|Members(q.commits)|..]
  {
  }

  /** Operation k of request i got the number of the commit's first operation, plus those of the
      requests before it, plus k. */
  ghost predicate NumberedAt(c: Commit, i: nat)
    requires i < |c.members|
  {
    c.members[i].batch.Some? ==>
      var b, at := c.members[i].batch.value, OpsBefore(c.members, i);
      at + |b| <= |c.ops| &&
      forall k | 0 <= k < |b| :: Numbered(c.ops, c.first)[at + k] == MemEntry(c.first + at + k, b[k])
  }

  lemma HeldIsNumbered(c: Commit, i: nat)
    requires i < |c.members| && HoldsAt(c.members, c.ops, i)
    ensures NumberedAt(c, i)
  {
    hide OpsBefore;
    if c.members[i].batch.Some? {
      var b, at := c.members[i].batch.value, OpsBefore(c.members, i);
      forall k | 0 <= k < |b| ensures Numbered(c.ops, c.first)[at + k] == MemEntry(c.first + at + k, b[k]) {
        assert c.ops[at..at + |b|][k] == b[k];
      }
    }
  }

  lemma WrittenIsAll(q: WriteQueue, c: Commit)
    requires q.Valid() && c in q.commits && c.wrote
    ensures c.ops == AllOps(c.members)
  {
    assert CommitOk(c);
    hide AllOps, Ranges, Members;
  }

  /** What a commit wrote holds every batch it answered, under consecutive numbers. */
  lemma CommitsHoldEach(q: WriteQueue, c: Commit)
    requires q.Valid() && c in q.commits && c.wrote
    ensures HoldsEach(c.members, c.ops)
    ensures forall i | 0 <= i < |c.members| :: NumberedAt(c, i)
  {
    WrittenIsAll(q, c);
    AllOpsHoldsEach(c.members);
    hide AllOps, OpsBefore, NumberedAt, Inv, ActiveOk;
    forall i | 0 <= i < |c.members| ensures NumberedAt(c, i) {
      HeldIsNumbered(c, i);
    }
  }

  /** Sequence numbers of different commits never overlap, even after failed writes. */
  lemma {:induction false} RangesApart(cs: seq<Commit>, before: nat, last: nat, i: nat, j: nat)
    requires Ranges(cs, before, last) && i < j < |cs|
    ensures before < cs[i].first && cs[i].first + |cs[i].ops| <= cs[j].first && cs[j].first + |cs[j].ops| <= last + 1
    decreases |cs|
  {
    FirstAbove(cs[1..], before + |cs[0].ops|, last, j - 1);
    if i > 0 {
      RangesApart(cs[1..], before + |cs[0].ops|, last, i - 1, j - 1);
    }
  }

  lemma {:induction false} FirstAbove(cs: seq<Commit>, before: nat, last: nat, i: nat)
    requires Ranges(cs, before, last) && i < |cs|
    ensures before < cs[i].first && cs[i].first + |cs[i].ops| <= last + 1
    decreases |cs|
  {
    RangesReach(cs[1..], before + |cs[0].ops|, last);
    if i > 0 {
      FirstAbove(cs[1..], before + |cs[0].ops|, last, i - 1);
    }
  }

  lemma {:induction false} RangesReach(cs: seq<Commit>, before: nat, last: nat)
    requires Ranges(cs, before, last)
    ensures before <= last
    decreases |cs|
  {
    if cs != [] {
      RangesReach(cs[1..], before + |cs[0].ops|, last);
    }
  }

  /** The groups whose record reached the log. */
  function Logged(cs: seq<Commit>): seq<Recovery.Group>
    decreases |cs|
  {
    if cs == [] then []
    else (if cs[0].appended then [Recovery.Group(cs[0].first, cs[0].ops)] else []) + Logged(cs[1..])
  }

  /** They are in the order crash recovery relies on. */
  lemma {:induction false} LoggedInOrder(cs: seq<Commit>, before: nat, last: nat)
    requires Ranges(cs, before, last)
    ensures Recovery.InOrder(Logged(cs), before + 1)
    decreases |cs|
  {
    if cs != [] {
      LoggedInOrder(cs[1..], before + |cs[0].ops|, last);
      if cs[0].appended {
        assert Logged(cs)[1..] == Logged(cs[1..]);
      } else {
        WeakerStart(Logged(cs[1..]), before + |cs[0].ops| + 1, before + 1);
        assert Logged(cs) == Logged(cs[1..]);
      }
    }
  }

  lemma WeakerStart(gs: seq<Recovery.Group>, a: int, b: int)
    requires Recovery.InOrder(gs, a) && b <= a
    ensures Recovery.InOrder(gs, b)
  {
  }
}
