/** Reads over whole runs: the store answers as if nothing had ever been discarded. */
module StoreReads {
  import opened Basics
  import opened DbFormat
  import opened MultiVersion
  import opened VersionFiles
  import opened VersionRead
  import opened CompactionMeaning
  import opened CompactionSetup
  import opened Install
  import opened Store
  import opened StoreInvariant

  ghost function Read(s: State, u: UserKey, q: nat): Answer {
    Newest(s.All(), u, q).Answer()
  }

  /** A sequence number someone may read at: a live snapshot, or the latest. */
  ghost predicate Live(s: State, q: nat) {
    q in s.snapshots || q == s.lastSequence
  }

  ghost predicate NoneResurrected(rest: set<Entry>, input: set<Entry>, smallest: nat, base: iset<UserKey>) {
    forall u :: !Resurrects(rest, input, smallest, base, u)
  }

  ghost predicate AllReadsSame(before: set<Entry>, after: set<Entry>, smallest: nat) {
    forall u :: SameReads(before, after, smallest, u)
  }

  /** Installing a compaction brings no deleted key back. */
  ghost predicate NoResurrection(s: State, j: Job) {
    NoneResurrected(s.All() - j.Inputs(), j.Inputs(), j.smallest, j.Base())
  }

  ghost predicate SafeStep(s: State, op: Op) {
    op.DoFinish? && s.job.Some? ==> NoResurrection(s, s.job.value)
  }

  lemma InvDistinct(s: State)
    requires Inv(s)
    ensures Distinct(s.All())
  {
    ReadByLayers(s, 0, 0);
  }

  lemma ReplacingReads(all: set<Entry>, input: set<Entry>, smallest: nat, base: iset<UserKey>, after: set<Entry>)
    requires Distinct(all) && input <= all && after == (all - input) + Kept(input, smallest, base)
    ensures AllReadsSame(all, after, smallest) <==> NoneResurrected(all - input, input, smallest, base)
  {
    assert (all - input) + input == all;
    forall u
      ensures SameReads(all, after, smallest, u) <==> !Resurrects(all - input, input, smallest, base, u)
    {
      CompactionPreservesReads(all - input, input, smallest, base, u);
    }
  }

  /** Installing a compaction leaves every read at or above its smallest snapshot as it was,
      if and only if no key is resurrected. */
  lemma FinishKeepsReads(s: State, j: Job, outs: seq<File>, s': State)
    requires Inv(s) && FinishCompaction(s, outs, s') && s.job == Some(j)
    ensures AllReadsSame(s.All(), s'.All(), j.smallest) <==> NoResurrection(s, j)
  {
    FinishKeepsInv(s, outs, s');
    InvDistinct(s);
    ReplacingReads(s.All(), j.Inputs(), j.smallest, j.Base(), s'.All());
  }

  /** No step changes what is read at a sequence number that is live before it. */
  lemma StepKeepsReads(s: State, op: Op, s': State, u: UserKey, q: nat)
    requires Inv(s) && Step(s, op, s') && SafeStep(s, op) && Live(s, q)
    ensures Read(s', u, q) == Read(s, u, q)
  {
    hide Inv;
    match op {
      case DoWrite(batch) => WriteKeepsReads(s, batch, s', u, q);
      case DoRotate => RotateKeepsInv(s, s');
      case DoFlush(level, size) => FlushKeepsInv(s, level, size, s');
      case DoMove(level, f) => MoveKeepsInv(s, level, f, s');
      case DoStart(level, in0, in1) => StartKeepsInv(s, level, in0, in1, s');
      case DoFinish(outs) => FinishKeepsLiveReads(s, outs, s', u, q);
      case DoAbort => AbortKeepsInv(s, s');
      case DoSnapshot => SnapshotKeepsInv(s, s');
      case DoRelease(i) => ReleaseKeepsInv(s, i, s');
    }
  }

  lemma WriteKeepsReads(s: State, batch: seq<Update>, s': State, u: UserKey, q: nat)
    requires Inv(s) && Write(s, batch, s') && Live(s, q)
    ensures Read(s', u, q) == Read(s, u, q)
  {
    hide Layered, Sound, NumbersUnique, JobOk, Write, Bounded;
    var added := WriteKeepsInv(s, batch, s');
    InvDistinct(s');
    NewestIgnoresLater(s.All(), added, u, q);
  }

  lemma FinishKeepsLiveReads(s: State, outs: seq<File>, s': State, u: UserKey, q: nat)
    requires Inv(s) && FinishCompaction(s, outs, s') && NoResurrection(s, s.job.value) && Live(s, q)
    ensures Read(s', u, q) == Read(s, u, q)
  {
    hide Layered, Sound, NumbersUnique, NoResurrection, Selected, AllAside, BaseHolds;
    FinishKeepsReads(s, s.job.value, outs, s');
    assert SameReads(s.All(), s'.All(), s.job.value.smallest, u);
  }

  ghost function Written(s: State, op: Op): set<Entry> {
    if op.DoWrite? then EntrySet(BatchEntries(op.batch, s.lastSequence + 1)) else {}
  }

  // ----- Runs -----

  ghost predicate Run(states: seq<State>, ops: seq<Op>) {
    && |states| == |ops| + 1
    && Init(states[0])
    && forall i {:trigger ops[i]} | 0 <= i < |ops| :: Step(states[i], ops[i], states[i + 1])
  }

  lemma {:induction false} RunInv(states: seq<State>, ops: seq<Op>, n: nat)
    requires Run(states, ops) && n <= |ops|
    ensures Inv(states[n])
  {
    if n == 0 {
      InitInv(states[0]);
    } else {
      RunInv(states, ops, n - 1);
      StepKeepsInv(states[n - 1], ops[n - 1], states[n]);
    }
  }

  ghost predicate Reachable(s: State) {
    exists states, ops :: Run(states, ops) && states[|ops|] == s
  }

  lemma ReachableInit(s: State)
    requires Init(s)
    ensures Reachable(s)
  {
    var ops: seq<Op> := [];
    assert Run([s], ops) && [s][|ops|] == s;
  }

  lemma RunExtends(states: seq<State>, ops: seq<Op>, op: Op, s': State)
    requires Run(states, ops) && Step(states[|ops|], op, s')
    ensures Run(states + [s'], ops + [op])
  {
    hide Step, Init;
    var more, done := states + [s'], ops + [op];
    assert more[0] == states[0];
    forall i {:trigger done[i]} | 0 <= i < |done|
      ensures Step(more[i], done[i], more[i + 1])
    {
      if i < |ops| {
        assert done[i] == ops[i] && more[i] == states[i] && more[i + 1] == states[i + 1];
      }
    }
  }

  lemma ReachableStep(s: State, op: Op, s': State)
    requires Reachable(s) && Step(s, op, s')
    ensures Reachable(s')
  {
    var states, ops :| Run(states, ops) && states[|ops|] == s;
    RunExtends(states, ops, op, s');
    assert (states + [s'])[|ops + [op]|] == s';
  }

  lemma ReachableInv(s: State)
    requires Reachable(s)
    ensures Inv(s)
  {
    var states, ops :| Run(states, ops) && states[|ops|] == s;
    RunInv(states, ops, |ops|);
  }

  lemma RunStepKeepsReads(states: seq<State>, ops: seq<Op>, k: nat, u: UserKey, q: nat)
    requires Run(states, ops) && k < |ops| && Live(states[k], q) && SafeStep(states[k], ops[k])
    ensures Read(states[k + 1], u, q) == Read(states[k], u, q)
  {
    RunInv(states, ops, k);
    StepKeepsReads(states[k], ops[k], states[k + 1], u, q);
  }

  lemma {:induction false} ChainOfReads(states: seq<State>, i: nat, n: nat, u: UserKey, q: nat)
    requires i <= n < |states|
    requires forall k {:trigger states[k]} | i <= k < n :: Read(states[k + 1], u, q) == Read(states[k], u, q)
    ensures Read(states[n], u, q) == Read(states[i], u, q)
    decreases n
  {
    if i < n {
      ChainOfReads(states, i, n - 1, u, q);
      assert Read(states[n - 1 + 1], u, q) == Read(states[n - 1], u, q);
    }
  }

  /** Reads at a snapshot are stable across any steps whose installs resurrect no key. */
  lemma SnapshotStableIfSafe(states: seq<State>, ops: seq<Op>, i: nat, n: nat, u: UserKey, q: nat)
    requires Run(states, ops) && i <= n <= |ops|
    requires Live(states[i], q) && forall k | i < k < n :: q in states[k].snapshots
    requires forall k | i <= k < n :: SafeStep(states[k], ops[k])
    ensures Read(states[n], u, q) == Read(states[i], u, q)
  {
    hide Step, Init, Read, Live, SafeStep;
    forall k | i <= k < n
      ensures Read(states[k + 1], u, q) == Read(states[k], u, q)
    {
      RunStepKeepsReads(states, ops, k, u, q);
    }
    ChainOfReads(states, i, n, u, q);
  }

  /** Every entry ever written in the first n steps. */
  ghost function History(states: seq<State>, ops: seq<Op>, n: nat): set<Entry>
    requires |states| == |ops| + 1 && n <= |ops|
  {
    if n == 0 then {}
    else
      History(states, ops, n - 1) + Written(states[n - 1], ops[n - 1])
  }

  ghost predicate Faithful(s: State, h: set<Entry>) {
    && Distinct(h) && Bounded(h, s.lastSequence)
    && forall u, q | Live(s, q) :: Read(s, u, q) == Newest(h, u, q).Answer()
  }

  /** A batch on top of two maps that answer alike leaves them answering alike. */
  lemma SameOnTop(a: set<Entry>, b: set<Entry>, added: set<Entry>, top: nat, u: UserKey, q: nat)
    requires Distinct(a) && Distinct(b) && Distinct(added) && Bounded(a, top) && Bounded(b, top) && top <= q
    requires forall e | e in added :: e.ik.sequence > top
    requires Newest(a, u, top).Answer() == Newest(b, u, top).Answer()
    ensures Distinct(b + added)
    ensures Newest(a + added, u, q).Answer() == Newest(b + added, u, q).Answer()
  {
    OnTop(a, added, top, u, q);
    OnTop(b, added, top, u, q);
  }

  lemma OnTop(a: set<Entry>, added: set<Entry>, top: nat, u: UserKey, q: nat)
    requires Distinct(a) && Distinct(added) && Bounded(a, top) && top <= q
    requires forall e | e in added :: e.ik.sequence > top
    ensures Distinct(a + added)
    ensures Newest(a + added, u, q) == Newest(added, u, q).Or(Newest(a, u, top))
  {
    NewestOfLayers(added, a, u, q);
    assert added + a == a + added;
    NewestAtTop(a, u, top, q);
  }

  lemma NewestAtTop(a: set<Entry>, u: UserKey, top: nat, q: nat)
    requires Distinct(a) && Bounded(a, top) && top <= q
    ensures Newest(a, u, q) == Newest(a, u, top)
  {
    if e :| e in a && VisibleAt(e, u, top) {
      var n := NewestExists(a, u, top, e);
      NewestIs(a, u, top, n);
      assert IsNewest(a, u, q, n);
      NewestIs(a, u, q, n);
    } else {
      NewestMissing(a, u, top);
      NewestMissing(a, u, q);
    }
  }

  lemma WriteStaysFaithful(s: State, batch: seq<Update>, s': State, h: set<Entry>)
    requires Inv(s) && Write(s, batch, s') && Faithful(s, h)
    ensures Faithful(s', h + Written(s, DoWrite(batch)))
  {
    hide Faithful, Layered, Sound, NumbersUnique, AddAll, BatchEntries, JobOk;
    var added := WriteKeepsInv(s, batch, s');
    InvDistinct(s);
    InvDistinct(s');
    assert added == Written(s, DoWrite(batch));
    OnTopStaysFaithful(s, s', h, Written(s, DoWrite(batch)));
  }

  lemma OnTopStaysFaithful(s: State, s': State, h: set<Entry>, added: set<Entry>)
    requires Faithful(s, h) && Distinct(s.All()) && Distinct(s'.All()) && Bounded(s.All(), s.lastSequence)
    requires s'.All() == s.All() + added && s.lastSequence <= s'.lastSequence && s'.snapshots == s.snapshots
    requires forall e | e in added :: s.lastSequence < e.ik.sequence <= s'.lastSequence
    requires forall q | q in s.snapshots :: q <= s.lastSequence
    ensures Faithful(s', h + added)
  {
    forall u, q | Live(s', q)
      ensures Distinct(h + added) && Read(s', u, q) == Newest(h + added, u, q).Answer()
    {
      assert Live(s, s.lastSequence);
      SameOnTop(s.All(), h, added, s.lastSequence, u, s'.lastSequence);
      if q != s'.lastSequence {
        assert Live(s, q);
        NewestIgnoresLater(s.All(), added, u, q);
        NewestIgnoresLater(h, added, u, q);
      }
    }
    assert Live(s', s'.lastSequence);
    assert Read(s', 0, s'.lastSequence) == Newest(h + added, 0, s'.lastSequence).Answer();
  }

  lemma OtherStaysFaithful(s: State, op: Op, s': State, h: set<Entry>)
    requires Inv(s) && Step(s, op, s') && SafeStep(s, op) && Faithful(s, h) && !op.DoWrite?
    ensures Faithful(s', h + Written(s, op))
  {
    assert h + Written(s, op) == h;
    forall u, q | Live(s', q)
      ensures Read(s', u, q) == Newest(h, u, q).Answer()
    {
      assert Live(s, q);
      StepKeepsReads(s, op, s', u, q);
    }
  }

  lemma InitFaithful(s: State)
    requires Init(s)
    ensures Faithful(s, {})
  {
    assert forall l | 0 <= l < NUM_LEVELS :: s.version[l] == [];
    assert s.All() == {};
  }

  lemma StepStaysFaithful(s: State, op: Op, s': State, h: set<Entry>)
    requires Inv(s) && Step(s, op, s') && SafeStep(s, op) && Faithful(s, h)
    ensures Faithful(s', h + Written(s, op))
  {
    if op.DoWrite? {
      WriteStaysFaithful(s, op.batch, s', h);
    } else {
      OtherStaysFaithful(s, op, s', h);
    }
  }

  lemma RunStep(states: seq<State>, ops: seq<Op>, k: nat)
    requires Run(states, ops) && k < |ops|
    ensures Inv(states[k]) && Step(states[k], ops[k], states[k + 1])
  {
    RunInv(states, ops, k);
  }

  lemma RunStepFaithful(states: seq<State>, ops: seq<Op>, k: nat, h: set<Entry>)
    requires Run(states, ops) && k < |ops| && SafeStep(states[k], ops[k]) && Faithful(states[k], h)
    ensures Faithful(states[k + 1], h + Written(states[k], ops[k]))
  {
    RunStep(states, ops, k);
    StepStaysFaithful(states[k], ops[k], states[k + 1], h);
  }

  ghost predicate FaithfulAt(states: seq<State>, ops: seq<Op>, k: nat)
    requires |states| == |ops| + 1 && k <= |ops|
  {
    Faithful(states[k], History(states, ops, k))
  }

  lemma {:induction false} ChainOfFaith(states: seq<State>, ops: seq<Op>, n: nat)
    requires |states| == |ops| + 1 && n <= |ops| && FaithfulAt(states, ops, 0)
    requires forall k | 0 <= k < n && FaithfulAt(states, ops, k) :: FaithfulAt(states, ops, k + 1)
    ensures FaithfulAt(states, ops, n)
  {
    if n > 0 {
      ChainOfFaith(states, ops, n - 1);
    }
  }

  /** Runs whose installs resurrect no key answer like the flat history. */
  lemma RefinesHistoryIfSafe(states: seq<State>, ops: seq<Op>, n: nat)
    requires Run(states, ops) && n <= |ops|
    requires forall k | 0 <= k < n :: SafeStep(states[k], ops[k])
    ensures Faithful(states[n], History(states, ops, n))
  {
    InitFaithful(states[0]);
    forall k | 0 <= k < n && FaithfulAt(states, ops, k)
      ensures FaithfulAt(states, ops, k + 1)
    {
      RunStepFaithful(states, ops, k, History(states, ops, k));
    }
    ChainOfFaith(states, ops, n);
  }

  /** No file that stays at the output level holds a user key of the inputs. */
  ghost predicate UserKeysClosed(v: Version, j: Job) {
    forall g, x, i | j.level + 1 < NUM_LEVELS && g in v[j.level + 1] && g !in j.in1 && x in g.Content() && i in j.Inputs() ::
      x.ik.user != i.ik.user
  }

  /** With the output level closed under user keys as well, a compaction is always safe. */
  lemma ClosedIsSafe(s: State, j: Job)
    requires Inv(s) && s.job == Some(j) && UserKeysClosed(s.version, j)
    ensures NoResurrection(s, j)
  {
    InstallContent(s.version, j.level, j.in0, j.in1, []);
    InvDistinct(s);
    var rest := s.All() - j.Inputs();
    assert rest + j.Inputs() == s.All();
    forall u
      ensures !Resurrects(rest, j.Inputs(), j.smallest, j.Base(), u)
    {
      forall r, i | r in rest && i in j.Inputs() && r.ik.user == i.ik.user == u && u in j.Base()
        ensures r.ik.sequence > i.ik.sequence
      {
        RestIsNewer(s, j, r, i);
      }
      ClosedInputsNeverResurrect(rest, j.Inputs(), j.smallest, j.Base(), u);
    }
  }

  lemma RestIsNewer(s: State, j: Job, r: Entry, i: Entry)
    requires Layered(s) && Sound(s.version) && JobOk(s, j) && UserKeysClosed(s.version, j)
    requires r in s.All() - j.Inputs() && i in j.Inputs() && r.ik.user == i.ik.user && r.ik.user in j.Base()
    ensures r.ik.sequence > i.ik.sequence
  {
    InputsHeld(s.version, j.level, j.in0, j.in1, i);
    if r in Content(s.version) {
      VersionHas(s.version, r);
      var l, g :| 0 <= l < NUM_LEVELS && g in s.version[l] && r in g.Content();
      InputFile(j, i);
      var f :| (f in j.in0 || f in j.in1) && i in f.Content();
      StayedFileIsNewer(s.version, j, l, g, r, f, i);
    }
  }

  lemma StayedFileIsNewer(v: Version, j: Job, l: nat, g: File, r: Entry, f: File, i: Entry)
    requires Sound(v) && Selected(v, j.level, j.in0, j.in1) && BaseHolds(v, j) && UserKeysClosed(v, j)
    requires l < NUM_LEVELS && g in v[l] && r in g.Content() && r !in j.Inputs()
    requires (f in j.in0 || f in j.in1) && i in f.Content() && i in j.Inputs()
    requires r.ik.user == i.ik.user && r.ik.user in j.Base()
    ensures r.ik.sequence > i.ik.sequence
  {
    StayedEntry(v, j.level, j.in0, j.in1, l, g, r);
    if l < j.level {
      assert NewerFile(g, f);
    } else if l == j.level {
      if f !in j.in0 {
        assert NewerFile(g, f);
      }
    }
  }

  // ----- Runs of closed compactions -----

  /** A compaction starts with every file of the output level that shares a user key with its
      inputs among them. The boundary files are completed like this at the upper level only. */
  ghost predicate ClosedStart(s: State, op: Op) {
    op.DoStart? ==> UserKeysClosed(s.version, Job(op.level, op.in0, op.in1, s.version, s.SmallestSnapshot()))
  }

  ghost predicate JobClosed(s: State) {
    s.job.Some? ==> UserKeysClosed(s.version, s.job.value)
  }

  /** A table flushed while the compaction runs shares no user key with its inputs. */
  lemma FlushKeepsClosed(v: Version, w: Version, level: nat, f: File, j: Job)
    requires Selected(v, j.level, j.in0, j.in1) && UserKeysClosed(v, j)
    requires level < NUM_LEVELS && FlushFits(v, level, f) && Flushed(v, w, level, f)
    ensures UserKeysClosed(w, j)
  {
    forall g, x, i | g in w[j.level + 1] && g !in j.in1 && x in g.Content() && i in j.Inputs()
      ensures x.ik.user != i.ik.user
    {
      if g !in v[j.level + 1] {
        FlushedKeyIsNew(v, level, f, j, i, x);
      }
      hide FlushFits, Selected;
    }
  }

  lemma FlushedKeyIsNew(v: Version, level: nat, f: File, j: Job, i: Entry, x: Entry)
    requires Selected(v, j.level, j.in0, j.in1) && FlushFits(v, level, f)
    requires j.level + 1 == level < NUM_LEVELS && x in f.Content() && i in j.Inputs()
    ensures x.ik.user != i.ik.user
  {
    hide Selected, FlushFits;
    InputApart(v, level, f, j, i, x);
  }

  lemma StepKeepsClosed(s: State, op: Op, s': State)
    requires Inv(s) && Step(s, op, s') && JobClosed(s) && ClosedStart(s, op)
    ensures JobClosed(s')
  {
    hide Inv, UserKeysClosed, Apart;
    match op {
      case DoFlush(level, size) => FlushStepKeepsClosed(s, level, size, s');
      case _ =>
    }
  }

  lemma FlushStepKeepsClosed(s: State, level: nat, size: nat, s': State)
    requires Inv(s) && Flush(s, level, size, s') && JobClosed(s)
    ensures JobClosed(s')
  {
    hide UserKeysClosed;
    if s.imm.value != [] && s.job.Some? {
      var f: File := FileData(s.nextFile, size, s.imm.value);
      FlushFitsImm(s, level, f);
      FlushIsFlushed(s.version, level, f);
      hide FlushInto, FlushFits, Selected, Flushed, Apart;
      FlushKeepsClosed(s.version, s'.version, level, f, s.job.value);
    }
  }

  ghost predicate ClosedRun(states: seq<State>, ops: seq<Op>, n: nat)
    requires n <= |ops| <= |states|
  {
    forall k | 0 <= k < n :: ClosedStart(states[k], ops[k])
  }

  lemma {:induction false} RunKeepsClosed(states: seq<State>, ops: seq<Op>, n: nat)
    requires Run(states, ops) && n <= |ops| && ClosedRun(states, ops, n)
    ensures JobClosed(states[n])
  {
    hide Step, JobClosed, ClosedStart, Init;
    if n > 0 {
      RunKeepsClosed(states, ops, n - 1);
      RunStep(states, ops, n - 1);
      StepKeepsClosed(states[n - 1], ops[n - 1], states[n]);
    } else {
      NoJobAtStart(states[0]);
    }
  }

  lemma NoJobAtStart(s: State)
    requires Init(s)
    ensures JobClosed(s)
  {
  }

  lemma ClosedRunIsSafe(states: seq<State>, ops: seq<Op>, n: nat, k: nat)
    requires Run(states, ops) && n <= |ops| && ClosedRun(states, ops, n) && k < n
    ensures SafeStep(states[k], ops[k])
  {
    hide Step, Init, NoResurrection, UserKeysClosed, ClosedStart;
    RunInv(states, ops, k);
    RunKeepsClosed(states, ops, k);
    if states[k].job.Some? {
      ClosedIsSafe(states[k], states[k].job.value);
    }
  }

  /** From GetSnapshot until its release, a read at the snapshot never changes its answer,
      whatever writes, flushes, moves, compactions and snapshots happen in between. */
  lemma SnapshotStable(states: seq<State>, ops: seq<Op>, i: nat, n: nat, u: UserKey, q: nat)
    requires Run(states, ops) && i <= n <= |ops|
    requires Live(states[i], q) && forall k | i < k < n :: q in states[k].snapshots
    requires ClosedRun(states, ops, n)
    ensures Read(states[n], u, q) == Read(states[i], u, q)
  {
    forall k | i <= k < n ensures SafeStep(states[k], ops[k]) {
      ClosedRunIsSafe(states, ops, n, k);
    }
    SnapshotStableIfSafe(states, ops, i, n, u, q);
  }

  /** The main theorem: along every run, each read at a live sequence number finds the newest
      entry at or below it among all entries ever written. */
  lemma StoreRefinesHistory(states: seq<State>, ops: seq<Op>, n: nat)
    requires Run(states, ops) && n <= |ops| && ClosedRun(states, ops, n)
    ensures Faithful(states[n], History(states, ops, n))
  {
    forall k | 0 <= k < n ensures SafeStep(states[k], ops[k]) {
      ClosedRunIsSafe(states, ops, n, k);
    }
    RefinesHistoryIfSafe(states, ops, n);
  }
}
