/** Which files may be deleted: tables of live versions, tables being written and logs still
    needed for recovery never are. */
module Collection {
  import opened Basics

  /** A version the manifest may recover to: its tables, the first log to replay, and the logs
      whose data its tables hold. */
  datatype Recoverable = Recoverable(tables: set<nat>, logNumber: nat, flushed: set<nat>)

  /** The background thread, part one: a memtable being written out. */
  datatype Flush = NoFlush | Building(table: nat) | Built(table: nat, kept: bool)

  /** Part two: a compaction, whose inputs stay pinned until it is cleaned up. */
  datatype Compaction = NoCompaction | Working(outputs: set<nat>, inputVersion: set<nat>) | Cleaning(outputs: set<nat>, inputVersion: set<nat>)

  datatype State = State(tables: set<nat>, logs: set<nat>,
                         current: set<nat>, logNumber: nat, flushed: set<nat>,
                         pinned: seq<set<nat>>, durable: set<Recoverable>, pending: set<nat>, next: nat,
                         memLog: nat, immLog: Option<nat>, failed: bool, flush: Flush, compaction: Compaction) {
    function Version(): Recoverable {
      Recoverable(current, logNumber, flushed)
    }

    /** Files of every version someone holds. */
    ghost function Live(): set<nat> {
      current + (if compaction.NoCompaction? then {} else compaction.inputVersion) + (set v, t | v in pinned && t in v :: t)
    }

    /** The logs created so far. */
    ghost function AllLogs(): set<nat> {
      flushed + {memLog} + if immLog.Some? then {immLog.value} else {}
    }

    function BeingWritten(): set<nat> {
      (if flush.NoFlush? then {} else if flush.Building? || flush.kept then {flush.table} else {})
      + if compaction.NoCompaction? then {} else compaction.outputs
    }
  }

  datatype Event =
    | Rotate
    | StartFlush
    | FinishTable(kept: bool)
    | InstallFlush
    | FailFlush
    | StartCompaction
    | OpenOutput
    | InstallCompaction(removed: set<nat>)
    | FailCompaction(removed: set<nat>)
    | MoveFile
    | Cleanup
    | Pin
    | Unpin(i: nat)
    | Collect

  ghost predicate Enabled(s: State, e: Event) {
    match e
    case Rotate => s.immLog.None? && !s.failed
    case StartFlush => s.immLog.Some? && s.flush.NoFlush? && !s.compaction.Cleaning? && (s.failed ==> s.compaction.Working?)
    case FinishTable(_) => s.flush.Building?
    case InstallFlush => s.flush.Built?
    case FailFlush => !s.flush.NoFlush?
    case StartCompaction => !s.failed && s.flush.NoFlush? && s.compaction.NoCompaction?
    case OpenOutput => s.flush.NoFlush? && s.compaction.Working?
    case InstallCompaction(removed) => s.flush.NoFlush? && s.compaction.Working? && removed <= s.compaction.inputVersion
    case FailCompaction(removed) => s.flush.NoFlush? && s.compaction.Working? && removed <= s.compaction.inputVersion
    case MoveFile => !s.failed && s.flush.NoFlush? && s.compaction.NoCompaction?
    case Cleanup => s.flush.NoFlush? && s.compaction.Cleaning?
    case Pin => true
    case Unpin(i) => i < |s.pinned|
    case Collect => s.flush.NoFlush?
  }

  /** What a flush record in the manifest makes of a version. */
  function FlushRecord(s: State, v: Recoverable): Recoverable
    requires s.flush.Built? && s.immLog.Some?
  {
    Recoverable(if s.flush.kept then v.tables + {s.flush.table} else v.tables, s.memLog, v.flushed + {s.immLog.value})
  }

  /** What a compaction record makes of it; the record repeats the current log number. */
  function CompactionRecord(s: State, v: Recoverable, removed: set<nat>): Recoverable
    requires s.compaction.Working?
  {
    Recoverable((v.tables - removed) + s.compaction.outputs, s.logNumber, v.flushed)
  }

  function FlushRecords(s: State): set<Recoverable>
    requires s.flush.Built? && s.immLog.Some?
  {
    set v | v in s.durable :: FlushRecord(s, v)
  }

  function CompactionRecords(s: State, removed: set<nat>): set<Recoverable>
    requires s.compaction.Working?
  {
    set v | v in s.durable :: CompactionRecord(s, v, removed)
  }

  ghost function Next(s: State, e: Event): State
    requires Enabled(s, e) && (s.flush.Built? ==> s.immLog.Some?)
  {
    match e
    case Rotate =>
      s.(memLog := s.next, immLog := Some(s.memLog), logs := s.logs + {s.next}, next := s.next + 1)
    case StartFlush =>
      s.(flush := Building(s.next), pending := s.pending + {s.next}, tables := s.tables + {s.next}, next := s.next + 1)
    case FinishTable(kept) =>
      s.(flush := Built(s.flush.table, kept), pending := s.pending - {s.flush.table},
         tables := if kept then s.tables else s.tables - {s.flush.table})
    case InstallFlush =>
      var v := FlushRecord(s, s.Version());
      s.(current := v.tables, logNumber := v.logNumber, flushed := v.flushed, durable := FlushRecords(s), immLog := None, flush := NoFlush)
    case FailFlush =>
      s.(failed := true, flush := NoFlush, pending := s.pending - {s.flush.table},
         durable := s.durable + if s.flush.Built? then FlushRecords(s) else {})
    case StartCompaction =>
      s.(compaction := Working({}, s.current))
    case OpenOutput =>
      s.(compaction := Working(s.compaction.outputs + {s.next}, s.compaction.inputVersion), pending := s.pending + {s.next},
         tables := s.tables + {s.next}, next := s.next + 1)
    case InstallCompaction(removed) =>
      s.(current := CompactionRecord(s, s.Version(), removed).tables, durable := CompactionRecords(s, removed),
         compaction := Cleaning(s.compaction.outputs, s.compaction.inputVersion))
    case FailCompaction(removed) =>
      s.(failed := true, durable := s.durable + CompactionRecords(s, removed),
         compaction := Cleaning(s.compaction.outputs, s.compaction.inputVersion))
    case MoveFile => s
    case Cleanup =>
      s.(pending := s.pending - s.compaction.outputs, compaction := NoCompaction)
    case Pin => s.(pinned := s.pinned + [s.current])
    case Unpin(i) => s.(pinned := s.pinned[..i] + s.pinned[i + 1..])
    case Collect =>
      if s.failed then s
      else s.(tables := s.tables * (s.pending + s.Live()), logs := set l | l in s.logs && l >= s.logNumber)
  }

  // ----- What every step keeps -----

  /** The version can be recovered: its tables are there, and every log whose data they do not
      hold is there and will be replayed. */
  ghost predicate Recovers(s: State, v: Recoverable) {
    && v.tables <= s.tables
    && forall l | l in s.AllLogs() :: l in v.flushed || (l in s.logs && l >= v.logNumber)
  }

  ghost predicate DurableOk(s: State) {
    && (forall v | v in s.durable :: Recovers(s, v) && s.logNumber <= v.logNumber <= s.memLog && s.flushed <= v.flushed)
    && (!s.failed ==> s.durable == {s.Version()})
  }

  ghost predicate LogsOk(s: State) {
    && (forall l | l in s.AllLogs() :: l < s.next)
    && s.logNumber <= s.memLog && s.memLog in s.logs
    && (s.immLog.Some? ==> s.logNumber <= s.immLog.value < s.memLog && s.immLog.value in s.logs)
    && (!s.flush.NoFlush? ==> s.immLog.Some?)
  }

  /** The table of a running flush is known to nobody else yet. */
  ghost predicate FlushTableNew(s: State) {
    !s.flush.NoFlush? ==>
      && s.flush.table < s.next && s.flush.table !in s.Live()
      && (!s.compaction.NoCompaction? ==> s.flush.table !in s.compaction.outputs)
      && forall v | v in s.durable :: s.flush.table !in v.tables
  }

  ghost predicate TablesOk(s: State) {
    && s.Live() <= s.tables && s.BeingWritten() <= s.tables
    && (forall t | t in s.tables :: t < s.next)
    && s.pending == (if s.flush.Building? then {s.flush.table} else {}) + (if s.compaction.NoCompaction? then {} else s.compaction.outputs)
  }

  ghost predicate Inv(s: State) {
    DurableOk(s) && LogsOk(s) && FlushTableNew(s) && TablesOk(s)
  }

  lemma RotateKeepsInv(s: State)
    requires Inv(s) && Enabled(s, Rotate)
    ensures Inv(Next(s, Rotate))
  {
    var s' := Next(s, Rotate);
    assert s'.AllLogs() == s.AllLogs() + {s.next};
    assert s'.Live() == s.Live();
    assert s.memLog in s.AllLogs();
    forall v | v in s.durable
      ensures Recovers(s', v)
    {
      assert Recovers(s, v);
    }
  }

  lemma PinKeepsInv(s: State, e: Event)
    requires Inv(s) && Enabled(s, e) && (e.Pin? || e.Unpin? || e.MoveFile?)
    ensures Inv(Next(s, e))
  {
    var s' := Next(s, e);
    if e.Unpin? {
      assert forall v | v in s'.pinned :: v in s.pinned;
    }
    assert s'.Live() <= s.Live();
    assert s'.AllLogs() == s.AllLogs();
    assert forall v | v in s.durable :: Recovers(s, v) ==> Recovers(s', v);
  }

  lemma StartFlushKeepsInv(s: State)
    requires Inv(s) && Enabled(s, StartFlush)
    ensures Inv(Next(s, StartFlush))
  {
    var s' := Next(s, StartFlush);
    assert s'.Live() == s.Live() && s'.AllLogs() == s.AllLogs();
    assert forall v | v in s.durable :: Recovers(s, v) && Recovers(s', v);
    if !s.compaction.NoCompaction? {
      assert s.compaction.outputs <= s.BeingWritten();
    }
  }

  lemma FinishTableKeepsInv(s: State, kept: bool)
    requires Inv(s) && Enabled(s, FinishTable(kept))
    ensures Inv(Next(s, FinishTable(kept)))
  {
    var s' := Next(s, FinishTable(kept));
    assert s'.Live() == s.Live() && s'.AllLogs() == s.AllLogs();
    forall v | v in s.durable
      ensures Recovers(s', v)
    {
      assert Recovers(s, v) && s.flush.table !in v.tables;
    }
    if !s.compaction.NoCompaction? {
      assert s.compaction.outputs <= s.BeingWritten();
    }
  }

  lemma InstallFlushKeepsInv(s: State)
    requires Inv(s) && Enabled(s, InstallFlush)
    ensures Inv(Next(s, InstallFlush))
  {
    var s' := Next(s, InstallFlush);
    assert s'.AllLogs() == s.AllLogs();
    assert s'.Live() <= s.Live() + s.BeingWritten();
    forall v | v in s.durable
      ensures var w := FlushRecord(s, v); Recovers(s', w) && s'.logNumber <= w.logNumber <= s'.memLog && s'.flushed <= w.flushed
    {
      assert Recovers(s, v);
    }
    if !s.failed {
      assert FlushRecords(s) == {FlushRecord(s, s.Version())};
    }
  }

  lemma FailFlushKeepsInv(s: State)
    requires Inv(s) && Enabled(s, FailFlush)
    ensures Inv(Next(s, FailFlush))
  {
    var s' := Next(s, FailFlush);
    assert s'.Live() == s.Live() && s'.AllLogs() == s.AllLogs();
    forall v | v in s.durable
      ensures Recovers(s', v)
      ensures s.flush.Built? ==> var w := FlushRecord(s, v); Recovers(s', w) && s'.logNumber <= w.logNumber <= s'.memLog && s'.flushed <= w.flushed
    {
      assert Recovers(s, v);
    }
  }

  lemma OpenOutputKeepsInv(s: State, e: Event)
    requires Inv(s) && Enabled(s, e) && (e.StartCompaction? || e.OpenOutput? || e.Cleanup?)
    ensures Inv(Next(s, e))
  {
    var s' := Next(s, e);
    assert s'.Live() <= s.Live() && s'.AllLogs() == s.AllLogs();
    forall v | v in s.durable
      ensures Recovers(s', v)
    {
      assert Recovers(s, v);
    }
  }

  lemma CompactionKeepsInv(s: State, e: Event)
    requires Inv(s) && Enabled(s, e) && (e.InstallCompaction? || e.FailCompaction?)
    ensures Inv(Next(s, e))
  {
    var s' := Next(s, e);
    assert s'.Live() <= s.Live() + s.BeingWritten() && s'.AllLogs() == s.AllLogs();
    forall v | v in s.durable
      ensures Recovers(s', v)
      ensures var w := CompactionRecord(s, v, e.removed); Recovers(s', w) && s'.logNumber <= w.logNumber <= s'.memLog && s'.flushed <= w.flushed
    {
      assert Recovers(s, v);
    }
    if !s.failed {
      assert CompactionRecords(s, e.removed) == {CompactionRecord(s, s.Version(), e.removed)};
    }
  }

  lemma CollectKeepsInv(s: State)
    requires Inv(s) && Enabled(s, Collect)
    ensures Inv(Next(s, Collect))
  {
    var s' := Next(s, Collect);
    assert s'.Live() == s.Live() && s'.AllLogs() == s.AllLogs();
    forall v | v in s.durable
      ensures Recovers(s', v)
    {
      assert Recovers(s, v);
    }
    assert s.BeingWritten() <= s.pending;
  }

  lemma StepKeepsInv(s: State, e: Event)
    requires Inv(s) && Enabled(s, e)
    ensures (s.flush.Built? ==> s.immLog.Some?) && Inv(Next(s, e))
  {
    hide DurableOk, FlushTableNew, TablesOk, Next, Enabled;
    match e {
      case Rotate => RotateKeepsInv(s);
      case StartFlush => StartFlushKeepsInv(s);
      case FinishTable(kept) => FinishTableKeepsInv(s, kept);
      case InstallFlush => InstallFlushKeepsInv(s);
      case FailFlush => FailFlushKeepsInv(s);
      case InstallCompaction(_) => CompactionKeepsInv(s, e);
      case FailCompaction(_) => CompactionKeepsInv(s, e);
      case StartCompaction => OpenOutputKeepsInv(s, e);
      case OpenOutput => OpenOutputKeepsInv(s, e);
      case Cleanup => OpenOutputKeepsInv(s, e);
      case Collect => CollectKeepsInv(s);
      case _ => PinKeepsInv(s, e);
    }
  }

  /** A database just opened: one version, whose log numbers start at the log being written. */
  lemma OpenedInv(tables: set<nat>, log: nat, next: nat)
    requires log < next && forall t | t in tables :: t < next
    ensures Inv(State(tables, {log}, tables, log, {}, [], {Recoverable(tables, log, {})}, {}, next, log, None, false, NoFlush, NoCompaction))
  {
  }

  // ----- Every run -----

  ghost predicate Run(states: seq<State>, events: seq<Event>) {
    && |states| == |events| + 1 && Inv(states[0])
    && forall i {:trigger events[i]} | 0 <= i < |events| ::
         Enabled(states[i], events[i]) && (states[i].flush.Built? ==> states[i].immLog.Some?) && states[i + 1] == Next(states[i], events[i])
  }

  lemma {:induction false} RunKeepsInv(states: seq<State>, events: seq<Event>, n: nat)
    requires Run(states, events) && n < |states|
    ensures Inv(states[n])
  {
    if n > 0 {
      RunKeepsInv(states, events, n - 1);
      StepKeepsInv(states[n - 1], events[n - 1]);
    }
  }

  /** Throughout a run, a collection never removes a table of a version someone holds, or one
      being written, and after it any version the manifest may recover to still has its tables
      and every log whose data they do not hold. */
  lemma CollectionIsSafe(states: seq<State>, events: seq<Event>, n: nat)
    requires Run(states, events) && n < |events| && events[n] == Collect
    ensures var s, s' := states[n], states[n + 1];
      && s.Live() + s.BeingWritten() + s.pending <= s'.tables
      && forall v | v in s'.durable :: Recovers(s', v)
  {
    RunKeepsInv(states, events, n);
    CollectKeepsInv(states[n]);
    assert states[n].BeingWritten() <= states[n].pending;
  }

  /** A log that holds data no table of the current version has is never collected. */
  lemma NeededLogsStay(states: seq<State>, events: seq<Event>, n: nat, l: nat)
    requires Run(states, events) && n < |states| && l in states[n].AllLogs() && l !in states[n].flushed
    ensures l in states[n].logs
  {
    RunKeepsInv(states, events, n);
  }

  // ----- The loop over the directory -----

  datatype FileKind = LogFile | DescriptorFile | TableFile | TempFile | CurrentFile | LockFile | InfoLogFile

  /** A file name that could be parsed. */
  datatype FileName = FileName(kind: FileKind, number: nat)

  /** The files that must stay: tables of held versions, tables and temp files being written, the
      logs from logNumber on and the previous one, manifests from the current one on, and every
      file of another kind. */
  ghost predicate Needed(f: FileName, pending: set<nat>, versions: seq<set<nat>>, logNumber: nat, prevLogNumber: nat, manifestNumber: nat) {
    || ((f.kind.TableFile? || f.kind.TempFile?) && f.number in pending)
    || ((f.kind.TableFile? || f.kind.TempFile?) && exists i :: 0 <= i < |versions| && f.number in versions[i])
    || (f.kind.LogFile? && (f.number >= logNumber || f.number == prevLogNumber))
    || (f.kind.DescriptorFile? && f.number >= manifestNumber)
    || f.kind.CurrentFile? || f.kind.LockFile? || f.kind.InfoLogFile?
  }

  /** DBImpl::DeleteObsoleteFiles: nothing is deleted after a background error. */
  method DeleteObsoleteFiles(files: seq<FileName>, pending: set<nat>, versions: seq<set<nat>>, failed: bool,
                             logNumber: nat, prevLogNumber: nat, manifestNumber: nat)
    returns (left: set<FileName>)
    ensures Left(files, left, pending, versions, failed, logNumber, prevLogNumber, manifestNumber)
    ensures forall s | InState(files, s, pending, versions, failed, logNumber, prevLogNumber) ::
      Collected(files, s, manifestNumber, left)
  {
    left := DeleteUnneeded(files, pending, versions, failed, logNumber, prevLogNumber, manifestNumber);
    hide Collected, Left, Inv, Lists;
    forall s | InState(files, s, pending, versions, failed, logNumber, prevLogNumber)
      ensures Collected(files, s, manifestNumber, left)
    {
      LeftIsCollected(files, s, pending, versions, failed, logNumber, manifestNumber, left, prevLogNumber);
    }
  }

  /** What the directory holds in the end. */
  ghost predicate Left(files: seq<FileName>, left: set<FileName>, pending: set<nat>, versions: seq<set<nat>>, failed: bool,
                       logNumber: nat, prevLogNumber: nat, manifestNumber: nat) {
    forall f :: f in left <==>
      (f in files && (failed || Needed(f, pending, versions, logNumber, prevLogNumber, manifestNumber)))
  }

  method DeleteUnneeded(files: seq<FileName>, pending: set<nat>, versions: seq<set<nat>>, failed: bool,
                        logNumber: nat, prevLogNumber: nat, manifestNumber: nat)
    returns (left: set<FileName>)
    ensures Left(files, left, pending, versions, failed, logNumber, prevLogNumber, manifestNumber)
  {
    left := set f | f in files;
    if failed {
      return;
    }
    var live := AddLiveFiles(pending, versions);
    for i := 0 to |files|
      invariant forall f :: f in left <==>
        (f in files && (f in files[..i] ==> Needed(f, pending, versions, logNumber, prevLogNumber, manifestNumber)))
    {
      var f := files[i];
      var keep := true;
      match f.kind {
        case LogFile => keep := f.number >= logNumber || f.number == prevLogNumber;
        case DescriptorFile => keep := f.number >= manifestNumber;
        case TableFile => keep := f.number in live;
        case TempFile => keep := f.number in live;
        case _ =>
      }
      assert keep <==> Needed(f, pending, versions, logNumber, prevLogNumber, manifestNumber);
      if !keep {
        left := left - {f};
      }
      assert forall g :: g in files[..i + 1] <==> g in files[..i] || g == f;
    }
    assert files[..|files|] == files;
  }

  // ----- The loop is the state machine's collection -----

  /** The versions the database holds a reference to. */
  function HeldVersions(s: State): seq<set<nat>> {
    [s.current] + (if s.compaction.NoCompaction? then [] else [s.compaction.inputVersion]) + s.pinned
  }

  /** A directory listing with the tables and logs of the state. */
  ghost predicate Lists(files: seq<FileName>, s: State) {
    && (forall n :: FileName(TableFile, n) in files <==> n in s.tables)
    && (forall n :: FileName(LogFile, n) in files <==> n in s.logs)
  }

  /** What is left is what the collection step leaves, and a manifest in use and the other
      files stay. */
  ghost predicate Collected(files: seq<FileName>, s: State, manifestNumber: nat, left: set<FileName>)
    requires Enabled(s, Collect) && (s.flush.Built? ==> s.immLog.Some?)
  {
    var s' := Next(s, Collect);
    && (forall n :: FileName(TableFile, n) in left <==> n in s'.tables)
    && (forall n :: FileName(LogFile, n) in left <==> n in s'.logs)
    && (forall f | f in files && f.kind.DescriptorFile? && f.number >= manifestNumber :: f in left)
    && (forall f | f in files && (f.kind.CurrentFile? || f.kind.LockFile? || f.kind.InfoLogFile?) :: f in left)
    && (forall f | f in left :: f in files)
  }

  lemma HeldIsLive(s: State, t: nat)
    ensures t in s.Live() <==> exists i :: 0 <= i < |HeldVersions(s)| && t in HeldVersions(s)[i]
  {
    var vs := HeldVersions(s);
    assert vs[0] == s.current;
    var k := if s.compaction.NoCompaction? then 1 else 2;
    assert !s.compaction.NoCompaction? ==> vs[1] == s.compaction.inputVersion;
    assert forall i | 0 <= i < |s.pinned| :: vs[k + i] == s.pinned[i];
    if t in s.Live() {
      if v :| v in s.pinned && t in v {
        var j :| 0 <= j < |s.pinned| && s.pinned[j] == v;
        assert t in vs[k + j];
      }
    }
    if i :| 0 <= i < |vs| && t in vs[i] {
      assert i >= k ==> vs[i] == s.pinned[i - k] && s.pinned[i - k] in s.pinned;
    }
  }

  /** The tables and logs needed are exactly those the collection step leaves. The previous log
      number is 0, which no log has. */
  lemma NeededIsCollected(s: State, n: nat, manifestNumber: nat)
    requires Enabled(s, Collect) && !s.failed && 0 !in s.logs
    ensures n in s.tables ==>
      (n in Next(s, Collect).tables <==> Needed(FileName(TableFile, n), s.pending, HeldVersions(s), s.logNumber, 0, manifestNumber))
    ensures n in s.logs ==>
      (n in Next(s, Collect).logs <==> Needed(FileName(LogFile, n), s.pending, HeldVersions(s), s.logNumber, 0, manifestNumber))
  {
    HeldIsLive(s, n);
  }

  /** The arguments are those of a state of the machine that can collect, and the directory is
      its. Files are numbered from 1. */
  ghost predicate InState(files: seq<FileName>, s: State, pending: set<nat>, versions: seq<set<nat>>, failed: bool,
                          logNumber: nat, prevLogNumber: nat) {
    && Inv(s) && Enabled(s, Collect) && (s.flush.Built? ==> s.immLog.Some?) && Lists(files, s) && 0 !in s.logs
    && pending == s.pending && versions == HeldVersions(s) && failed == s.failed
    && logNumber == s.logNumber && prevLogNumber == 0
  }

  /** In such a state the files left are exactly those the collection step leaves. */
  lemma LeftIsCollected(files: seq<FileName>, s: State, pending: set<nat>, versions: seq<set<nat>>, failed: bool,
                        logNumber: nat, manifestNumber: nat, left: set<FileName>, prevLogNumber: nat)
    requires InState(files, s, pending, versions, failed, logNumber, prevLogNumber)
    requires Left(files, left, pending, versions, failed, logNumber, prevLogNumber, manifestNumber)
    ensures Collected(files, s, manifestNumber, left)
  {
    if !failed {
      forall n: nat
        ensures n in s.tables ==> (n in Next(s, Collect).tables <==> Needed(FileName(TableFile, n), pending, versions, logNumber, 0, manifestNumber))
        ensures n in s.logs ==> (n in Next(s, Collect).logs <==> Needed(FileName(LogFile, n), pending, versions, logNumber, 0, manifestNumber))
      {
        NeededIsCollected(s, n, manifestNumber);
      }
    }
    hide Inv;
  }

  /** VersionSet::AddLiveFiles: the files of every version still referenced. */
  method AddLiveFiles(pending: set<nat>, versions: seq<set<nat>>) returns (live: set<nat>)
    ensures live == pending + (set v, t | v in versions && t in v :: t)
  {
    live := pending;
    for i := 0 to |versions|
      invariant live == pending + (set v, t | v in versions[..i] && t in v :: t)
    {
      assert forall v :: v in versions[..i + 1] <==> v in versions[..i] || v == versions[i];
      live := live + versions[i];
    }
    assert versions[..|versions|] == versions;
  }
}
