/** From the write queue through a crash: what recovery finds of the commits. */
module CommitRecovery {
  import opened Coding
  import opened LogFormat
  import opened LogReader
  import opened GroupCommit
  import opened Recovery

  /** The log file the queue's leaders have written. */
  ghost function LogOf(crc: Checksum, cs: seq<Commit>): Bytes
    requires AllOk(Logged(cs))
  {
    Log(crc, 0, Encodings(Logged(cs)))
  }

  lemma {:induction false} LoggedPrefix(cs: seq<Commit>, m: nat)
    requires m <= |cs|
    ensures Logged(cs[..m]) <= Logged(cs)
    ensures AllOk(Logged(cs)) ==> AllOk(Logged(cs[..m])) && Encodings(Logged(cs[..m])) <= Encodings(Logged(cs))
    decreases |cs|
  {
    if m > 0 {
      assert cs[..m][1..] == cs[1..][..m - 1];
      LoggedPrefix(cs[1..], m - 1);
      var head := if cs[0].appended then [Group(cs[0].first, cs[0].ops)] else [];
      assert Logged(cs[..m]) == head + Logged(cs[1..][..m - 1]) && Logged(cs) == head + Logged(cs[1..]);
    }
  }

  /** Records whose bytes are all there are counted as whole. */
  lemma {:induction false} WholeRecordsCover(crc: Checksum, off: nat, records: seq<Bytes>, j: nat, n: int)
    requires off <= BLOCK_SIZE && j <= |records| && n >= |Log(crc, off, records[..j])|
    ensures WholeRecords(crc, off, records, n) >= j
    decreases j
  {
    if j > 0 {
      hide Fragments, LogFormat.After;
      assert records[..j][1..] == records[1..][..j - 1] && records[..j][0] == records[0];
      var size := |Fragments(crc, off, records[0], true)|;
      WholeRecordsCover(crc, LogFormat.After(off, |records[0]|), records[1..], j - 1, n - size);
    }
  }

  /** The log up to a commit, once whole, is recovered. */
  lemma SyncedIsWhole(crc: Checksum, cs: seq<Commit>, n: nat, m: nat)
    requires AllOk(Logged(cs)) && m <= |cs|
    ensures AllOk(Logged(cs[..m]))
    ensures n >= |LogOf(crc, cs[..m])| ==> Logged(cs[..m]) <= Logged(cs)[..WholeRecords(crc, 0, Encodings(Logged(cs)), n)]
  {
    LoggedPrefix(cs, m);
    hide Log, WholeRecords, Logged, AllOk;
    if n >= |LogOf(crc, cs[..m])| {
      var j := |Logged(cs[..m])|;
      assert Encodings(Logged(cs))[..j] == Encodings(Logged(cs[..m]));
      hide Encodings;
      WholeRecordsCover(crc, 0, Encodings(Logged(cs)), j, n);
    }
  }

  /** What recovery gives: the entries of the first k groups, and the last number among them. */
  ghost predicate Recovered(r: Replay, gs: seq<Group>, k: nat, before: nat) {
    k <= |gs| && (k > 0 ==> gs[k - 1].Last() >= 0) &&
    r == Replay(Entries(gs[..k]), if k == 0 then before else gs[k - 1].Last(), true)
  }

  /** After any run of the write queue, a log cut at any byte gives back the entries of exactly
      the first k appended commits, under the numbers the queue gave them. If the log up to some
      commit had reached the disk, as a sync makes sure of, all appended commits up to that one
      are among them. */
  lemma QueueRecovers(crc: Checksum, q: WriteQueue, paranoid: bool, n: nat) returns (k: nat)
    requires q.Valid() && AllOk(Logged(q.commits)) && n <= |LogOf(crc, q.commits)|
    ensures Recovered(ReplayLog(crc, Opened(LogOf(crc, q.commits)[..n]), Replay([], q.start, true), paranoid),
                      Logged(q.commits), k, q.start)
    ensures forall m | 0 <= m <= |q.commits| ::
              AllOk(Logged(q.commits[..m])) && (n >= |LogOf(crc, q.commits[..m])| ==> Logged(q.commits[..m]) <= Logged(q.commits)[..k])
  {
    var gs := Logged(q.commits);
    LoggedInOrder(q.commits, q.start, q.lastSequence);
    hide ReplayLog, Log, WholeRecords, Logged, AllOk, Encodings, Entries, Ranges, CommitOk;
    CrashRecovery(crc, gs, q.start + 1, q.start, paranoid, n);
    k := WholeRecords(crc, 0, Encodings(gs), n);
    forall m | 0 <= m <= |q.commits|
      ensures AllOk(Logged(q.commits[..m])) && (n >= |LogOf(crc, q.commits[..m])| ==> Logged(q.commits[..m]) <= gs[..k])
    {
      SyncedIsWhole(crc, q.commits, n, m);
    }
  }
}
