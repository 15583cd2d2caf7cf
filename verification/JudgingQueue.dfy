/** The judging queue: every call reads a snapshot of the whole database, computes a new queue
    and overwrites the stored one. */
module JudgingQueues {
  import opened Basics

  type Judge = string
  type TeamId = string

  const TEAMS_PER_JUDGE: nat := 3

  /** A team record: its key in the database, the id field inside it (which may be absent),
      its affinity group and how many scores it lists. */
  datatype Team = Team(key: TeamId, teamId: Option<TeamId>, affinity: string, scores: nat)

  /** The stored queue: a list of teams for each judge, and the judge each team went to. */
  datatype Queue = Queue(lists: map<Judge, seq<TeamId>>, judgeAssigned: map<TeamId, Judge>) {
    function ListOf(j: Judge): seq<TeamId> {
      if j in lists then lists[j] else []
    }
  }

  ghost predicate Distinct(ts: seq<TeamId>) {
    forall i, k | 0 <= i < k < |ts| :: ts[i] != ts[k]
  }

  /** At most three distinct teams for each judge, and a team marked as a judge's is in that
      judge's list. */
  ghost predicate Good(q: Queue) {
    && (forall j | j in q.lists :: |q.lists[j]| <= TEAMS_PER_JUDGE && Distinct(q.lists[j]))
    && (forall t | t in q.judgeAssigned :: t in q.ListOf(q.judgeAssigned[t]))
  }

  // ----- Choosing teams -----

  /** What a choice of teams ends with: the judge's list and the assignments, or no end at all. */
  datatype Choice = Chosen(list: seq<TeamId>, judgeAssigned: map<TeamId, Judge>, added: nat) | Diverges

  predicate Takeable(list: seq<TeamId>, id: Option<TeamId>) {
    id.Some? && id.value !in list
  }

  /** The loop over candidates from index i on. A candidate that cannot be taken leaves every
      variable as it was, so the loop never ends. */
  function Take(j: Judge, ids: seq<Option<TeamId>>, i: nat, c: Choice, wanted: int): Choice
    requires c.Chosen? && i <= |ids|
    decreases |ids| - i
  {
    if i == |ids| || c.added >= wanted then c
    else if !Takeable(c.list, ids[i]) then Diverges
    else Take(j, ids, i + 1, Chosen(c.list + [ids[i].value], c.judgeAssigned[ids[i].value := j], c.added + 1), wanted)
  }

  method TakeTeams(j: Judge, ids: seq<Option<TeamId>>, start: Choice, wanted: int) returns (c: Choice)
    requires start.Chosen?
    ensures c == Take(j, ids, 0, start, wanted)
  {
    var i := 0;
    c := start;
    while i < |ids| && c.added < wanted
      invariant i <= |ids| && c.Chosen?
      invariant Take(j, ids, 0, start, wanted) == Take(j, ids, i, c, wanted)
    {
      var id := ids[i];
      if id.Some? && id.value !in c.list {
        c := Chosen(c.list + [id.value], c.judgeAssigned[id.value := j], c.added + 1);
        i := i + 1;
      } else {
        return Diverges;
      }
    }
  }

  ghost predicate AllTakeable(list: seq<TeamId>, ids: seq<Option<TeamId>>) {
    && (forall i | 0 <= i < |ids| :: Takeable(list, ids[i]))
    && (forall i, k | 0 <= i < k < |ids| :: ids[i] != ids[k])
  }

  function Min(a: int, b: int): int {
    if a < b then a else b
  }

  lemma TakeableStep(list: seq<TeamId>, few: seq<Option<TeamId>>)
    requires few != [] && Takeable(list, few[0])
    ensures AllTakeable(list, few) <==> AllTakeable(list + [few[0].value], few[1..])
  {
    var list', rest := list + [few[0].value], few[1..];
    if AllTakeable(list', rest) {
      forall k | 0 <= k < |few|
        ensures Takeable(list, few[k])
      {
        assert k > 0 ==> Takeable(list', rest[k - 1]);
      }
      forall k, m | 0 <= k < m < |few|
        ensures few[k] != few[m]
      {
        assert Takeable(list', rest[m - 1]);
        assert k > 0 ==> rest[k - 1] != rest[m - 1];
      }
    }
    if AllTakeable(list, few) {
      forall k | 0 <= k < |rest|
        ensures Takeable(list', rest[k])
      {
        assert Takeable(list, few[k + 1]) && few[0] != few[k + 1];
      }
    }
  }

  /** The loop ends exactly when the candidates it looks at are all defined, new to the judge
      and different from one another. */
  lemma {:induction false} TakeEnds(j: Judge, ids: seq<Option<TeamId>>, i: nat, c: Choice, wanted: int)
    requires c.Chosen? && i <= |ids|
    ensures var n := if c.added >= wanted then 0 else Min(wanted - c.added, |ids| - i);
      Take(j, ids, i, c, wanted).Chosen? <==> AllTakeable(c.list, ids[i..i + n])
    decreases |ids| - i
  {
    var n := if c.added >= wanted then 0 else Min(wanted - c.added, |ids| - i);
    if n > 0 {
      var few := ids[i..i + n];
      assert few[0] == ids[i] && few[1..] == ids[i + 1..i + n];
      if Takeable(c.list, ids[i]) {
        TakeEnds(j, ids, i + 1, Chosen(c.list + [ids[i].value], c.judgeAssigned[ids[i].value := j], c.added + 1), wanted);
        TakeableStep(c.list, few);
      }
    }
  }

  /** What the loop keeps about the judge's list and the assignments. */
  ghost predicate ChoiceOk(q: Queue, j: Judge, c: Choice) {
    c.Chosen? ==>
      && Distinct(c.list) && q.ListOf(j) <= c.list
      && (forall t | t in c.judgeAssigned :: (t in q.judgeAssigned && c.judgeAssigned[t] == q.judgeAssigned[t] && q.judgeAssigned[t] != j) || (c.judgeAssigned[t] == j && t in c.list))
  }

  lemma {:induction false} TakeKeepsOk(q: Queue, j: Judge, ids: seq<Option<TeamId>>, i: nat, c: Choice, wanted: int)
    requires c.Chosen? && i <= |ids| && ChoiceOk(q, j, c)
    ensures ChoiceOk(q, j, Take(j, ids, i, c, wanted))
    decreases |ids| - i
  {
    if i < |ids| && c.added < wanted && Takeable(c.list, ids[i]) {
      var c' := Chosen(c.list + [ids[i].value], c.judgeAssigned[ids[i].value := j], c.added + 1);
      assert ChoiceOk(q, j, c');
      TakeKeepsOk(q, j, ids, i + 1, c', wanted);
    }
  }

  lemma {:induction false} TakeCounts(j: Judge, ids: seq<Option<TeamId>>, i: nat, c: Choice, wanted: int)
    requires c.Chosen? && i <= |ids|
    ensures var d := Take(j, ids, i, c, wanted);
      d.Chosen? ==>
        && d.added >= c.added && |d.list| - |c.list| == d.added - c.added
        && (d.added <= wanted || d.added == c.added)
        && d.added - c.added == (if c.added >= wanted then 0 else Min(wanted - c.added, |ids| - i))
    decreases |ids| - i
  {
    if i < |ids| && c.added < wanted && Takeable(c.list, ids[i]) {
      TakeCounts(j, ids, i + 1, Chosen(c.list + [ids[i].value], c.judgeAssigned[ids[i].value := j], c.added + 1), wanted);
    }
  }

  // ----- The two calls -----

  /** A stable sort by the number of scores. */
  function InsertTeam(ts: seq<Team>, t: Team): (r: seq<Team>)
    ensures multiset(r) == multiset(ts) + multiset{t}
  {
    if ts == [] || ts[|ts| - 1].scores <= t.scores then ts + [t]
    else
      assert ts == ts[..|ts| - 1] + [ts[|ts| - 1]];
      InsertTeam(ts[..|ts| - 1], t) + [ts[|ts| - 1]]
  }

  function SortTeams(ts: seq<Team>): (r: seq<Team>)
    ensures multiset(r) == multiset(ts)
  {
    if ts == [] then []
    else
      assert ts == ts[..|ts| - 1] + [ts[|ts| - 1]];
      InsertTeam(SortTeams(ts[..|ts| - 1]), ts[|ts| - 1])
  }

  ghost predicate ByScores(ts: seq<Team>) {
    forall i, k | 0 <= i < k < |ts| :: ts[i].scores <= ts[k].scores
  }

  lemma InsertMembers(ts: seq<Team>, t: Team)
    ensures forall x | x in InsertTeam(ts, t) :: x in ts || x == t
  {
    forall x | x in InsertTeam(ts, t)
      ensures x in ts || x == t
    {
      assert x in multiset(InsertTeam(ts, t));
      assert x in multiset(ts) || x == t;
    }
  }

  lemma {:induction false} InsertSorted(ts: seq<Team>, t: Team)
    requires ByScores(ts)
    ensures ByScores(InsertTeam(ts, t))
  {
    if ts != [] && ts[|ts| - 1].scores > t.scores {
      var front, last := ts[..|ts| - 1], ts[|ts| - 1];
      InsertSorted(front, t);
      var r := InsertTeam(front, t);
      InsertMembers(front, t);
      assert forall k | 0 <= k < |r| :: r[k] in front || r[k] == t;
    }
  }

  /** Candidates come in the order of their scores, the fewest first. */
  lemma {:induction false} TeamsAreSorted(ts: seq<Team>)
    ensures ByScores(SortTeams(ts))
  {
    if ts != [] {
      TeamsAreSorted(ts[..|ts| - 1]);
      InsertSorted(SortTeams(ts[..|ts| - 1]), ts[|ts| - 1]);
    }
  }

  function Ids(ts: seq<Team>): (r: seq<Option<TeamId>>)
    ensures |r| == |ts| && forall i | 0 <= i < |ts| :: r[i] == ts[i].teamId
  {
    seq(|ts|, i requires 0 <= i < |ts| => ts[i].teamId)
  }

  /** The parts of the database a call reads. */
  datatype Root = Root(affinity: map<Judge, string>, teams: seq<Team>, scored: set<(TeamId, Judge)>, queue: Queue)

  predicate Preferred(root: Root, j: Judge, t: Team)
    requires j in root.affinity
  {
    (root.affinity[j] == "None" || t.affinity == root.affinity[j]) && (t.key, j) !in root.scored
  }

  function Filter(root: Root, j: Judge, ts: seq<Team>, onlyFree: bool): seq<Team>
    requires j in root.affinity
  {
    if ts == [] then []
    else
      var front := Filter(root, j, ts[..|ts| - 1], onlyFree);
      var t := ts[|ts| - 1];
      if Preferred(root, j, t) && (onlyFree ==> t.key !in root.queue.judgeAssigned) then front + [t] else front
  }

  function FreeIds(root: Root, j: Judge): seq<Option<TeamId>>
    requires j in root.affinity
  {
    Ids(SortTeams(Filter(root, j, root.teams, true)))
  }

  function PreferredIds(root: Root, j: Judge): seq<Option<TeamId>>
    requires j in root.affinity
  {
    Ids(SortTeams(Filter(root, j, root.teams, false)))
  }

  function Start(q: Queue, j: Judge): Choice {
    Chosen(q.ListOf(j), q.judgeAssigned, 0)
  }

  /** Teams nobody has first, then any preferred ones. */
  function Choose(root: Root, j: Judge): Choice
    requires j in root.affinity
  {
    var wanted := TEAMS_PER_JUDGE - |root.queue.ListOf(j)|;
    var c := Take(j, FreeIds(root, j), 0, Start(root.queue, j), wanted);
    if c.Diverges? then Diverges else Take(j, PreferredIds(root, j), 0, c, wanted)
  }

  function Store(q: Queue, j: Judge, c: Choice): Queue
    requires c.Chosen?
  {
    Queue(q.lists[j := c.list], c.judgeAssigned)
  }

  /** The candidates of a call: teams of the judge's group it has not scored, and those of
      them nobody has. */
  method Candidates(root: Root, j: Judge) returns (filtered: seq<Team>, preferred: seq<Team>)
    requires j in root.affinity
    ensures filtered == Filter(root, j, root.teams, true) && preferred == Filter(root, j, root.teams, false)
  {
    filtered, preferred := [], [];
    for i := 0 to |root.teams|
      invariant filtered == Filter(root, j, root.teams[..i], true)
      invariant preferred == Filter(root, j, root.teams[..i], false)
    {
      var t := root.teams[i];
      assert root.teams[..i + 1][..i] == root.teams[..i];
      var isPreferred := root.affinity[j] == "None" || t.affinity == root.affinity[j];
      var isScored := (t.key, j) in root.scored;
      if isPreferred && !isScored {
        preferred := preferred + [t];
      }
      if t.key !in root.queue.judgeAssigned && isPreferred && !isScored {
        filtered := filtered + [t];
      }
    }
    assert root.teams[..|root.teams|] == root.teams;
  }

  /** processAssignedQueue: the queue it stores, or nothing if it never returns. */
  method ProcessAssignedQueue(root: Root, j: Judge) returns (stored: Option<Queue>)
    requires j in root.affinity
    ensures stored == if Choose(root, j).Chosen? then Some(Store(root.queue, j, Choose(root, j))) else None
    ensures stored.Some? ==> FairQueue(root, j, stored.value)
  {
    hide Take, Filter, SortTeams, FairQueue;
    FairIfReturns(root, j);
    var filtered, preferred := Candidates(root, j);
    var wanted := TEAMS_PER_JUDGE - |root.queue.ListOf(j)|;
    var c := TakeTeams(j, Ids(SortTeams(filtered)), Start(root.queue, j), wanted);
    if c.Diverges? {
      return None;
    }
    c := TakeTeams(j, Ids(SortTeams(preferred)), c, wanted);
    if c.Diverges? {
      return None;
    }
    stored := Some(Store(root.queue, j, c));
  }

  function Without(ts: seq<TeamId>, t: TeamId): (r: seq<TeamId>)
    ensures |r| <= |ts|
    ensures forall x :: x in r <==> x in ts && x != t
    ensures Distinct(ts) ==> Distinct(r)
  {
    if ts == [] then []
    else
      var n := |ts| - 1;
      var front := Without(ts[..n], t);
      assert ts == ts[..n] + [ts[n]];
      assert Distinct(ts) ==> Distinct(ts[..n]) && ts[n] !in ts[..n];
      if ts[n] == t then front else front + [ts[n]]
  }

  /** filterAssignedQueue: the queue it stores. */
  function FilterAssignedQueue(q: Queue, j: Judge, t: TeamId): Queue {
    Queue(q.lists[j := Without(q.ListOf(j), t)], map x | x in q.judgeAssigned && x != t :: q.judgeAssigned[x])
  }

  lemma StoreIsGood(q: Queue, j: Judge, d: Choice)
    requires Good(q) && d.Chosen? && ChoiceOk(q, j, d) && |d.list| <= TEAMS_PER_JUDGE
    ensures Good(Store(q, j, d))
  {
    var q' := Store(q, j, d);
    assert q'.ListOf(j) == d.list;
    forall t | t in q'.judgeAssigned
      ensures t in q'.ListOf(q'.judgeAssigned[t])
    {
      if q'.judgeAssigned[t] != j {
        assert q'.ListOf(q'.judgeAssigned[t]) == q.ListOf(q.judgeAssigned[t]);
      }
    }
  }

  lemma StartIsOk(q: Queue, j: Judge)
    requires Good(q)
    ensures ChoiceOk(q, j, Start(q, j)) && |q.ListOf(j)| <= TEAMS_PER_JUDGE
  {
  }

  lemma ProcessKeepsGood(root: Root, j: Judge)
    requires Good(root.queue) && j in root.affinity && Choose(root, j).Chosen?
    ensures Good(Store(root.queue, j, Choose(root, j)))
  {
    hide Take, FreeIds, PreferredIds, ChoiceOk, Good, Store;
    var q := root.queue;
    var wanted := TEAMS_PER_JUDGE - |q.ListOf(j)|;
    var s := Start(q, j);
    StartIsOk(q, j);
    TakeKeepsOk(q, j, FreeIds(root, j), 0, s, wanted);
    TakeCounts(j, FreeIds(root, j), 0, s, wanted);
    var c := Take(j, FreeIds(root, j), 0, s, wanted);
    TakeKeepsOk(q, j, PreferredIds(root, j), 0, c, wanted);
    TakeCounts(j, PreferredIds(root, j), 0, c, wanted);
    StoreIsGood(q, j, Choose(root, j));
  }

  lemma FilterKeepsGood(q: Queue, j: Judge, t: TeamId)
    requires Good(q)
    ensures Good(FilterAssignedQueue(q, j, t))
  {
    var q' := FilterAssignedQueue(q, j, t);
    forall x | x in q'.judgeAssigned
      ensures x in q'.ListOf(q'.judgeAssigned[x])
    {
      assert x in q.ListOf(q.judgeAssigned[x]);
    }
  }

  // ----- Any interleaving of calls -----

  /** The stored queue, and the snapshots held by calls that have not stored anything yet. */
  datatype System = System(stored: Queue, held: seq<Queue>)

  datatype Event =
    | Read
    | Assign(k: nat, root: Root, judge: Judge)
    | Remove(k: nat, judge: Judge, team: TeamId)

  /** Read takes a snapshot; the other events overwrite the whole queue with one computed
      from snapshot k. The rest of the database a call reads may be anything. */
  ghost predicate Step(s: System, e: Event, s': System) {
    match e
    case Read => s' == s.(held := s.held + [s.stored])
    case Assign(k, root, j) =>
      && k < |s.held| && root.queue == s.held[k] && j in root.affinity && Choose(root, j).Chosen?
      && s' == System(Store(root.queue, j, Choose(root, j)), s.held[..k] + s.held[k + 1..])
    case Remove(k, j, t) =>
      && k < |s.held|
      && s' == System(FilterAssignedQueue(s.held[k], j, t), s.held[..k] + s.held[k + 1..])
  }

  ghost predicate AllGood(s: System) {
    Good(s.stored) && forall k | 0 <= k < |s.held| :: Good(s.held[k])
  }

  lemma StepKeepsGood(s: System, e: Event, s': System)
    requires AllGood(s) && Step(s, e, s')
    ensures AllGood(s')
  {
    hide Good, Choose, Store, FilterAssignedQueue;
    match e {
      case Read =>
      case Assign(k, root, j) => ProcessKeepsGood(root, j);
      case Remove(k, j, t) => FilterKeepsGood(s.held[k], j, t);
    }
  }

  ghost predicate Run(states: seq<System>, events: seq<Event>) {
    && |states| == |events| + 1
    && forall i {:trigger events[i]} | 0 <= i < |events| :: Step(states[i], events[i], states[i + 1])
  }

  /** From a good queue, every queue stored in any interleaving of calls is good. */
  lemma {:induction false} QueueStaysGood(states: seq<System>, events: seq<Event>, n: nat)
    requires Run(states, events) && AllGood(states[0]) && n < |states|
    ensures AllGood(states[n])
  {
    hide AllGood, Step;
    if n > 0 {
      QueueStaysGood(states, events, n - 1);
      StepKeepsGood(states[n - 1], events[n - 1], states[n]);
    }
  }

  // ----- When a call returns, and with what -----

  /** The candidates a loop looks at: as many as are still wanted. */
  function Looked(ids: seq<Option<TeamId>>, wanted: int): seq<Option<TeamId>> {
    if wanted <= 0 then [] else ids[..Min(wanted, |ids|)]
  }

  /** The ids among them. */
  function Known(ids: seq<Option<TeamId>>): (ts: seq<TeamId>)
    ensures forall t :: t in ts <==> Some(t) in ids
  {
    if ids == [] then [] else (if ids[0].Some? then [ids[0].value] else []) + Known(ids[1..])
  }

  function Assigned(judgeAssigned: map<TeamId, Judge>, ts: seq<TeamId>, j: Judge): (r: map<TeamId, Judge>)
    ensures forall t :: t in r <==> t in judgeAssigned || t in ts
    ensures forall t | t in r :: r[t] == if t in ts then j else judgeAssigned[t]
  {
    map t | t in judgeAssigned.Keys + (set x | x in ts) :: if t in ts then j else judgeAssigned[t]
  }

  lemma AssignedFirst(judgeAssigned: map<TeamId, Judge>, t: TeamId, ts: seq<TeamId>, j: Judge)
    ensures Assigned(judgeAssigned[t := j], ts, j) == Assigned(judgeAssigned, [t] + ts, j)
  {
  }

  lemma LookedFirst(ids: seq<Option<TeamId>>, i: nat, wanted: int)
    requires i < |ids| && wanted > 0 && ids[i].Some?
    ensures |Looked(ids[i..], wanted)| == 1 + |Looked(ids[i + 1..], wanted - 1)|
    ensures Known(Looked(ids[i..], wanted)) == [ids[i].value] + Known(Looked(ids[i + 1..], wanted - 1))
  {
    var looked := Looked(ids[i..], wanted);
    assert looked[0] == ids[i] && looked[1..] == Looked(ids[i + 1..], wanted - 1);
  }

  function TakenFrom(j: Judge, ids: seq<Option<TeamId>>, i: nat, c: Choice, wanted: int): Choice
    requires c.Chosen? && i <= |ids|
  {
    var looked := Looked(ids[i..], wanted - c.added);
    Chosen(c.list + Known(looked), Assigned(c.judgeAssigned, Known(looked), j), c.added + |looked|)
  }

  lemma TakenFromNext(j: Judge, ids: seq<Option<TeamId>>, i: nat, c: Choice, wanted: int)
    requires c.Chosen? && i < |ids| && ids[i].Some? && c.added < wanted
    ensures var t := ids[i].value;
      TakenFrom(j, ids, i, c, wanted)
      == TakenFrom(j, ids, i + 1, Chosen(c.list + [t], c.judgeAssigned[t := j], c.added + 1), wanted)
  {
    hide Assigned, Looked, Known;
    var t := ids[i].value;
    LookedFirst(ids, i, wanted - c.added);
    var rest := Known(Looked(ids[i + 1..], wanted - c.added - 1));
    assert c.list + [t] + rest == c.list + ([t] + rest);
    AssignedFirst(c.judgeAssigned, t, rest, j);
  }

  /** What a loop ends with, if it ends: everything it looked at. */
  lemma {:induction false} TakeShape(j: Judge, ids: seq<Option<TeamId>>, i: nat, c: Choice, wanted: int)
    requires c.Chosen? && i <= |ids| && Take(j, ids, i, c, wanted).Chosen?
    ensures Take(j, ids, i, c, wanted) == TakenFrom(j, ids, i, c, wanted)
    decreases |ids| - i
  {
    if i == |ids| || c.added >= wanted {
      assert Assigned(c.judgeAssigned, [], j) == c.judgeAssigned;
      assert c.list + [] == c.list;
    } else {
      hide TakenFrom;
      var t := ids[i].value;
      TakeShape(j, ids, i + 1, Chosen(c.list + [t], c.judgeAssigned[t := j], c.added + 1), wanted);
      TakenFromNext(j, ids, i, c, wanted);
    }
  }

  lemma LoopReturns(j: Judge, ids: seq<Option<TeamId>>, c: Choice, wanted: int)
    requires c.Chosen?
    ensures var looked := Looked(ids, wanted - c.added);
      var ts := Known(looked);
      Take(j, ids, 0, c, wanted)
      == if AllTakeable(c.list, looked) then Chosen(c.list + ts, Assigned(c.judgeAssigned, ts, j), c.added + |looked|)
         else Diverges
  {
    TakeEnds(j, ids, 0, c, wanted);
    var n := if c.added >= wanted then 0 else Min(wanted - c.added, |ids|);
    assert ids[0..0 + n] == Looked(ids, wanted - c.added);
    assert ids[0..] == ids;
    if AllTakeable(c.list, Looked(ids, wanted - c.added)) {
      TakeShape(j, ids, 0, c, wanted);
    }
  }

  function Wanted(root: Root, j: Judge): int {
    TEAMS_PER_JUDGE - |root.queue.ListOf(j)|
  }

  /** The candidates the first loop of a call looks at, and those the second one does. */
  function FirstLooked(root: Root, j: Judge): seq<Option<TeamId>>
    requires j in root.affinity
  {
    Looked(FreeIds(root, j), Wanted(root, j))
  }

  function SecondLooked(root: Root, j: Judge): seq<Option<TeamId>>
    requires j in root.affinity
  {
    Looked(PreferredIds(root, j), Wanted(root, j) - |FirstLooked(root, j)|)
  }

  ghost predicate Returns(root: Root, j: Judge)
    requires j in root.affinity
  {
    var list := root.queue.ListOf(j);
    && AllTakeable(list, FirstLooked(root, j))
    && AllTakeable(list + Known(FirstLooked(root, j)), SecondLooked(root, j))
  }

  function Taken(root: Root, j: Judge): seq<TeamId>
    requires j in root.affinity
  {
    Known(FirstLooked(root, j)) + Known(SecondLooked(root, j))
  }

  /** The call for a judge returns exactly when the candidates looked at are defined, not on the
      judge's list, and none is met twice: the second loop goes over the teams of the first one
      again. Then it has taken them all. */
  lemma CallReturns(root: Root, j: Judge)
    requires j in root.affinity
    ensures Choose(root, j).Chosen? <==> Returns(root, j)
    ensures Returns(root, j) ==>
      && Choose(root, j).list == root.queue.ListOf(j) + Taken(root, j)
      && Choose(root, j).judgeAssigned == Assigned(root.queue.judgeAssigned, Taken(root, j), j)
  {
    hide FreeIds, PreferredIds, Take, AllTakeable, Looked, Assigned, Known;
    var wanted := Wanted(root, j);
    var s := Start(root.queue, j);
    LoopReturns(j, FreeIds(root, j), s, wanted);
    var c := Take(j, FreeIds(root, j), 0, s, wanted);
    if c.Chosen? {
      LoopReturns(j, PreferredIds(root, j), c, wanted);
      var first, second := Known(FirstLooked(root, j)), Known(SecondLooked(root, j));
      AssignedTwice(root.queue.judgeAssigned, first, second, j);
      assert root.queue.ListOf(j) + first + second == root.queue.ListOf(j) + (first + second);
    }
  }

  lemma AssignedTwice(judgeAssigned: map<TeamId, Judge>, a: seq<TeamId>, b: seq<TeamId>, j: Judge)
    ensures Assigned(Assigned(judgeAssigned, a, j), b, j) == Assigned(judgeAssigned, a + b, j)
  {
  }

  /** Taken teams were not on the list. */
  lemma TakenIsNew(root: Root, j: Judge, t: TeamId)
    requires j in root.affinity && Returns(root, j) && t in Taken(root, j)
    ensures t !in root.queue.ListOf(j)
  {
    hide FreeIds, PreferredIds, Looked;
    var list := root.queue.ListOf(j);
    if t in Known(FirstLooked(root, j)) {
      IsTakeable(list, FirstLooked(root, j), t);
    } else {
      IsTakeable(list + Known(FirstLooked(root, j)), SecondLooked(root, j), t);
    }
  }

  lemma IsTakeable(list: seq<TeamId>, ids: seq<Option<TeamId>>, t: TeamId)
    requires AllTakeable(list, ids) && Some(t) in ids
    ensures t !in list
  {
    var i :| 0 <= i < |ids| && ids[i] == Some(t);
    assert Takeable(list, ids[i]);
  }

  // ----- Which teams a call assigns -----

  /** A team of the judge's group that the judge has not scored. */
  ghost predicate Eligible(root: Root, j: Judge, t: Team)
    requires j in root.affinity
  {
    && t in root.teams
    && (root.affinity[j] == "None" || root.affinity[j] == t.affinity)
    && forall k: TeamId, judge: Judge | (k, judge) in root.scored :: k != t.key || judge != j
  }

  ghost predicate EligibleFree(root: Root, j: Judge, t: Team)
    requires j in root.affinity
  {
    Eligible(root, j, t) && forall k | k in root.queue.judgeAssigned :: k != t.key
  }

  /** The team is not among the newly listed ones. */
  ghost predicate LeftOut(t: Team, taken: seq<TeamId>) {
    forall id | t.teamId == Some(id) :: id !in taken
  }

  /** The id is that of a free team, and no free team with fewer scores was left out. */
  ghost predicate FreeChoice(root: Root, j: Judge, id: TeamId, taken: seq<TeamId>)
    requires j in root.affinity
  {
    exists t :: EligibleFree(root, j, t) && t.teamId == Some(id) &&
      forall b | EligibleFree(root, j, b) && LeftOut(b, taken) :: t.scores <= b.scores
  }

  /** The id is that of an eligible team, and every free team was taken before. */
  ghost predicate SecondChoice(root: Root, j: Judge, id: TeamId, before: seq<TeamId>)
    requires j in root.affinity
  {
    && (exists t :: Eligible(root, j, t) && t.teamId == Some(id))
    && forall b | EligibleFree(root, j, b) :: b.teamId.Some? && b.teamId.value in before
  }

  /** The judge's list goes on with newly taken teams: free ones with the fewest scores, then,
      once no free team is left, others. */
  ghost predicate FairList(root: Root, j: Judge, list: seq<TeamId>)
    requires j in root.affinity
  {
    var had := root.queue.ListOf(j);
    && had <= list
    && forall k | |had| <= k < |list| ::
         FreeChoice(root, j, list[k], list[|had|..]) || SecondChoice(root, j, list[k], list[|had|..k])
  }

  /** The stored queue differs from the snapshot in the judge's list and the teams newly on it. */
  ghost predicate FairQueue(root: Root, j: Judge, stored: Queue)
    requires j in root.affinity
  {
    var had, list := root.queue.ListOf(j), stored.ListOf(j);
    FairList(root, j, list) && |had| <= |list| && OnlyTaken(root.queue, j, stored, list[|had|..])
  }

  lemma {:induction false} FilterMembers(root: Root, j: Judge, ts: seq<Team>, onlyFree: bool, t: Team)
    requires j in root.affinity && forall x | x in ts :: x in root.teams
    ensures t in Filter(root, j, ts, onlyFree) <==>
      t in ts && if onlyFree then EligibleFree(root, j, t) else Eligible(root, j, t)
  {
    if ts != [] {
      assert ts == ts[..|ts| - 1] + [ts[|ts| - 1]];
      FilterMembers(root, j, ts[..|ts| - 1], onlyFree, t);
    }
  }

  function Sorted(root: Root, j: Judge, onlyFree: bool): seq<Team>
    requires j in root.affinity
  {
    SortTeams(Filter(root, j, root.teams, onlyFree))
  }

  lemma SortedMembers(root: Root, j: Judge, onlyFree: bool, t: Team)
    requires j in root.affinity
    ensures t in Sorted(root, j, onlyFree) <==> if onlyFree then EligibleFree(root, j, t) else Eligible(root, j, t)
  {
    FilterMembers(root, j, root.teams, onlyFree, t);
    var filtered := Filter(root, j, root.teams, onlyFree);
    assert t in SortTeams(filtered) <==> t in multiset(SortTeams(filtered));
    assert t in filtered <==> t in multiset(filtered);
    hide Eligible, EligibleFree, Filter, SortTeams;
  }

  /** Ids that are all known keep their places. */
  lemma {:induction false} KnownAt(ids: seq<Option<TeamId>>, i: nat)
    requires i < |ids| && forall k | 0 <= k < |ids| :: ids[k].Some?
    ensures |Known(ids)| == |ids| && Known(ids)[i] == ids[i].value
    decreases |ids|
  {
    if |ids| > 1 {
      KnownAt(ids[1..], if i > 0 then i - 1 else 0);
    }
  }

  lemma TakeableKnown(list: seq<TeamId>, ids: seq<Option<TeamId>>)
    requires AllTakeable(list, ids)
    ensures |Known(ids)| == |ids| && forall i | 0 <= i < |ids| :: ids[i] == Some(Known(ids)[i])
  {
    forall i | 0 <= i < |ids| ensures ids[i].Some? {
      assert Takeable(list, ids[i]);
    }
    forall i | 0 <= i < |ids| ensures |Known(ids)| == |ids| && ids[i] == Some(Known(ids)[i]) {
      KnownAt(ids, i);
    }
  }

  /** The teams a loop looked at all have their ids among the known ones. */
  lemma LookedTaken(ts: seq<Team>, list: seq<TeamId>, n: nat)
    requires n <= |ts| && AllTakeable(list, Ids(ts)[..n])
    ensures |Known(Ids(ts)[..n])| == n
    ensures forall i | 0 <= i < n :: ts[i].teamId == Some(Known(Ids(ts)[..n])[i]) && Known(Ids(ts)[..n])[i] in Known(Ids(ts)[..n])
  {
    TakeableKnown(list, Ids(ts)[..n]);
    hide AllTakeable, Known;
    forall i | 0 <= i < n ensures ts[i].teamId == Some(Known(Ids(ts)[..n])[i]) && Known(Ids(ts)[..n])[i] in Known(Ids(ts)[..n]) {
      assert Ids(ts)[..n][i] == ts[i].teamId;
    }
  }

  lemma LookedIsPrefix(ts: seq<Team>, wanted: int)
    ensures |Looked(Ids(ts), wanted)| <= |ts| && Looked(Ids(ts), wanted) == Ids(ts)[..|Looked(Ids(ts), wanted)|]
    ensures wanted > |Looked(Ids(ts), wanted)| ==> |Looked(Ids(ts), wanted)| == |ts|
  {
  }

  lemma SortedIds(root: Root, j: Judge)
    requires j in root.affinity
    ensures FreeIds(root, j) == Ids(Sorted(root, j, true)) && PreferredIds(root, j) == Ids(Sorted(root, j, false))
    ensures ByScores(Sorted(root, j, true))
  {
    TeamsAreSorted(Filter(root, j, root.teams, true));
    hide Filter, SortTeams;
  }

  /** What the first loop takes are free teams with the fewest scores. */
  lemma FirstIsFree(root: Root, j: Judge, i: nat, taken: seq<TeamId>)
    requires j in root.affinity && Returns(root, j) && i < |Known(FirstLooked(root, j))|
    requires forall id | id in Known(FirstLooked(root, j)) :: id in taken
    ensures FreeChoice(root, j, Known(FirstLooked(root, j))[i], taken)
  {
    var ts, n := Sorted(root, j, true), |FirstLooked(root, j)|;
    SortedIds(root, j);
    LookedIsPrefix(ts, Wanted(root, j));
    LookedTaken(ts, root.queue.ListOf(j), n);
    hide Eligible, EligibleFree, Known, AllTakeable, Looked, Sorted, FreeIds;
    SortedMembers(root, j, true, ts[i]);
    forall k | 0 <= k < n ensures !LeftOut(ts[k], taken) {
      assert ts[k].teamId == Some(Known(FirstLooked(root, j))[k]);
    }
    forall b | EligibleFree(root, j, b) && LeftOut(b, taken) ensures ts[i].scores <= b.scores {
      SortedMembers(root, j, true, b);
    }
  }

  /** The second loop takes something only after the first one took every free team. */
  lemma AllFreeTaken(root: Root, j: Judge, b: Team)
    requires j in root.affinity && Returns(root, j) && SecondLooked(root, j) != [] && EligibleFree(root, j, b)
    ensures b.teamId.Some? && b.teamId.value in Known(FirstLooked(root, j))
  {
    var ts, n := Sorted(root, j, true), |FirstLooked(root, j)|;
    SortedIds(root, j);
    LookedIsPrefix(ts, Wanted(root, j));
    LookedTaken(ts, root.queue.ListOf(j), n);
    SortedMembers(root, j, true, b);
    hide Eligible, EligibleFree, Known, AllTakeable, Sorted, FreeIds, PreferredIds;
    assert n == |ts|;
    hide Looked;
  }

  lemma SecondIsEligible(root: Root, j: Judge, i: nat)
    requires j in root.affinity && Returns(root, j) && i < |Known(SecondLooked(root, j))|
    ensures SecondLooked(root, j) != []
    ensures exists t :: Eligible(root, j, t) && t.teamId == Some(Known(SecondLooked(root, j))[i])
  {
    var ts, n := Sorted(root, j, false), |SecondLooked(root, j)|;
    SortedIds(root, j);
    LookedIsPrefix(ts, Wanted(root, j) - |FirstLooked(root, j)|);
    LookedTaken(ts, root.queue.ListOf(j) + Known(FirstLooked(root, j)), n);
    hide Eligible, EligibleFree, Known, AllTakeable, Looked, Sorted, PreferredIds, FirstLooked;
    SortedMembers(root, j, false, ts[i]);
  }

  lemma SecondIsLater(root: Root, j: Judge, i: nat, before: seq<TeamId>)
    requires j in root.affinity && Returns(root, j) && i < |Known(SecondLooked(root, j))|
    requires forall id | id in Known(FirstLooked(root, j)) :: id in before
    ensures SecondChoice(root, j, Known(SecondLooked(root, j))[i], before)
  {
    hide Eligible, EligibleFree, Known, SecondLooked, FirstLooked, Returns;
    SecondIsEligible(root, j, i);
    forall b | EligibleFree(root, j, b) ensures b.teamId.Some? && b.teamId.value in before {
      AllFreeTaken(root, j, b);
    }
  }

  lemma TakenIsFair(root: Root, j: Judge, i: nat)
    requires j in root.affinity && Returns(root, j) && i < |Taken(root, j)|
    ensures FreeChoice(root, j, Taken(root, j)[i], Taken(root, j)) || SecondChoice(root, j, Taken(root, j)[i], Taken(root, j)[..i])
  {
    hide FirstLooked, SecondLooked, Known, FreeChoice, SecondChoice, Returns;
    var first, second := Known(FirstLooked(root, j)), Known(SecondLooked(root, j));
    if i < |first| {
      FirstIsFree(root, j, i, first + second);
    } else {
      assert (first + second)[..i] == first + second[..i - |first|];
      SecondIsLater(root, j, i - |first|, first + second[..i - |first|]);
    }
  }

  lemma ListIsFair(root: Root, j: Judge)
    requires j in root.affinity && Returns(root, j)
    ensures FairList(root, j, root.queue.ListOf(j) + Taken(root, j))
  {
    hide Taken, FreeChoice, SecondChoice, Returns;
    var had, taken := root.queue.ListOf(j), Taken(root, j);
    var list := had + taken;
    assert list[|had|..] == taken;
    forall k | |had| <= k < |list|
      ensures FreeChoice(root, j, list[k], list[|had|..]) || SecondChoice(root, j, list[k], list[|had|..k])
    {
      assert list[|had|..k] == taken[..k - |had|];
      TakenIsFair(root, j, k - |had|);
    }
  }

  /** Only the judge's list and the taken teams change. */
  ghost predicate OnlyTaken(q: Queue, j: Judge, stored: Queue, taken: seq<TeamId>) {
    && (forall other | other != j :: stored.ListOf(other) == q.ListOf(other))
    && (forall t | t in stored.judgeAssigned :: if t in taken then stored.judgeAssigned[t] == j
          else t in q.judgeAssigned && stored.judgeAssigned[t] == q.judgeAssigned[t])
    && (forall t | t in q.judgeAssigned || t in taken :: t in stored.judgeAssigned)
  }

  lemma StoredTaken(q: Queue, j: Judge, taken: seq<TeamId>)
    ensures var stored := Queue(q.lists[j := q.ListOf(j) + taken], Assigned(q.judgeAssigned, taken, j));
      OnlyTaken(q, j, stored, taken) && stored.ListOf(j) == q.ListOf(j) + taken
  {
  }

  lemma CallIsFair(root: Root, j: Judge)
    requires j in root.affinity && Choose(root, j).Chosen?
    ensures FairQueue(root, j, Store(root.queue, j, Choose(root, j)))
  {
    CallReturns(root, j);
    hide Choose, FairList, Taken, Returns, OnlyTaken, Assigned;
    var had, taken := root.queue.ListOf(j), Taken(root, j);
    ListIsFair(root, j);
    StoredTaken(root.queue, j, taken);
    assert (had + taken)[|had|..] == taken;
  }

  lemma FairIfReturns(root: Root, j: Judge)
    requires j in root.affinity
    ensures Choose(root, j).Chosen? ==> FairQueue(root, j, Store(root.queue, j, Choose(root, j)))
  {
    hide Choose, FairQueue;
    if Choose(root, j).Chosen? {
      CallIsFair(root, j);
    }
  }

  // ----- Lists and assignments the other way round -----

  /** A team on a judge's list is marked as that judge's. */
  ghost predicate Converse(q: Queue) {
    forall j, t | j in q.lists && t in q.lists[j] :: t in q.judgeAssigned && q.judgeAssigned[t] == j
  }

  ghost predicate NoneAssigned(q: Queue, ts: seq<TeamId>) {
    forall t | t in ts :: t !in q.judgeAssigned
  }

  lemma StoreConverse(q: Queue, j: Judge, ts: seq<TeamId>)
    requires Good(q) && Converse(q) && forall t | t in ts :: t !in q.ListOf(j)
    ensures Converse(Queue(q.lists[j := q.ListOf(j) + ts], Assigned(q.judgeAssigned, ts, j))) <==> NoneAssigned(q, ts)
  {
    var q' := Queue(q.lists[j := q.ListOf(j) + ts], Assigned(q.judgeAssigned, ts, j));
    if t :| t in ts && t in q.judgeAssigned {
      var k := q.judgeAssigned[t];
      assert t in q.ListOf(k) && k != j;
      assert t in q'.lists[k] && q'.judgeAssigned[t] == j;
    } else {
      forall k, t | k in q'.lists && t in q'.lists[k]
        ensures t in q'.judgeAssigned && q'.judgeAssigned[t] == k
      {
        if k == j {
          assert t in q.ListOf(j) || t in ts;
        } else {
          assert t in q.lists[k];
        }
      }
    }
  }

  /** An assignment keeps the converse exactly if none of the teams it takes is anyone's yet. */
  lemma AssignConverse(root: Root, j: Judge)
    requires j in root.affinity && Good(root.queue) && Converse(root.queue) && Choose(root, j).Chosen?
    ensures Converse(Store(root.queue, j, Choose(root, j))) <==> NoneAssigned(root.queue, Taken(root, j))
  {
    CallReturns(root, j);
    forall t | t in Taken(root, j) ensures t !in root.queue.ListOf(j) {
      TakenIsNew(root, j, t);
    }
    hide Choose, Taken, Good, Converse;
    StoreConverse(root.queue, j, Taken(root, j));
  }

  /** Removing a team keeps it exactly if the team is not another judge's. */
  lemma RemoveConverse(q: Queue, j: Judge, t: TeamId)
    requires Good(q) && Converse(q)
    ensures Converse(FilterAssignedQueue(q, j, t)) <==> (t in q.judgeAssigned ==> q.judgeAssigned[t] == j)
  {
    var q' := FilterAssignedQueue(q, j, t);
    if t in q.judgeAssigned && q.judgeAssigned[t] != j {
      var k := q.judgeAssigned[t];
      assert t in q.ListOf(k);
      assert t in q'.lists[k] && t !in q'.judgeAssigned;
    } else {
      forall k, x | k in q'.lists && x in q'.lists[k]
        ensures x in q'.judgeAssigned && q'.judgeAssigned[x] == k
      {
        if k == j {
          assert x in q.ListOf(j);
        } else {
          assert x in q.lists[k];
        }
      }
    }
  }

  /** An event that takes nobody's team but free ones, or removes nobody else's. */
  ghost predicate Careful(s: System, e: Event) {
    match e
    case Read => true
    case Assign(k, root, j) => j in root.affinity && NoneAssigned(root.queue, Taken(root, j))
    case Remove(k, j, t) => k < |s.held| && (t in s.held[k].judgeAssigned ==> s.held[k].judgeAssigned[t] == j)
  }

  ghost predicate AllConverse(s: System) {
    Converse(s.stored) && forall k | 0 <= k < |s.held| :: Converse(s.held[k])
  }

  lemma StepConverse(s: System, e: Event, s': System)
    requires AllGood(s) && AllConverse(s) && Step(s, e, s')
    ensures AllConverse(s') <==> Careful(s, e)
  {
    hide Good, Choose, Store, FilterAssignedQueue, Converse, NoneAssigned, Taken;
    match e {
      case Read =>
      case Assign(k, root, j) => AssignConverse(root, j);
      case Remove(k, j, t) => RemoveConverse(s.held[k], j, t);
    }
  }

  /** In any interleaving the converse holds of all queues up to a point exactly if every event
      up to it was careful about its own snapshot. */
  lemma {:induction false} ConverseOverRuns(states: seq<System>, events: seq<Event>, n: nat)
    requires Run(states, events) && AllGood(states[0]) && AllConverse(states[0]) && n < |states|
    ensures ConverseUpTo(states, n) <==> CarefulUpTo(states, events, n)
  {
    hide AllConverse, Careful, AllGood, Step;
    if n > 0 {
      ConverseOverRuns(states, events, n - 1);
      if ConverseUpTo(states, n - 1) {
        QueueStaysGood(states, events, n - 1);
        RunsOn(states, events, n - 1);
        StepConverse(states[n - 1], events[n - 1], states[n]);
      }
      assert CarefulUpTo(states, events, n) <==> CarefulUpTo(states, events, n - 1) && Careful(states[n - 1], events[n - 1]);
      assert ConverseUpTo(states, n) <==> ConverseUpTo(states, n - 1) && AllConverse(states[n]);
    }
  }

  lemma RunsOn(states: seq<System>, events: seq<Event>, k: nat)
    requires Run(states, events) && k < |events|
    ensures Step(states[k], events[k], states[k + 1])
  {
  }

  ghost predicate ConverseUpTo(states: seq<System>, n: nat)
    requires n < |states|
  {
    forall i | 0 <= i <= n :: AllConverse(states[i])
  }

  ghost predicate CarefulUpTo(states: seq<System>, events: seq<Event>, n: nat)
    requires n < |states| == |events| + 1
  {
    forall i | 0 <= i < n :: Careful(states[i], events[i])
  }

  // ----- What goes wrong -----

  lemma OneFiltered(root: Root, j: Judge, t: Team, onlyFree: bool)
    requires j in root.affinity && Preferred(root, j, t)
    ensures Filter(root, j, [t], onlyFree) == if onlyFree && t.key in root.queue.judgeAssigned then [] else [t]
  {
    hide Preferred;
    assert [t][..0] == [];
    assert Filter(root, j, [], onlyFree) == [];
  }

  lemma OneSorted(t: Team)
    ensures Ids(SortTeams([])) == [] && Ids(SortTeams([t])) == [t.teamId]
  {
    assert SortTeams([]) == [] && SortTeams([t]) == [t];
  }

  /** The candidates when the database holds one team, which anyone may judge. */
  lemma OneTeam(root: Root, j: Judge, t: Team)
    requires j in root.affinity && root.affinity[j] == "None" && root.scored == {} && root.teams == [t]
    ensures PreferredIds(root, j) == [t.teamId]
    ensures FreeIds(root, j) == if t.key in root.queue.judgeAssigned then [] else [t.teamId]
  {
    OneFiltered(root, j, t, false);
    OneFiltered(root, j, t, true);
    OneSorted(t);
    hide Filter, SortTeams, Ids, Preferred;
  }

  /** With a single free team and an empty list the call takes the team, finds it again among
      the preferred ones, and never returns. */
  lemma LastTeamHangs(j: Judge, t: TeamId)
    ensures Choose(Root(map[j := "None"], [Team(t, Some(t), "", 0)], {}, Queue(map[], map[])), j) == Diverges
  {
    var team := Team(t, Some(t), "", 0);
    var root := Root(map[j := "None"], [team], {}, Queue(map[], map[]));
    OneTeam(root, j, team);
    hide FreeIds, PreferredIds;
    var ids := [Some(t)];
    var c := Chosen([] + [t], map[t := j], 1);
    assert Take(j, ids, 1, c, 3) == c;
    assert Take(j, ids, 0, Start(root.queue, j), 3) == c;
    assert Take(j, ids, 0, c, 3) == Diverges;
  }

  /** A preferred team that is already assigned is taken again, and the first judge's list
      keeps it: a queue with the converse loses it. */
  lemma ConverseIsNotKept(a: Judge, b: Judge, x: TeamId, y: TeamId, z: TeamId)
    requires a != b && x != y && y != z && x != z
    ensures var q := Queue(map[a := [x], b := [y, z]], map[x := a, y := b, z := b]);
      var c := Choose(Root(map[b := "None"], [Team(x, Some(x), "", 0)], {}, q), b);
      && Good(q) && Converse(q) && c.Chosen?
      && Good(Store(q, b, c)) && !Converse(Store(q, b, c))
  {
    hide FreeIds, PreferredIds, Good, Converse, Choose, FirstLooked, SecondLooked, Taken, Returns, Store;
    var q := Queue(map[a := [x], b := [y, z]], map[x := a, y := b, z := b]);
    var root := Root(map[b := "None"], [Team(x, Some(x), "", 0)], {}, q);
    ThreeTeams(a, b, x, y, z);
    OneTeam(root, b, root.teams[0]);
    OneTaken(root, b, x);
    CallReturns(root, b);
    AssignConverse(root, b);
    ProcessKeepsGood(root, b);
  }

  lemma ThreeTeams(a: Judge, b: Judge, x: TeamId, y: TeamId, z: TeamId)
    requires a != b && x != y && y != z && x != z
    ensures var q := Queue(map[a := [x], b := [y, z]], map[x := a, y := b, z := b]); Good(q) && Converse(q)
  {
  }

  /** One place left, nobody free, one preferred team that is not on the list. */
  lemma OneTaken(root: Root, j: Judge, x: TeamId)
    requires j in root.affinity && FreeIds(root, j) == [] && PreferredIds(root, j) == [Some(x)]
    requires Wanted(root, j) == 1 && x !in root.queue.ListOf(j)
    ensures Returns(root, j) && Taken(root, j) == [x]
  {
    assert FirstLooked(root, j) == [] && SecondLooked(root, j) == [Some(x)];
    assert root.queue.ListOf(j) + [] == root.queue.ListOf(j);
    assert Known([]) == [] && Known([Some(x)]) == [x];
  }
}
