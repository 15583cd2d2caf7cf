/** The compaction loop: merged input entries in, output tables out. */
module CompactionWork {
  import opened DbFormat
  import opened VersionFiles
  import opened VersionRead
  import opened CompactionMeaning

  /** No file at level + 2 or deeper spans the key. */
  ghost predicate IsBase(v: Version, level: nat, u: UserKey) {
    forall l, i | level + 2 <= l < NUM_LEVELS && 0 <= i < |v[l]| :: !Covers(v[l][i], u)
  }

  ghost function BaseKeys(v: Version, level: nat): iset<UserKey> {
    iset u: UserKey | IsBase(v, level, u)
  }

  class Compaction {
    const level: nat
    const inputVersion: Version
    const levelPtrs: array<nat>

    ghost predicate Valid()
      reads this, levelPtrs
    {
      && levelPtrs.Length == NUM_LEVELS
      && (forall l | 1 <= l < NUM_LEVELS :: LevelSorted(inputVersion[l]))
      && (forall l | 0 <= l < NUM_LEVELS :: levelPtrs[l] <= |inputVersion[l]|)
    }

    /** The pointers have not passed any file that could span u or a later key. */
    ghost predicate PointersBelow(u: UserKey)
      requires Valid()
      reads this, levelPtrs
    {
      forall l, i | level + 2 <= l < NUM_LEVELS && 0 <= i < levelPtrs[l] :: inputVersion[l][i].Largest().user < u
    }

    lemma PointersStayBelow(u: UserKey, w: UserKey)
      requires Valid() && PointersBelow(u) && u <= w
      ensures PointersBelow(w)
    {
    }

    constructor (v: Version, level: nat)
      requires forall l | 1 <= l < NUM_LEVELS :: LevelSorted(v[l])
      ensures Valid() && fresh(levelPtrs) && inputVersion == v && this.level == level
      ensures forall u :: PointersBelow(u)
    {
      inputVersion := v;
      this.level := level;
      levelPtrs := new nat[NUM_LEVELS](i => 0);
    }

    /** For keys asked in non-decreasing order the moving pointers answer exactly. */
    method IsBaseLevelForKey(u: UserKey) returns (r: bool)
      requires Valid() && PointersBelow(u)
      modifies levelPtrs
      ensures Valid() && PointersBelow(u)
      ensures r <==> IsBase(inputVersion, level, u)
    {
      var lvl := level + 2;
      while lvl < NUM_LEVELS
        invariant level + 2 <= lvl
        invariant Valid() && PointersBelow(u)
        invariant forall l, i | level + 2 <= l < lvl && l < NUM_LEVELS && 0 <= i < |inputVersion[l]| :: !Covers(inputVersion[l][i], u)
      {
        var files := inputVersion[lvl];
        while levelPtrs[lvl] < |files|
          invariant Valid() && PointersBelow(u)
          decreases |files| - levelPtrs[lvl]
        {
          var f := files[levelPtrs[lvl]];
          if u <= f.Largest().user {
            if u >= f.Smallest().user {
              assert Covers(inputVersion[lvl][levelPtrs[lvl]], u);
              return false;
            }
            break;
          }
          levelPtrs[lvl] := levelPtrs[lvl] + 1;
        }
        forall i | 0 <= i < |files|
          ensures !Covers(files[i], u)
        {
          if levelPtrs[lvl] <= i {
            SmallestOrder(files, levelPtrs[lvl], i);
          }
        }
        lvl := lvl + 1;
      }
      return true;
    }
  }

  /** Over sorted input, rule (A) needs only the entry just read. */
  lemma HiddenByPrevious(input: seq<Entry>, i: nat, smallest: nat)
    requires SortedEntries(input) && i < |input|
    ensures Hidden(EntrySet(input), smallest, input[i])
       <==> i > 0 && input[i - 1].ik.user == input[i].ik.user && input[i - 1].ik.sequence <= smallest
  {
    if Hidden(EntrySet(input), smallest, input[i]) {
      var p :| p in EntrySet(input) && p.ik.user == input[i].ik.user && input[i].ik.sequence < p.ik.sequence <= smallest;
      var k :| 0 <= k < |input| && input[k] == p;
      assert k < i;
      assert k == i - 1 || Before(input[k].ik, input[i - 1].ik);
      assert Before(input[i - 1].ik, input[i].ik);
    } else if i > 0 {
      assert Before(input[i - 1].ik, input[i].ik);
      assert input[i - 1] in EntrySet(input);
    }
  }

  ghost function KeptPrefix(input: seq<Entry>, n: nat, smallest: nat, base: iset<UserKey>): set<Entry>
    requires n <= |input|
  {
    set i | 0 <= i < n && !Dropped(input, smallest, base, input[i]) :: input[i]
  }

  /** The tables written so far, and the one being built, in key order. */
  ghost predicate OutputsOrdered(outputs: seq<File>, builder: seq<Entry>) {
    && LevelSorted(outputs)
    && SortedEntries(builder)
    && forall i | 0 <= i < |outputs| && builder != [] :: Before(outputs[i].Largest(), builder[0].ik)
  }

  lemma LevelContentAppend(fs: seq<File>, f: File)
    ensures LevelContent(fs + [f]) == LevelContent(fs) + f.Content()
  {
    var all := fs + [f];
    forall e | e in LevelContent(fs) + f.Content()
      ensures e in LevelContent(all)
    {
      if e in f.Content() {
        assert e in all[|fs|].entries;
      } else {
        var i :| 0 <= i < |fs| && e in fs[i].entries;
        assert e in all[i].entries;
      }
    }
  }

  /** What the loop remembers of the entry before position i. */
  ghost predicate Remembers(input: seq<Entry>, i: nat, hasKey: bool, currentKey: UserKey, lastSequenceForKey: nat)
    requires i <= |input|
  {
    if i == 0 then !hasKey
    else hasKey && currentKey == input[i - 1].ik.user && lastSequenceForKey == input[i - 1].ik.sequence
  }

  ghost predicate Dropped(input: seq<Entry>, smallest: nat, base: iset<UserKey>, e: Entry) {
    Hidden(EntrySet(input), smallest, e) || Obsolete(smallest, base, e)
  }

  /** The drop decision for one entry, from the running state. */
  method DropEntry(c: Compaction, ghost input: seq<Entry>, ghost i: nat, e: Entry, smallest: nat,
                   hasKey: bool, currentKey: UserKey, lastSequence: nat) returns (drop: bool)
    requires c.Valid() && SortedEntries(input) && i < |input| && e == input[i] && smallest < MAX_SEQUENCE
    requires Remembers(input, i, hasKey, currentKey, lastSequence)
    requires c.PointersBelow(e.ik.user)
    modifies c.levelPtrs
    ensures c.Valid() && c.PointersBelow(e.ik.user)
    ensures drop <==> Dropped(input, smallest, BaseKeys(c.inputVersion, c.level), e)
  {
    HiddenByPrevious(input, i, smallest);
    var lastSequenceForKey := lastSequence;
    if !hasKey || e.ik.user != currentKey {
      lastSequenceForKey := MAX_SEQUENCE;
    }
    drop := false;
    if lastSequenceForKey <= smallest {
      drop := true;
    } else if e.ik.kind.Deletion? && e.ik.sequence <= smallest {
      drop := c.IsBaseLevelForKey(e.ik.user);
    }
  }

  /** DBImpl::DoCompactionWork without its I/O. Where an output is closed (before an entry,
      or when it is full) is left to the caller: no split changes the result. */
  method DoCompactionWork(c: Compaction, input: seq<Entry>, smallest: nat,
                          stopBefore: seq<bool>, full: seq<bool>, nextFile: nat)
    returns (outputs: seq<File>)
    requires c.Valid() && (input != [] ==> c.PointersBelow(input[0].ik.user))
    requires SortedEntries(input) && |stopBefore| == |full| == |input|
    requires InRange(input)
    requires smallest < MAX_SEQUENCE
    modifies c.levelPtrs
    ensures LevelSorted(outputs)
    ensures LevelContent(outputs) == Kept(EntrySet(input), smallest, BaseKeys(c.inputVersion, c.level))
    ensures Numbered(outputs, nextFile)
    ensures Tight(EntrySet(input), smallest, u => NothingBelow(c.inputVersion, c.level, u), LevelContent(outputs))
  {
    hide Kept, Dropped, Tight, LevelSorted, KeptPrefix;
    ghost var base := BaseKeys(c.inputVersion, c.level);
    outputs := [];
    var builder: seq<Entry> := [];
    var hasKey, currentKey, lastSequence := false, 0, MAX_SEQUENCE;
    ProgressStart(input, smallest, base, nextFile);
    for i := 0 to |input|
      invariant c.Valid() && (i < |input| ==> c.PointersBelow(input[i].ik.user))
      invariant Remembers(input, i, hasKey, currentKey, lastSequence)
      invariant Progress(input, i, smallest, base, outputs, builder, nextFile)
    {
      var e := input[i];
      if stopBefore[i] && builder != [] {
        outputs, builder := FinishOutput(input, i, smallest, base, outputs, builder, nextFile);
      }
      var drop := DropEntry(c, input, i, e, smallest, hasKey, currentKey, lastSequence);
      hasKey, currentKey, lastSequence := true, e.ik.user, e.ik.sequence;
      if i + 1 < |input| {
        assert Before(e.ik, input[i + 1].ik);
        c.PointersStayBelow(e.ik.user, input[i + 1].ik.user);
      }
      ProgressStep(input, i, smallest, base, outputs, builder, nextFile);
      if !drop {
        builder := builder + [e];
        if full[i] {
          outputs, builder := FinishOutput(input, i + 1, smallest, base, outputs, builder, nextFile);
        }
      }
    }
    if builder != [] {
      outputs, builder := FinishOutput(input, |input|, smallest, base, outputs, builder, nextFile);
    }
    KeptPrefixAll(input, smallest, base);
    SortedDistinct(input);
    KeptIsTight(EntrySet(input), smallest, base, u => NothingBelow(c.inputVersion, c.level, u));
  }

  /** No file two or more levels down covers the key. */
  ghost predicate NothingBelow(v: Version, level: nat, u: UserKey) {
    forall l, f | level + 2 <= l < NUM_LEVELS && f in v[l] :: u < f.Smallest().user || f.Largest().user < u
  }

  /** Outputs and builder together hold the kept entries among the first i. */
  ghost predicate Progress(input: seq<Entry>, i: nat, smallest: nat, base: iset<UserKey>,
                           outputs: seq<File>, builder: seq<Entry>, nextFile: nat)
    requires i <= |input|
  {
    && OutputsOrdered(outputs, builder) && Numbered(outputs, nextFile) && InRange(builder)
    && LevelContent(outputs) + EntrySet(builder) == KeptPrefix(input, i, smallest, base)
  }

  lemma ProgressStart(input: seq<Entry>, smallest: nat, base: iset<UserKey>, nextFile: nat)
    ensures Progress(input, 0, smallest, base, [], [], nextFile)
  {
  }

  lemma ProgressStep(input: seq<Entry>, i: nat, smallest: nat, base: iset<UserKey>,
                     outputs: seq<File>, builder: seq<Entry>, nextFile: nat)
    requires SortedEntries(input) && InRange(input) && i < |input|
    requires Progress(input, i, smallest, base, outputs, builder, nextFile)
    ensures Progress(input, i + 1, smallest, base, outputs,
                     if Dropped(input, smallest, base, input[i]) then builder else builder + [input[i]], nextFile)
  {
    KeptPrefixStep(input, i, smallest, base);
    AddKeepsOrder(input, i, smallest, base, outputs, builder);
  }

  ghost predicate Numbered(outputs: seq<File>, nextFile: nat) {
    forall i | 0 <= i < |outputs| :: outputs[i].number == nextFile + i
  }

  ghost predicate InRange(es: seq<Entry>) {
    forall k | 0 <= k < |es| :: es[k].ik.sequence <= MAX_SEQUENCE
  }

  method FinishOutput(ghost input: seq<Entry>, ghost i: nat, ghost smallest: nat, ghost base: iset<UserKey>,
                      outputs: seq<File>, builder: seq<Entry>, nextFile: nat)
    returns (r: seq<File>, empty: seq<Entry>)
    requires i <= |input| && builder != []
    requires Progress(input, i, smallest, base, outputs, builder, nextFile)
    ensures Progress(input, i, smallest, base, r, empty, nextFile) && empty == []
  {
    var f: File := FileData(nextFile + |outputs|, |builder|, builder);
    LevelContentAppend(outputs, f);
    r, empty := outputs + [f], [];
  }

  lemma KeptPrefixStep(input: seq<Entry>, i: nat, smallest: nat, base: iset<UserKey>)
    requires i < |input|
    ensures KeptPrefix(input, i + 1, smallest, base) == KeptPrefix(input, i, smallest, base) +
            if Dropped(input, smallest, base, input[i]) then {} else {input[i]}
  {
  }

  lemma KeptPrefixAll(input: seq<Entry>, smallest: nat, base: iset<UserKey>)
    ensures KeptPrefix(input, |input|, smallest, base) == Kept(EntrySet(input), smallest, base)
  {
  }

  lemma AddKeepsOrder(input: seq<Entry>, i: nat, smallest: nat, base: iset<UserKey>, outputs: seq<File>, builder: seq<Entry>)
    requires SortedEntries(input) && i < |input|
    requires OutputsOrdered(outputs, builder)
    requires LevelContent(outputs) + EntrySet(builder) == KeptPrefix(input, i, smallest, base)
    ensures OutputsOrdered(outputs, builder + [input[i]])
    ensures EntrySet(builder + [input[i]]) == EntrySet(builder) + {input[i]}
  {
    forall k | 0 <= k < |builder|
      ensures Before(builder[k].ik, input[i].ik)
    {
      assert builder[k] in KeptPrefix(input, i, smallest, base);
    }
    forall k | 0 <= k < |outputs|
      ensures Before(outputs[k].Largest(), input[i].ik)
    {
      var f := outputs[k];
      assert f in outputs && f.entries[|f.entries| - 1] in f.Content();
      InLevel(outputs, f.entries[|f.entries| - 1]);
      assert f.entries[|f.entries| - 1] in KeptPrefix(input, i, smallest, base);
    }
  }
}
