/** The version builder over all levels. */
module ManifestEdits {
  import opened VersionEdits
  import opened ManifestBuilding

  type FileLists = fs: seq<seq<FileMeta>> | |fs| == LEVELS witness [[], [], [], [], [], [], []]

  function AddedOn(pairs: seq<(nat, FileMeta)>, l: nat): set<FileMeta> {
    set i | 0 <= i < |pairs| && pairs[i].0 == l :: pairs[i].1
  }

  function DeletedOn(pairs: seq<(nat, nat)>, l: nat): set<nat> {
    set i | 0 <= i < |pairs| && pairs[i].0 == l :: pairs[i].1
  }

  /** What an edit does to one level. */
  function Part(e: Edit, l: nat): LevelEdit {
    LevelEdit(DeletedOn(e.deleted, l), AddedOn(e.added, l))
  }

  ghost predicate LevelsOk(e: Edit) {
    && (forall i | 0 <= i < |e.deleted| :: e.deleted[i].0 < LEVELS)
    && (forall i | 0 <= i < |e.added| :: e.added[i].0 < LEVELS)
    && (forall i | 0 <= i < |e.pointers| :: e.pointers[i].0 < LEVELS)
  }

  lemma AddedOneMore(pairs: seq<(nat, FileMeta)>, i: nat, l: nat)
    requires i < |pairs|
    ensures AddedOn(pairs[..i + 1], l) == if pairs[i].0 == l then AddedOn(pairs[..i], l) + {pairs[i].1} else AddedOn(pairs[..i], l)
  {
    var less, more := pairs[..i], pairs[..i + 1];
    assert more == less + [pairs[i]];
    forall f | f in AddedOn(less, l)
      ensures f in AddedOn(more, l)
    {
      var k :| 0 <= k < |less| && less[k].0 == l && less[k].1 == f;
      assert more[k] == less[k];
    }
    assert pairs[i].0 == l ==> more[i].1 in AddedOn(more, l);
  }

  lemma DeletedOneMore(pairs: seq<(nat, nat)>, i: nat, l: nat)
    requires i < |pairs|
    ensures DeletedOn(pairs[..i + 1], l) == DeletedOn(pairs[..i], l) + if pairs[i].0 == l then {pairs[i].1} else {}
  {
    var less, more := pairs[..i], pairs[..i + 1];
    assert more == less + [pairs[i]];
    forall n | n in DeletedOn(less, l)
      ensures n in DeletedOn(more, l)
    {
      var k :| 0 <= k < |less| && less[k].0 == l && less[k].1 == n;
      assert more[k] == less[k];
    }
    assert pairs[i].0 == l ==> more[i].1 in DeletedOn(more, l);
  }

  lemma NumbersAdd(fs: set<FileMeta>, f: FileMeta)
    ensures Numbers(fs + {f}) == Numbers(fs) + {f.number}
  {
    forall n | n in Numbers(fs)
      ensures n in Numbers(fs + {f})
    {
      var g :| g in fs && g.number == n;
      assert g in fs + {f};
    }
    assert f in fs + {f};
  }

  class Builder {
    const cmp: Comparator
    const base: FileLists
    var deleted: seq<set<nat>>
    var added: seq<seq<FileMeta>>

    ghost predicate Valid()
      reads this
    {
      && TotalOrder(cmp) && |deleted| == LEVELS && |added| == LEVELS
      && forall l | 0 <= l < LEVELS :: Sorted(cmp, base[l]) && Sorted(cmp, added[l])
    }

    function State(l: nat): LevelState
      reads this
      requires l < |deleted| && l < |added|
    {
      LevelState(deleted[l], Files(added[l]))
    }

    constructor (cmp: Comparator, base: FileLists)
      requires TotalOrder(cmp) && forall l | 0 <= l < LEVELS :: Sorted(cmp, base[l])
      ensures Valid() && this.base == base && this.cmp == cmp && forall l | 0 <= l < LEVELS :: State(l) == Fresh()
    {
      this.cmp, this.base := cmp, base;
      deleted, added := seq(LEVELS, _ => {}), seq(LEVELS, _ => []);
    }

    /** Builder::Apply, on the files. */
    method Apply(e: Edit)
      requires Valid() && LevelsOk(e)
      requires forall l | 0 <= l < LEVELS :: DistinctNumbers(Files(added[l]) + Part(e, l).added)
      modifies this
      ensures Valid() && forall l | 0 <= l < LEVELS :: State(l) == ApplyLevel(old(State(l)), Part(e, l))
    {
      for i := 0 to |e.deleted|
        modifies `deleted
        invariant |deleted| == LEVELS
        invariant forall l | 0 <= l < LEVELS :: deleted[l] == old(deleted[l]) + DeletedOn(e.deleted[..i], l)
      {
        var (level, number) := e.deleted[i];
        forall l | 0 <= l < LEVELS {
          DeletedOneMore(e.deleted, i, l);
        }
        deleted := deleted[level := deleted[level] + {number}];
      }
      assert e.deleted[..|e.deleted|] == e.deleted;
      ApplyAdded(e);
    }

    method ApplyAdded(e: Edit)
      requires Valid() && LevelsOk(e)
      requires forall l | 0 <= l < LEVELS :: DistinctNumbers(Files(added[l]) + Part(e, l).added)
      modifies this
      ensures Valid()
      ensures forall l | 0 <= l < LEVELS :: deleted[l] == old(deleted[l]) - Numbers(Part(e, l).added)
      ensures forall l | 0 <= l < LEVELS :: Files(added[l]) == old(Files(added[l])) + Part(e, l).added
    {
      hide TotalOrder, Sorted, Files, Numbers, AddedOn, DeletedOn, DistinctNumbers;
      NothingAdded(e.added);
      for i := 0 to |e.added|
        invariant Valid() && forall l | 0 <= l < LEVELS :: Progress(e, i, l, old(deleted[l]), old(added[l]), deleted[l], added[l])
      {
        var (level, f) := e.added[i];
        ProgressStep(e, i, level, old(deleted[level]), old(added[level]), deleted[level], added[level]);
        var files := InsertFile(cmp, added[level], f);
        forall l | 0 <= l < LEVELS && l != level
          ensures Progress(e, i + 1, l, old(deleted[l]), old(added[l]), deleted[l], added[l])
        {
          AddedOneMore(e.added, i, l);
        }
        AddedOneMore(e.added, i, level);
        NumbersAdd(AddedOn(e.added[..i], level), f);
        deleted := deleted[level := deleted[level] - {f.number}];
        added := added[level := files];
      }
      assert e.added[..|e.added|] == e.added;
    }
  }

  ghost predicate Progress(e: Edit, i: nat, l: nat, deleted0: set<nat>, added0: seq<FileMeta>, deleted: set<nat>, added: seq<FileMeta>)
    requires i <= |e.added|
  {
    && deleted == deleted0 - Numbers(AddedOn(e.added[..i], l))
    && Files(added) == Files(added0) + AddedOn(e.added[..i], l)
  }

  lemma NothingAdded(pairs: seq<(nat, FileMeta)>)
    ensures forall l: nat :: AddedOn(pairs[..0], l) == {} && Numbers(AddedOn(pairs[..0], l)) == {}
  {
  }

  lemma ProgressStep(e: Edit, i: nat, l: nat, deleted0: set<nat>, added0: seq<FileMeta>, deleted: set<nat>, added: seq<FileMeta>)
    requires i < |e.added| && e.added[i].0 == l && Progress(e, i, l, deleted0, added0, deleted, added)
    requires DistinctNumbers(Files(added0) + Part(e, l).added)
    ensures DistinctNumbers(Files(added) + {e.added[i].1})
  {
    forall f | f in AddedOn(e.added[..i], l)
      ensures f in AddedOn(e.added, l)
    {
      var k :| 0 <= k < i && e.added[..i][k].0 == l && e.added[..i][k].1 == f;
      assert e.added[k].1 == f;
    }
    assert e.added[i].1 in AddedOn(e.added, l);
  }
}
