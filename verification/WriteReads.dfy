/** What a write stores: read right after it, every key it names answers with its last update. */
module WriteReads {
  import opened DbFormat
  import opened MultiVersion
  import opened Store
  import opened StoreInvariant
  import opened StoreReads

  /** Update i is the last one of its key in the batch. */
  ghost predicate LastUpdate(batch: seq<Update>, u: UserKey, i: nat) {
    i < |batch| && batch[i].key == u && forall k | i < k < |batch| :: batch[k].key != u
  }

  ghost predicate Named(batch: seq<Update>, u: UserKey) {
    exists i :: 0 <= i < |batch| && batch[i].key == u
  }

  function UpdateAnswer(x: Update): Answer {
    if x.kind.Value? then Answer.Ok(x.value) else NotFound
  }

  /** The answers before and after a batch, key by key. */
  ghost predicate ReadsBack(before: State, batch: seq<Update>, after: State) {
    forall u ::
      && (forall i: nat | i < |batch| && LastUpdate(batch, u, i) :: Read(after, u, after.lastSequence) == UpdateAnswer(batch[i]))
      && (!Named(batch, u) ==> Read(after, u, after.lastSequence) == Read(before, u, before.lastSequence))
  }

  lemma BatchEntry(batch: seq<Update>, first: nat, i: nat)
    requires i < |batch|
    ensures var e := BatchEntries(batch, first)[i];
      e in EntrySet(BatchEntries(batch, first)) && Report(e).Answer() == UpdateAnswer(batch[i])
  {
  }

  lemma LastIsNewest(all: set<Entry>, batch: seq<Update>, last: nat, u: UserKey, i: nat)
    requires LastUpdate(batch, u, i) && Bounded(all, last)
    requires Distinct(all + EntrySet(BatchEntries(batch, last + 1)))
    ensures Newest(all + EntrySet(BatchEntries(batch, last + 1)), u, last + |batch|).Answer() == UpdateAnswer(batch[i])
  {
    var es := BatchEntries(batch, last + 1);
    var whole := all + EntrySet(es);
    var e := es[i];
    BatchEntry(batch, last + 1, i);
    forall x | x in whole && VisibleAt(x, u, last + |batch|)
      ensures x.ik.sequence <= e.ik.sequence
    {
      if x in EntrySet(es) {
        var k :| 0 <= k < |es| && es[k] == x;
        assert batch[k].key == u;
      }
    }
    assert IsNewest(whole, u, last + |batch|, e);
    NewestIs(whole, u, last + |batch|, e);
  }

  lemma UnnamedIsUnchanged(all: set<Entry>, batch: seq<Update>, last: nat, u: UserKey)
    requires !Named(batch, u) && Bounded(all, last) && Distinct(all)
    requires Distinct(all + EntrySet(BatchEntries(batch, last + 1)))
    ensures Newest(all + EntrySet(BatchEntries(batch, last + 1)), u, last + |batch|) == Newest(all, u, last)
  {
    var es := BatchEntries(batch, last + 1);
    forall x | x in EntrySet(es) ensures !VisibleAt(x, u, last + |batch|) {
      var k :| 0 <= k < |es| && es[k] == x;
      assert batch[k].key != u;
    }
    NewestMissing(EntrySet(es), u, last + |batch|);
    OnTop(all, EntrySet(es), last, u, last + |batch|);
  }

  lemma WriteFacts(s: State, batch: seq<Update>, s': State)
    requires Inv(s) && Step(s, DoWrite(batch), s')
    ensures s'.All() == s.All() + EntrySet(BatchEntries(batch, s.lastSequence + 1))
    ensures s'.lastSequence == s.lastSequence + |batch| && Bounded(s.All(), s.lastSequence)
    ensures Distinct(s.All()) && Distinct(s'.All())
  {
    hide Layered, JobOk, BatchEntries, AddAll, Bounded;
    var added := WriteKeepsInv(s, batch, s');
    InvDistinct(s);
    InvDistinct(s');
  }

  lemma LastReadsBack(s: State, batch: seq<Update>, s': State, u: UserKey, i: nat)
    requires Inv(s) && Step(s, DoWrite(batch), s') && i < |batch| && LastUpdate(batch, u, i)
    ensures Read(s', u, s'.lastSequence) == UpdateAnswer(batch[i])
  {
    hide Inv, Step, BatchEntries, Bounded, EntrySet, Newest, Distinct, LastUpdate;
    WriteFacts(s, batch, s');
    LastIsNewest(s.All(), batch, s.lastSequence, u, i);
  }

  lemma UnnamedReadsBack(s: State, batch: seq<Update>, s': State, u: UserKey)
    requires Inv(s) && Step(s, DoWrite(batch), s') && !Named(batch, u)
    ensures Read(s', u, s'.lastSequence) == Read(s, u, s.lastSequence)
  {
    hide Inv, Step, BatchEntries, Bounded, EntrySet, Newest, Distinct, Named;
    WriteFacts(s, batch, s');
    UnnamedIsUnchanged(s.All(), batch, s.lastSequence, u);
  }

  /** Right after a write, a key reads as the last update the batch holds for it: its value, or
      nothing after a deletion. Keys the batch does not name read as before. */
  lemma WriteReadsBack(s: State, batch: seq<Update>, s': State)
    requires Inv(s) && Step(s, DoWrite(batch), s')
    ensures ReadsBack(s, batch, s')
  {
    hide Inv, Step, LastUpdate, Named, Read;
    forall u, i: nat | i < |batch| && LastUpdate(batch, u, i)
      ensures Read(s', u, s'.lastSequence) == UpdateAnswer(batch[i])
    {
      LastReadsBack(s, batch, s', u, i);
    }
    forall u | !Named(batch, u)
      ensures Read(s', u, s'.lastSequence) == Read(s, u, s.lastSequence)
    {
      UnnamedReadsBack(s, batch, s', u);
    }
  }
}
