/** The cursor over a descriptor, which wraps around at the terminator. */
module PbFieldIter {
  import opened PbTypes

  class FieldIter {
    const fields: seq<Field>
    var pos: nat
    var required: nat

    /** The cursor stands on a field, or on the terminator of an empty descriptor, and counts the
        required fields before it. */
    ghost predicate Valid()
      reads this
    {
      (if fields == [] then pos == 0 else pos < |fields|) && required == RequiredBefore(fields, pos)
    }

    function TagAt(i: nat): nat {
      if i < |fields| then fields[i].tag else 0
    }

    constructor (fields: seq<Field>)
      ensures Valid() && this.fields == fields && pos == 0
    {
      this.fields := fields;
      pos, required := 0, 0;
    }

    method Begin() returns (any: bool)
      modifies this
      ensures Valid() && pos == 0 && any == (fields != [])
    {
      pos, required := 0, 0;
      return fields != [];
    }

    /** Step to the next field; false on returning to the first. */
    method Next() returns (more: bool)
      requires Valid()
      modifies this
      ensures Valid() && more == (old(pos) + 1 < |fields|)
      ensures pos == if more then old(pos) + 1 else 0
    {
      if fields == [] {
        return false;
      }
      if pos + 1 == |fields| {
        var _ := Begin();
        return false;
      }
      if fields[pos].htype.Required? {
        required := required + 1;
      }
      pos := pos + 1;
      return true;
    }

    /** Search once around, from the current field on. Tag 0 finds the terminator of an empty
        descriptor. */
    method Find(tag: nat) returns (found: bool)
      requires Valid()
      modifies this
      ensures Valid()
      ensures found ==> TagAt(pos) == tag
      ensures !found ==> pos == old(pos) && TagAt(pos) != tag && forall k :: 0 <= k < |fields| ==> fields[k].tag != tag
    {
      var start := pos;
      var wrapped := false;
      while true
        invariant Valid() && start == old(pos) && (fields == [] ==> start == 0)
        invariant fields != [] ==> start < |fields|
        invariant if wrapped then pos < start else start <= pos
        invariant forall k :: 0 <= k < |fields| && (if wrapped then k >= start || k < pos else start <= k < pos) ==> fields[k].tag != tag
        decreases if wrapped then 0 else 1, |fields| - pos
      {
        if TagAt(pos) == tag {
          return true;
        }
        var more := Next();
        if !more {
          wrapped := true;
        }
        if pos == start {
          return false;
        }
      }
    }
  }

  /** With distinct tags, where the search started does not matter. */
  lemma FindIsIndex(fields: seq<Field>, tag: nat, i: nat)
    requires WellFormed(fields) && i < |fields| && fields[i].tag == tag
    ensures Index(fields, tag) == i
  {
  }
}
