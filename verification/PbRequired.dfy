/** The bitmap of required fields seen. A word is the set of its one bits. */
module PbRequired {
  import opened PbTypes
  import opened PbFieldIter
  import opened PbDecoding

  type Bitmap = seq<set<nat>>

  function FirstBits(n: nat): (r: set<nat>)
    ensures forall b: nat :: b in r <==> b < n
  {
    if n == 0 then {} else FirstBits(n - 1) + {n - 1}
  }

  /** Bit p over all words. */
  predicate Bit(words: Bitmap, p: nat)
    requires |words| == 2 && p < MAX_REQUIRED
  {
    p % 32 in words[p / 32]
  }

  /** Only bits of required fields are set. */
  ghost predicate Bounded(words: Bitmap, count: nat) {
    |words| == 2 && forall w, b :: 0 <= w < 2 && b in words[w] ==> b < 32 && 32 * w + b < count
  }

  ghost predicate Full(words: Bitmap, count: nat)
    requires |words| == 2
  {
    forall p: nat :: p < count && p < MAX_REQUIRED ==> Bit(words, p)
  }

  method SetBit(words: Bitmap, p: nat) returns (r: Bitmap)
    requires |words| == 2 && p < MAX_REQUIRED
    ensures |r| == 2 && forall q: nat :: q < MAX_REQUIRED ==> (Bit(r, q) <==> q == p || Bit(words, q))
    ensures forall count: nat :: Bounded(words, count) && p < count ==> Bounded(r, count)
  {
    r := words[p / 32 := words[p / 32] + {p % 32}];
    forall q: nat | q < MAX_REQUIRED ensures Bit(r, q) <==> q == p || Bit(words, q) {
      assert q / 32 == p / 32 && q % 32 == p % 32 ==> q == p;
    }
  }

  /** Whole words are compared with all ones, the last one with as many ones as are left. */
  method Complete(words: Bitmap, count: nat) returns (ok: bool)
    requires Bounded(words, count)
    ensures ok <==> Full(words, count)
  {
    var n := if count > MAX_REQUIRED then MAX_REQUIRED else count;
    var i: nat := 0;
    while i < n / 32
      invariant i <= n / 32
      invariant forall p: nat :: p < 32 * i ==> Bit(words, p)
    {
      if words[i] != FirstBits(32) {
        MissingBit(words, i, 32, count);
        return false;
      }
      forall p: nat | p < 32 * (i + 1) ensures Bit(words, p) {
        assert p / 32 == i ==> p % 32 in FirstBits(32);
      }
      i := i + 1;
    }
    if n % 32 != 0 && words[n / 32] != FirstBits(n % 32) {
      MissingBit(words, n / 32, n % 32, count);
      return false;
    }
    forall p: nat | p < n ensures Bit(words, p) {
      assert p >= 32 * i ==> p / 32 == n / 32 && p % 32 in FirstBits(n % 32);
    }
    return true;
  }

  /** A word that is not full lacks a bit, since it has none too many. */
  lemma MissingBit(words: Bitmap, w: nat, n: nat, count: nat)
    requires Bounded(words, count) && w < 2 && 0 < n <= 32 && 32 * w + n <= count
    requires n == 32 || count == 32 * w + n
    requires words[w] != FirstBits(n)
    ensures !Full(words, count)
  {
    assert words[w] <= FirstBits(n);
    var b: nat :| b in FirstBits(n) && b !in words[w];
    var p: nat := 32 * w + b;
    assert p / 32 == w && p % 32 == b;
    assert !Bit(words, p);
  }

  // ----- Bits and fields -----

  lemma {:induction false} RequiredGrows(fields: seq<Field>, i: nat, j: nat)
    requires i <= j <= |fields|
    ensures RequiredBefore(fields, i) <= RequiredBefore(fields, j)
    decreases j
  {
    if i < j {
      RequiredGrows(fields, i, j - 1);
    }
  }

  /** Required fields have bits of their own. */
  lemma RequiredIsDistinct(fields: seq<Field>, i: nat, j: nat)
    requires i < |fields| && j < |fields| && i != j
    requires fields[i].htype.Required? && fields[j].htype.Required?
    ensures RequiredBefore(fields, i) != RequiredBefore(fields, j)
  {
    if i < j {
      RequiredGrows(fields, i + 1, j);
    } else {
      RequiredGrows(fields, j + 1, i);
    }
  }

  lemma RequiredIsCounted(fields: seq<Field>, i: nat)
    requires i < |fields| && fields[i].htype.Required?
    ensures RequiredBefore(fields, i) < RequiredBefore(fields, |fields|)
  {
    RequiredGrows(fields, i + 1, |fields|);
  }

  lemma {:induction false} BitHasField(fields: seq<Field>, p: nat, n: nat) returns (i: nat)
    requires n <= |fields| && p < RequiredBefore(fields, n)
    ensures i < n && fields[i].htype.Required? && RequiredBefore(fields, i) == p
    decreases n
  {
    if p < RequiredBefore(fields, n - 1) {
      i := BitHasField(fields, p, n - 1);
    } else {
      i := n - 1;
    }
  }

  /** The bitmap says which of the tracked required fields were seen. */
  ghost predicate Tracks(fields: seq<Field>, words: Bitmap, seen: set<nat>) {
    Bounded(words, RequiredBefore(fields, |fields|)) &&
    forall i :: 0 <= i < |fields| && fields[i].htype.Required? && RequiredBefore(fields, i) < MAX_REQUIRED ==>
      (i in seen <==> Bit(words, RequiredBefore(fields, i)))
  }

  method Track(fields: seq<Field>, words: Bitmap, i: nat, ghost seen: set<nat>) returns (r: Bitmap)
    requires i < |fields| && fields[i].htype.Required? && Tracks(fields, words, seen)
    ensures Tracks(fields, r, seen + {i})
  {
    var p := RequiredBefore(fields, i);
    r := words;
    RequiredIsCounted(fields, i);
    forall j | 0 <= j < |fields| && fields[j].htype.Required? && j != i
      ensures RequiredBefore(fields, j) != p
    {
      RequiredIsDistinct(fields, i, j);
    }
    if p < MAX_REQUIRED {
      r := SetBit(words, p);
    }
  }

  /** The bits are complete exactly if every tracked required field was seen. */
  lemma CompleteIsSeen(fields: seq<Field>, words: Bitmap, seen: set<nat>)
    requires Tracks(fields, words, seen)
    ensures Full(words, RequiredBefore(fields, |fields|)) <==> RequiredSeen(fields, seen)
  {
    var count := RequiredBefore(fields, |fields|);
    if Full(words, count) {
      forall i | 0 <= i < |fields| && fields[i].htype.Required? && RequiredBefore(fields, i) < MAX_REQUIRED
        ensures i in seen
      {
        RequiredIsCounted(fields, i);
        assert Bit(words, RequiredBefore(fields, i));
      }
    }
    if RequiredSeen(fields, seen) {
      forall p: nat | p < count && p < MAX_REQUIRED ensures Bit(words, p) {
        var i := BitHasField(fields, p, |fields|);
      }
    }
  }

  /** Run the cursor to the end to count the required fields. */
  method CountRequired(iter: FieldIter) returns (n: nat)
    requires iter.Valid() && WellFormed(iter.fields)
    modifies iter
    ensures n == RequiredBefore(iter.fields, |iter.fields|)
  {
    var more := true;
    var lastRequired := true;
    n := 0;
    while more
      invariant iter.Valid()
      invariant !more ==> iter.pos == 0 && n == RequiredBefore(iter.fields, if iter.fields == [] then 0 else |iter.fields| - 1)
      invariant !more && iter.fields != [] ==> lastRequired == iter.fields[|iter.fields| - 1].htype.Required?
      decreases more, |iter.fields| - iter.pos
    {
      n := iter.required;
      lastRequired := iter.fields == [] || iter.fields[iter.pos].htype.Required?;
      more := iter.Next();
    }
    assert iter.fields != [] ==> FieldWellFormed(iter.fields[0]);
    if lastRequired && iter.TagAt(iter.pos) != 0 {
      n := n + 1;
    }
  }
}
