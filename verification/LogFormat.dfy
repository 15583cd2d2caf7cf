/** The log file format: records cut into fragments that never cross a block boundary. */
module LogFormat {
  import opened Coding

  const BLOCK_SIZE: nat := 32768
  const HEADER_SIZE: nat := 7

  const FULL: nat := 1
  const FIRST: nat := 2
  const MIDDLE: nat := 3
  const LAST: nat := 4
  const END_OF_FILE: nat := 5
  const BAD_RECORD: nat := 6

  /** A checksum over the type byte and the payload. */
  type Checksum = Bytes -> Word

  const MASK_DELTA: nat := 0xa282ead8

  /** Stored checksums are rotated and shifted by a constant. */
  function Mask(crc: Word): Word {
    (crc / 0x8000 + crc % 0x8000 * 0x2_0000 + MASK_DELTA) % TWO32
  }

  function Unmask(masked: Word): Word {
    var rot := (masked - MASK_DELTA) % TWO32;
    rot / 0x2_0000 + rot % 0x2_0000 * 0x8000
  }

  lemma UnmaskMask(crc: Word)
    ensures Unmask(Mask(crc)) == crc
  {
    var rot := crc / 0x8000 + crc % 0x8000 * 0x2_0000;
    assert (Mask(crc) - MASK_DELTA) % TWO32 == rot;
    assert rot / 0x2_0000 == crc % 0x8000;
    assert rot % 0x2_0000 == crc / 0x8000;
  }

  function Header(crc: Checksum, kind: byte, payload: Bytes): (r: Bytes)
    requires |payload| <= 0xffff
    ensures |r| == HEADER_SIZE
  {
    Fixed32(Mask(crc([kind] + payload))) + [|payload| % 256, |payload| / 256, kind]
  }

  function Physical(crc: Checksum, kind: byte, payload: Bytes): (r: Bytes)
    requires |payload| <= 0xffff
    ensures |r| == HEADER_SIZE + |payload|
  {
    Header(crc, kind, payload) + payload
  }

  function Zeros(n: nat): (r: Bytes)
    ensures |r| == n
  {
    seq(n, i => 0)
  }

  /** Bytes left in the block when they are too few for a header; none otherwise. */
  function Trailer(off: nat): (r: nat)
    requires off <= BLOCK_SIZE
    ensures r < HEADER_SIZE
  {
    if BLOCK_SIZE - off < HEADER_SIZE then BLOCK_SIZE - off else 0
  }

  /** Where the next header goes. */
  function Start(off: nat): (r: nat)
    requires off <= BLOCK_SIZE
    ensures r + HEADER_SIZE <= BLOCK_SIZE
  {
    if BLOCK_SIZE - off < HEADER_SIZE then 0 else off
  }

  function Fits(off: nat, left: nat): (r: nat)
    requires off <= BLOCK_SIZE
    ensures r <= left && Start(off) + HEADER_SIZE + r <= BLOCK_SIZE
  {
    var avail := BLOCK_SIZE - Start(off) - HEADER_SIZE;
    if left < avail then left else avail
  }

  function KindOf(begin: bool, end: bool): (kind: byte)
    ensures 1 <= kind <= 4
  {
    if begin && end then FULL else if begin then FIRST else if end then LAST else MIDDLE
  }

  /** The bytes a record (or what is left of it) occupies from a block offset. */
  function Fragments(crc: Checksum, off: nat, data: Bytes, begin: bool): (r: Bytes)
    requires off <= BLOCK_SIZE
    ensures |r| >= HEADER_SIZE
    decreases |data|, BLOCK_SIZE - off
  {
    var n := Fits(off, |data|);
    var first := Zeros(Trailer(off)) + Physical(crc, KindOf(begin, n == |data|), data[..n]);
    if n == |data| then first else first + Fragments(crc, Start(off) + HEADER_SIZE + n, data[n..], false)
  }

  /** The block offset after it. */
  function After(off: nat, left: nat): (r: nat)
    requires off <= BLOCK_SIZE
    ensures r <= BLOCK_SIZE
    decreases left, BLOCK_SIZE - off
  {
    var n := Fits(off, left);
    if n == left then Start(off) + HEADER_SIZE + n else After(Start(off) + HEADER_SIZE + n, left - n)
  }

  /** A log holding these records. */
  function Log(crc: Checksum, off: nat, records: seq<Bytes>): Bytes
    requires off <= BLOCK_SIZE
    decreases |records|
  {
    if records == [] then []
    else Fragments(crc, off, records[0], true) + Log(crc, After(off, |records[0]|), records[1..])
  }

  /** How many records end at or before byte n. */
  function WholeRecords(crc: Checksum, off: nat, records: seq<Bytes>, n: nat): (k: nat)
    requires off <= BLOCK_SIZE
    ensures k <= |records|
    decreases |records|
  {
    if records == [] then 0
    else
      var size := |Fragments(crc, off, records[0], true)|;
      if n < size then 0 else 1 + WholeRecords(crc, After(off, |records[0]|), records[1..], n - size)
  }

  lemma {:induction false} WholeRecordsFit(crc: Checksum, off: nat, records: seq<Bytes>, n: nat)
    requires off <= BLOCK_SIZE
    ensures var k := WholeRecords(crc, off, records, n);
      && |Log(crc, off, records[..k])| <= n
      && (k < |records| ==> n < |Log(crc, off, records[..k + 1])|)
    decreases |records|
  {
    hide Fragments, After;
    if records != [] {
      var size := |Fragments(crc, off, records[0], true)|;
      var k := WholeRecords(crc, off, records, n);
      assert records[..1][0] == records[0] && records[..1][1..] == [];
      if n >= size {
        WholeRecordsFit(crc, After(off, |records[0]|), records[1..], n - size);
        assert records[..k][1..] == records[1..][..k - 1];
        if k < |records| {
          assert records[..k + 1][1..] == records[1..][..k];
        }
      }
    }
  }

  /** One round of the writer's loop. */
  lemma FirstFragment(crc: Checksum, off: nat, data: Bytes, begin: bool)
    requires off <= BLOCK_SIZE
    ensures var n := Fits(off, |data|);
      var off' := Start(off) + HEADER_SIZE + n;
      var rest := if n < |data| then Fragments(crc, off', data[n..], false) else [];
      && Fragments(crc, off, data, begin) == (Zeros(Trailer(off)) + Physical(crc, KindOf(begin, n == |data|), data[..n])) + rest
      && After(off, |data|) == (if n < |data| then After(off', |data[n..]|) else off')
  {
  }

  lemma Regroup(a: Bytes, b: Bytes, c: Bytes, d: Bytes)
    ensures a + ((b + c) + d) == ((a + b) + c) + d
  {
  }

  lemma Nested(a: Bytes, b: Bytes, c: Bytes, d: Bytes)
    ensures ((a + b) + c) + d == a + (b + (c + d))
  {
  }

  /** log::Writer: appends to a file, remembering the offset in its current block. */
  class Writer {
    const crc: Checksum
    var dest: Bytes
    var blockOffset: nat

    ghost predicate Valid()
      reads this
    {
      blockOffset <= BLOCK_SIZE
    }

    constructor (crc: Checksum, dest: Bytes)
      ensures Valid() && this.dest == dest && this.crc == crc && blockOffset == |dest| % BLOCK_SIZE
    {
      this.crc, this.dest, blockOffset := crc, dest, |dest| % BLOCK_SIZE;
    }

    method AddRecord(data: Bytes)
      requires Valid()
      modifies this
      ensures Valid() && dest == old(dest) + Fragments(crc, old(blockOffset), data, true)
      ensures blockOffset == After(old(blockOffset), |data|)
    {
      hide Fragments, After;
      var left := data;
      var begin := true;
      var more := true;
      ghost var whole := dest + Fragments(crc, blockOffset, data, true);
      ghost var next := After(blockOffset, |data|);
      while more
        invariant Valid()
        invariant whole == dest + if more then Fragments(crc, blockOffset, left, begin) else []
        invariant next == if more then After(blockOffset, |left|) else blockOffset
        decreases more, |left|, BLOCK_SIZE - blockOffset
      {
        left, more := AddFragment(left, begin);
        begin := false;
      }
    }

    /** One round: as much of the record as the block takes. */
    method AddFragment(left: Bytes, begin: bool) returns (rest: Bytes, more: bool)
      requires Valid()
      modifies this
      ensures Valid() && more == (rest != [])
      ensures dest + (if more then Fragments(crc, blockOffset, rest, false) else [])
           == old(dest) + Fragments(crc, old(blockOffset), left, begin)
      ensures (if more then After(blockOffset, |rest|) else blockOffset) == After(old(blockOffset), |left|)
      ensures |rest| < |left| || !more || (rest == left && blockOffset > old(blockOffset))
    {
      hide Fragments, After, Physical, Zeros;
      FirstFragment(crc, blockOffset, left, begin);
      SwitchBlock();
      var avail := BLOCK_SIZE - blockOffset - HEADER_SIZE;
      var length := if |left| < avail then |left| else avail;
      var end := |left| == length;
      var kind: byte := if begin && end then FULL else if begin then FIRST else if end then LAST else MIDDLE;
      EmitPhysicalRecord(kind, left[..length]);
      rest, more := left[length..], length < |left|;
      Regroup(old(dest), Zeros(Trailer(old(blockOffset))), Physical(crc, kind, left[..length]),
              if more then Fragments(crc, blockOffset, rest, false) else []);
    }

    /** Fill a trailer too short for a header and go to the next block. */
    method SwitchBlock()
      requires Valid()
      modifies this
      ensures dest == old(dest) + Zeros(Trailer(old(blockOffset))) && blockOffset == Start(old(blockOffset))
    {
      var leftover := BLOCK_SIZE - blockOffset;
      if leftover < HEADER_SIZE {
        if leftover > 0 {
          dest := dest + Zeros(leftover);
        }
        blockOffset := 0;
      }
    }

    method EmitPhysicalRecord(kind: byte, payload: Bytes)
      requires blockOffset + HEADER_SIZE + |payload| <= BLOCK_SIZE
      modifies this
      ensures dest == old(dest) + Physical(crc, kind, payload)
      ensures blockOffset == old(blockOffset) + HEADER_SIZE + |payload| <= BLOCK_SIZE
    {
      var header := Fixed32(Mask(crc([kind] + payload))) + [|payload| % 256, |payload| / 256, kind];
      dest := dest + header;
      dest := dest + payload;
      blockOffset := blockOffset + HEADER_SIZE + |payload|;
    }
  }
}
