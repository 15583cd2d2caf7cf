/** Reading a log back, and what a log cut short at any byte still yields. */
module LogReader {
  import opened Basics
  import opened Coding
  import opened LogFormat

  /** The reader's buffer, whether the last read came up short, and the file beyond it. */
  datatype Input = Input(buffer: Bytes, eof: bool, rest: Bytes) {
    function Unread(): Bytes {
      buffer + rest
    }

    function Skip(): Input {
      this.(buffer := [])
    }
  }

  function Opened(file: Bytes): Input {
    Input([], false, file)
  }

  function Refill(s: Input): Input {
    var n := if |s.rest| < BLOCK_SIZE then |s.rest| else BLOCK_SIZE;
    Input(s.rest[..n], n < BLOCK_SIZE, s.rest[n..])
  }

  function Filled(s: Input): (r: Input)
    ensures |r.Unread()| <= |s.Unread()|
    ensures |r.buffer| < HEADER_SIZE ==> r.eof
  {
    if |s.buffer| < HEADER_SIZE && !s.eof then Refill(s) else s
  }

  /** One physical record, the input after it, and the drops reported on the way. */
  datatype Piece = Piece(kind: nat, fragment: Bytes, input: Input, drops: seq<nat>)

  function LengthField(b: Bytes): nat
    requires |b| >= HEADER_SIZE
  {
    b[4] as int + 256 * b[5] as int
  }

  function ParsePhysical(crc: Checksum, f: Input): (p: Piece)
    requires |f.buffer| >= HEADER_SIZE
    ensures |p.input.Unread()| < |f.Unread()|
  {
    var length := LengthField(f.buffer);
    var kind := f.buffer[6];
    if HEADER_SIZE + length > |f.buffer| then
      if !f.eof then Piece(BAD_RECORD, [], f.Skip(), [|f.buffer|]) else Piece(END_OF_FILE, [], f.Skip(), [])
    else if kind == 0 && length == 0 then Piece(BAD_RECORD, [], f.Skip(), [])
    else if Unmask(FromFixed(f.buffer[..4]) % TWO32) != crc(f.buffer[6..HEADER_SIZE + length]) then
      Piece(BAD_RECORD, [], f.Skip(), [|f.buffer|])
    else Piece(kind, f.buffer[HEADER_SIZE..HEADER_SIZE + length], f.(buffer := f.buffer[HEADER_SIZE + length..]), [])
  }

  function NextPhysical(crc: Checksum, s: Input): (p: Piece)
    ensures p.kind != END_OF_FILE ==> |p.input.Unread()| < |s.Unread()|
  {
    var f := Filled(s);
    if |f.buffer| < HEADER_SIZE then Piece(END_OF_FILE, [], f.Skip(), []) else ParsePhysical(crc, f)
  }

  /** One logical record, or none before the end of the file. */
  datatype Outcome = Outcome(record: Option<Bytes>, input: Input, drops: seq<nat>) {
    function After(earlier: seq<nat>): Outcome {
      this.(drops := earlier + drops)
    }
  }

  function IfPartial(inFragment: bool, scratch: Bytes): seq<nat> {
    if inFragment && scratch != [] then [|scratch|] else []
  }

  function NextRecord(crc: Checksum, s: Input, inFragment: bool, scratch: Bytes): (r: Outcome)
    ensures r.record.Some? ==> |r.input.Unread()| < |s.Unread()|
    decreases |s.Unread()|
  {
    var p := NextPhysical(crc, s);
    if p.kind == FULL then
      Outcome(Some(p.fragment), p.input, p.drops + IfPartial(inFragment, scratch))
    else if p.kind == FIRST then
      NextRecord(crc, p.input, true, p.fragment).After(p.drops + IfPartial(inFragment, scratch))
    else if p.kind == MIDDLE && inFragment then
      NextRecord(crc, p.input, true, scratch + p.fragment).After(p.drops)
    else if p.kind == LAST && inFragment then
      Outcome(Some(scratch + p.fragment), p.input, p.drops)
    else if p.kind == MIDDLE || p.kind == LAST then
      NextRecord(crc, p.input, false, scratch).After(p.drops + [|p.fragment|])
    else if p.kind == END_OF_FILE then
      Outcome(None, p.input, p.drops)
    else if p.kind == BAD_RECORD then
      if inFragment then NextRecord(crc, p.input, false, []).After(p.drops + [|scratch|])
      else NextRecord(crc, p.input, false, scratch).After(p.drops)
    else
      NextRecord(crc, p.input, false, []).After(p.drops + [|p.fragment| + if inFragment then |scratch| else 0])
  }

  /** What one physical record does to a logical one under way: it ends it, or it goes on. */
  datatype Absorbed =
    | Finish(record: Option<Bytes>, drops: seq<nat>)
    | GoOn(inFragment: bool, scratch: Bytes, drops: seq<nat>)

  function Absorb(kind: nat, fragment: Bytes, inFragment: bool, scratch: Bytes): (r: Absorbed)
    ensures r.GoOn? ==> kind != END_OF_FILE
  {
    if kind == FULL then Finish(Some(fragment), IfPartial(inFragment, scratch))
    else if kind == FIRST then GoOn(true, fragment, IfPartial(inFragment, scratch))
    else if kind == MIDDLE && inFragment then GoOn(true, scratch + fragment, [])
    else if kind == LAST && inFragment then Finish(Some(scratch + fragment), [])
    else if kind == MIDDLE || kind == LAST then GoOn(false, scratch, [|fragment|])
    else if kind == END_OF_FILE then Finish(None, [])
    else if kind == BAD_RECORD then
      if inFragment then GoOn(false, [], [|scratch|]) else GoOn(false, scratch, [])
    else GoOn(false, [], [|fragment| + if inFragment then |scratch| else 0])
  }

  lemma NextAbsorbs(crc: Checksum, s: Input, inFragment: bool, scratch: Bytes)
    ensures var p := NextPhysical(crc, s);
      NextRecord(crc, s, inFragment, scratch) ==
        match Absorb(p.kind, p.fragment, inFragment, scratch)
        case Finish(record, drops) => Outcome(record, p.input, p.drops + drops)
        case GoOn(more, gathered, drops) => NextRecord(crc, p.input, more, gathered).After(p.drops + drops)
  {
    hide NextPhysical;
    var drops := NextPhysical(crc, s).drops;
    assert drops + [] == drops;
  }

  // ----- Only intact records come back -----

  /** A physical record as it stands in a file: at a position, of a kind, with a payload. */
  datatype Stored = Stored(pos: nat, kind: nat, payload: Bytes) {
    function End(): nat {
      pos + HEADER_SIZE + |payload|
    }
  }

  /** Its header is there, holds its length and kind, and stores the masked checksum of the kind
      and the payload. */
  ghost predicate Intact(crc: Checksum, file: Bytes, p: Stored) {
    && p.kind < 256 && p.End() <= |file|
    && file[p.pos + 4] as int + 256 * file[p.pos + 5] as int == |p.payload|
    && file[p.pos + 6] as int == p.kind
    && file[p.pos + HEADER_SIZE..p.End()] == p.payload
    && FromFixed(file[p.pos..p.pos + 4]) == Mask(crc([p.kind] + p.payload))
  }

  /** The bytes the reader looks at next: what is buffered, or the next block. */
  function Ahead(s: Input): Bytes {
    if |s.buffer| >= HEADER_SIZE || s.eof then s.buffer
    else s.rest[..if |s.rest| < BLOCK_SIZE then |s.rest| else BLOCK_SIZE]
  }

  /** They start with a whole record whose stored checksum is not that of its contents. */
  ghost predicate Damaged(crc: Checksum, b: Bytes) {
    && |b| >= HEADER_SIZE
    && var length := b[4] as int + 256 * b[5] as int;
       && HEADER_SIZE + length <= |b| && (b[6] != 0 || length != 0)
       && FromFixed(b[..4]) != Mask(crc([b[6]] + b[HEADER_SIZE..HEADER_SIZE + length]))
  }

  /** What was consumed is an intact record at the front of what lies ahead, and the input goes
      on right behind it. */
  ghost predicate Taken(crc: Checksum, s: Input, kind: nat, fragment: Bytes, s': Input) {
    && Intact(crc, Ahead(s), Stored(0, kind, fragment))
    && s'.buffer == Ahead(s)[HEADER_SIZE + |fragment|..]
    && s'.rest == (if |s.buffer| >= HEADER_SIZE || s.eof then s.rest else s.rest[|Ahead(s)|..])
  }

  lemma MaskUnmask(x: Word)
    ensures Mask(Unmask(x)) == x
  {
    var rot := (x - MASK_DELTA) % TWO32;
    var c := Unmask(x);
    assert c / 0x8000 == rot % 0x2_0000;
    assert c % 0x8000 == rot / 0x2_0000;
  }

  lemma ChecksumField(crc: Checksum, b: Bytes, length: nat)
    requires HEADER_SIZE + length <= |b|
    ensures b[6..HEADER_SIZE + length] == [b[6]] + b[HEADER_SIZE..HEADER_SIZE + length]
    ensures Unmask(FromFixed(b[..4]) % TWO32) == crc(b[6..HEADER_SIZE + length])
       <==> FromFixed(b[..4]) == Mask(crc(b[6..HEADER_SIZE + length]))
  {
    FourBytes(b[..4]);
    hide FromFixed, Mask, Unmask;
    MaskUnmask(FromFixed(b[..4]));
    UnmaskMask(crc(b[6..HEADER_SIZE + length]));
  }

  lemma FourBytes(b: Bytes)
    requires |b| == 4
    ensures FromFixed(b) < TWO32 && FromFixed(b) % TWO32 == FromFixed(b)
  {
    FixedIsBounded(b);
    PowersOf256();
    hide FromFixed, Pow;
  }

  /** What a read of one physical record returns is an intact record of the input, unless the
      reader reports an end or a bad record of its own. */
  lemma PhysicalIsIntact(crc: Checksum, s: Input)
    ensures var p := NextPhysical(crc, s);
      p.kind != END_OF_FILE && p.kind != BAD_RECORD ==> Taken(crc, s, p.kind, p.fragment, p.input) && p.drops == []
  {
    var f := Filled(s);
    assert f.buffer == Ahead(s);
    if |f.buffer| >= HEADER_SIZE && HEADER_SIZE + LengthField(f.buffer) <= |f.buffer| {
      ChecksumField(crc, f.buffer, LengthField(f.buffer));
      hide Mask, Unmask, FromFixed;
      assert f.buffer[0..4] == f.buffer[..4];
    }
  }

  /** A record whose checksum does not match is refused with the rest of its block, whose size
      is reported. */
  lemma DamagedIsRefused(crc: Checksum, s: Input)
    requires Damaged(crc, Ahead(s))
    ensures var p := NextPhysical(crc, s);
      && p.kind == BAD_RECORD && p.fragment == [] && p.drops == [|Ahead(s)|]
      && p.input.buffer == []
      && p.input.rest == (if |s.buffer| >= HEADER_SIZE || s.eof then s.rest else s.rest[|Ahead(s)|..])
  {
    var f := Filled(s);
    assert f.buffer == Ahead(s);
    ChecksumField(crc, f.buffer, LengthField(f.buffer));
    hide Mask, Unmask, FromFixed;
  }

  /** So a logical record never uses anything of that block. */
  lemma DamagedIsSkipped(crc: Checksum, s: Input, inFragment: bool, scratch: Bytes)
    requires Damaged(crc, Ahead(s))
    ensures var p := NextPhysical(crc, s);
      && p.input.buffer == [] && |p.input.rest| <= |s.rest|
      && NextRecord(crc, s, inFragment, scratch)
         == NextRecord(crc, p.input, false, if inFragment then [] else scratch)
            .After([|Ahead(s)|] + if inFragment then [|scratch|] else [])
  {
    DamagedIsRefused(crc, s);
    NextAbsorbs(crc, s, inFragment, scratch);
    hide NextPhysical, NextRecord;
    assert [|Ahead(s)|] + [] == [|Ahead(s)|];
  }

  function Payloads(ps: seq<Stored>): Bytes
    decreases |ps|
  {
    if ps == [] then [] else Payloads(ps[..|ps| - 1]) + ps[|ps| - 1].payload
  }

  /** Intact records of the file one behind the other. */
  ghost predicate InFile(crc: Checksum, file: Bytes, ps: seq<Stored>, end: nat) {
    && (forall i | 0 <= i < |ps| :: Intact(crc, file, ps[i]) && ps[i].End() <= end)
    && forall i, j | 0 <= i < j < |ps| :: ps[i].End() <= ps[j].pos
  }

  /** A whole record, or one from its first piece to its last. */
  ghost predicate Pieces(ps: seq<Stored>) {
    if |ps| == 1 then ps[0].kind == FULL
    else |ps| > 1 && ps[0].kind == FIRST && ps[|ps| - 1].kind == LAST && forall i | 0 < i < |ps| - 1 :: ps[i].kind == MIDDLE
  }

  /** Pieces of a record gathered so far. */
  ghost predicate Gathered(ps: seq<Stored>, scratch: Bytes) {
    && ps != [] && ps[0].kind == FIRST && (forall i | 0 < i < |ps| :: ps[i].kind == MIDDLE)
    && Payloads(ps) == scratch
  }

  /** The record is put together from intact pieces of the file. */
  ghost predicate MadeOf(crc: Checksum, file: Bytes, ps: seq<Stored>, record: Bytes) {
    InFile(crc, file, ps, |file|) && Pieces(ps) && record == Payloads(ps)
  }

  lemma SliceOfSuffix(file: Bytes, d: nat, i: nat, j: nat)
    requires d <= |file| && i <= j <= |file| - d
    ensures file[d..][i..j] == file[d + i..d + j] && file[d..][i..] == file[d + i..]
  {
  }

  /** The trailer skipped before the bytes ahead. */
  function Skipped(s: Input): nat {
    if |s.buffer| >= HEADER_SIZE || s.eof then 0 else |s.buffer|
  }

  lemma FilledIsAhead(s: Input)
    ensures Filled(s).buffer == Ahead(s) && Filled(s).Unread() == s.Unread()[Skipped(s)..]
    ensures Skipped(s) + |Ahead(s)| <= |s.Unread()| && s.Unread()[Skipped(s)..Skipped(s) + |Ahead(s)|] == Ahead(s)
  {
    assert s.Unread()[0..] == s.Unread() && s.Unread()[|s.buffer|..] == s.rest;
  }

  lemma NextFromFilled(crc: Checksum, s: Input)
    ensures var p, f := NextPhysical(crc, s), Filled(s);
      && |p.input.buffer| <= |f.buffer| && p.input.rest == f.rest
      && p.input.buffer == f.buffer[|f.buffer| - |p.input.buffer|..]
  {
    hide Unmask, FromFixed;
  }

  lemma UnreadSuffix(crc: Checksum, s: Input)
    ensures var p := NextPhysical(crc, s);
      |p.input.Unread()| <= |s.Unread()| && p.input.Unread() == s.Unread()[|s.Unread()| - |p.input.Unread()|..]
  {
    FilledIsAhead(s);
    NextFromFilled(crc, s);
    hide NextPhysical, Filled, Ahead;
    var p, f := NextPhysical(crc, s), Filled(s);
    var k := |f.buffer| - |p.input.buffer|;
    assert f.Unread()[k..] == p.input.Unread();
    SliceOfSuffix(s.Unread(), Skipped(s), k, |f.Unread()|);
  }

  /** Where in the file the piece just read stands. */
  lemma PieceInFile(crc: Checksum, file: Bytes, s: Input, d: nat) returns (piece: Stored)
    requires d <= |file| && s.Unread() == file[d..]
    requires var p := NextPhysical(crc, s); p.kind != END_OF_FILE && p.kind != BAD_RECORD
    ensures var p := NextPhysical(crc, s);
      && piece.kind == p.kind && piece.payload == p.fragment && Intact(crc, file, piece)
      && d <= piece.pos && piece.End() == |file| - |p.input.Unread()|
  {
    PhysicalIsIntact(crc, s);
    FilledIsAhead(s);
    hide NextPhysical, Filled, Ahead, Intact, Taken;
    var p, b := NextPhysical(crc, s), Ahead(s);
    TakenLength(crc, s, p.kind, p.fragment, p.input);
    piece := Stored(d + Skipped(s), p.kind, p.fragment);
    SliceOfSuffix(file, d, Skipped(s), Skipped(s) + |b|);
    Moved(crc, file, b, d + Skipped(s), p.kind, p.fragment);
  }

  lemma TakenLength(crc: Checksum, s: Input, kind: nat, fragment: Bytes, s': Input)
    requires Taken(crc, s, kind, fragment, s')
    ensures Intact(crc, Ahead(s), Stored(0, kind, fragment))
    ensures |s'.Unread()| == |s.Unread()| - Skipped(s) - HEADER_SIZE - |fragment|
  {
    PieceFits(crc, Ahead(s), kind, fragment);
    hide Intact;
  }

  lemma PieceFits(crc: Checksum, b: Bytes, kind: nat, payload: Bytes)
    requires Intact(crc, b, Stored(0, kind, payload))
    ensures HEADER_SIZE + |payload| <= |b|
  {
  }

  lemma Moved(crc: Checksum, file: Bytes, b: Bytes, at: nat, kind: nat, payload: Bytes)
    requires at + |b| <= |file| && file[at..at + |b|] == b && Intact(crc, b, Stored(0, kind, payload))
    ensures Intact(crc, file, Stored(at, kind, payload))
  {
    var n := HEADER_SIZE + |payload|;
    assert forall i | 0 <= i < n :: file[at + i] == b[i];
    assert file[at + HEADER_SIZE..at + n] == b[HEADER_SIZE..n];
    assert file[at..at + 4] == b[0..4];
  }

  lemma PieceAdded(crc: Checksum, file: Bytes, ps: seq<Stored>, end: nat, piece: Stored)
    requires InFile(crc, file, ps, end) && Intact(crc, file, piece) && end <= piece.pos
    ensures InFile(crc, file, ps + [piece], piece.End())
    ensures Payloads(ps + [piece]) == Payloads(ps) + piece.payload
  {
    assert (ps + [piece])[..|ps|] == ps;
    hide Intact;
  }

  lemma {:induction false} RecordMadeOf(crc: Checksum, file: Bytes, s: Input, d: nat, inFragment: bool, scratch: Bytes, ps: seq<Stored>)
    returns (whole: seq<Stored>)
    requires d <= |file| && s.Unread() == file[d..]
    requires inFragment ==> InFile(crc, file, ps, d) && Gathered(ps, scratch)
    requires NextRecord(crc, s, inFragment, scratch).record.Some?
    ensures MadeOf(crc, file, whole, NextRecord(crc, s, inFragment, scratch).record.value)
    decreases |s.Unread()|
  {
    var p := NextPhysical(crc, s);
    NextAbsorbs(crc, s, inFragment, scratch);
    UnreadSuffix(crc, s);
    var d' := |file| - |p.input.Unread()|;
    hide NextPhysical, NextRecord, Intact, InFile, Gathered, Payloads, Pieces;
    if p.kind == FULL || p.kind == FIRST || ((p.kind == MIDDLE || p.kind == LAST) && inFragment) {
      var piece := PieceInFile(crc, file, s, d);
      if p.kind == FULL {
        AlonePiece(crc, file, piece);
        whole := [piece];
      } else if p.kind == FIRST {
        AlonePiece(crc, file, piece);
        whole := RecordMadeOf(crc, file, p.input, d', true, p.fragment, [piece]);
      } else {
        PieceAdded(crc, file, ps, d, piece);
        PieceJoins(ps, scratch, piece);
        if p.kind == MIDDLE {
          whole := RecordMadeOf(crc, file, p.input, d', true, scratch + p.fragment, ps + [piece]);
        } else {
          whole := ps + [piece];
          UpToEnd(crc, file, whole, piece.End());
        }
      }
    } else {
      var a := Absorb(p.kind, p.fragment, inFragment, scratch);
      whole := RecordMadeOf(crc, file, p.input, d', false, a.scratch, []);
    }
  }

  lemma AlonePiece(crc: Checksum, file: Bytes, piece: Stored)
    requires Intact(crc, file, piece)
    ensures InFile(crc, file, [piece], piece.End()) && InFile(crc, file, [piece], |file|)
    ensures piece.kind == FIRST ==> Gathered([piece], piece.payload)
    ensures piece.kind == FULL ==> Pieces([piece])
    ensures Payloads([piece]) == piece.payload
  {
    assert [piece][..0] == [] && [] + piece.payload == piece.payload;
  }

  lemma PieceJoins(ps: seq<Stored>, scratch: Bytes, piece: Stored)
    requires Gathered(ps, scratch) && (piece.kind == MIDDLE || piece.kind == LAST)
    ensures piece.kind == MIDDLE ==> Gathered(ps + [piece], scratch + piece.payload)
    ensures piece.kind == LAST ==> Pieces(ps + [piece]) && Payloads(ps + [piece]) == scratch + piece.payload
  {
    assert (ps + [piece])[..|ps|] == ps;
  }

  lemma UpToEnd(crc: Checksum, file: Bytes, ps: seq<Stored>, end: nat)
    requires InFile(crc, file, ps, end) && end <= |file|
    ensures InFile(crc, file, ps, |file|)
  {
  }

  /** Every record returned is put together from intact pieces of the input, in order. */
  lemma RecordsAreIntact(crc: Checksum, s: Input)
    ensures var o := NextRecord(crc, s, false, []);
      o.record.Some? ==> exists ps :: MadeOf(crc, s.Unread(), ps, o.record.value)
  {
    if NextRecord(crc, s, false, []).record.Some? {
      assert s.Unread()[0..] == s.Unread();
      var ps := RecordMadeOf(crc, s.Unread(), s, 0, false, [], []);
    }
  }

  /** log::Reader over one file, from its start. */
  class Reader {
    const crc: Checksum
    var buffer: Bytes
    var eof: bool
    var rest: Bytes
    /** The sizes passed to the reporter so far. */
    var drops: seq<nat>

    ghost function Abs(): Input
      reads this
    {
      Input(buffer, eof, rest)
    }

    constructor (crc: Checksum, file: Bytes)
      ensures Abs() == Opened(file) && drops == [] && this.crc == crc
    {
      this.crc, buffer, eof, rest, drops := crc, [], false, file, [];
    }

    method Report(bytes: nat)
      modifies `drops
      ensures drops == old(drops) + [bytes]
    {
      drops := drops + [bytes];
    }

    method ReadPhysicalRecord() returns (kind: nat, fragment: Bytes)
      modifies this
      ensures var p := NextPhysical(crc, old(Abs()));
        kind == p.kind && fragment == p.fragment && Abs() == p.input && drops == old(drops) + p.drops
      ensures kind != END_OF_FILE && kind != BAD_RECORD ==> Taken(crc, old(Abs()), kind, fragment, Abs()) && drops == old(drops)
      ensures Damaged(crc, Ahead(old(Abs()))) ==>
                kind == BAD_RECORD && buffer == [] && drops == old(drops) + [|Ahead(old(Abs()))|]
    {
      PhysicalIsIntact(crc, Abs());
      if Damaged(crc, Ahead(Abs())) {
        DamagedIsRefused(crc, Abs());
      }
      kind, fragment := ParseNext();
    }

    method ParseNext() returns (kind: nat, fragment: Bytes)
      modifies this
      ensures var p := NextPhysical(crc, old(Abs()));
        kind == p.kind && fragment == p.fragment && Abs() == p.input && drops == old(drops) + p.drops
    {
      fragment := [];
      while |buffer| < HEADER_SIZE
        invariant Filled(Abs()) == Filled(old(Abs())) && drops == old(drops)
        decreases if |buffer| >= HEADER_SIZE then 0 else if eof then 1 else 2
      {
        if eof {
          buffer := [];
          return END_OF_FILE, [];
        }
        var n := if |rest| < BLOCK_SIZE then |rest| else BLOCK_SIZE;
        buffer, rest := rest[..n], rest[n..];
        eof := n < BLOCK_SIZE;
      }
      var length := buffer[4] as int + 256 * buffer[5] as int;
      kind := buffer[6];
      if HEADER_SIZE + length > |buffer| {
        var dropSize := |buffer|;
        buffer := [];
        if !eof {
          Report(dropSize);
          return BAD_RECORD, [];
        }
        return END_OF_FILE, [];
      }
      if kind == 0 && length == 0 {
        buffer := [];
        return BAD_RECORD, [];
      }
      var expected := Unmask(FromFixed(buffer[..4]) % TWO32);
      if crc(buffer[6..HEADER_SIZE + length]) != expected {
        var dropSize := |buffer|;
        buffer := [];
        Report(dropSize);
        return BAD_RECORD, [];
      }
      fragment := buffer[HEADER_SIZE..HEADER_SIZE + length];
      buffer := buffer[HEADER_SIZE + length..];
    }

    method ReadRecord() returns (record: Option<Bytes>)
      modifies this
      ensures var r := NextRecord(crc, old(Abs()), false, []);
        record == r.record && Abs() == r.input && drops == old(drops) + r.drops
      ensures record.Some? ==> exists ps :: MadeOf(crc, old(Abs()).Unread(), ps, record.value)
    {
      hide NextPhysical, NextRecord, Absorb, MadeOf, Ahead, Damaged, Taken;
      RecordsAreIntact(crc, Abs());
      var scratch: Bytes := [];
      var inFragment := false;
      ghost var r := NextRecord(crc, Abs(), false, []);
      ghost var reports := drops + r.drops;
      while true
        invariant AsExpected(r, reports, NextRecord(crc, Abs(), inFragment, scratch), drops)
        decreases |Abs().Unread()|
      {
        NextAbsorbs(crc, Abs(), inFragment, scratch);
        var kind, fragment := ReadPhysicalRecord();
        var a := AbsorbPiece(kind, fragment, inFragment, scratch);
        match a
        case Finish(whole, _) => return whole;
        case GoOn(more, gathered, _) => inFragment, scratch := more, gathered;
      }
    }

    method AbsorbPiece(kind: nat, fragment: Bytes, inFragment: bool, scratch: Bytes) returns (a: Absorbed)
      modifies `drops
      ensures a == Absorb(kind, fragment, inFragment, scratch) && drops == old(drops) + a.drops
    {
      if kind == FULL {
        ReportPartial(inFragment, scratch);
        return Finish(Some(fragment), IfPartial(inFragment, scratch));
      } else if kind == FIRST {
        ReportPartial(inFragment, scratch);
        return GoOn(true, fragment, IfPartial(inFragment, scratch));
      } else if kind == MIDDLE || kind == LAST {
        if !inFragment {
          Report(|fragment|);
          return GoOn(false, scratch, [|fragment|]);
        } else if kind == MIDDLE {
          return GoOn(true, scratch + fragment, []);
        }
        return Finish(Some(scratch + fragment), []);
      } else if kind == END_OF_FILE {
        return Finish(None, []);
      } else if kind == BAD_RECORD {
        if inFragment {
          Report(|scratch|);
          return GoOn(false, [], [|scratch|]);
        }
        return GoOn(false, scratch, []);
      }
      var size := |fragment| + if inFragment then |scratch| else 0;
      Report(size);
      return GoOn(false, [], [size]);
    }

    /** A record that starts inside another one reports the abandoned part. */
    method ReportPartial(inFragment: bool, scratch: Bytes)
      modifies `drops
      ensures drops == old(drops) + IfPartial(inFragment, scratch)
    {
      if inFragment && scratch != [] {
        Report(|scratch|);
      }
    }
  }

  ghost predicate AsExpected(r: Outcome, reports: seq<nat>, t: Outcome, drops: seq<nat>) {
    t.record == r.record && t.input == r.input && drops + t.drops == reports
  }

  // ----- Reading what a writer wrote -----

  /** The reader stands at this offset of a block, with the rest of the block buffered. */
  ghost predicate StateAt(s: Input, off: nat) {
    && off <= BLOCK_SIZE
    && if s.eof then s.rest == [] && |s.buffer| <= BLOCK_SIZE - off else |s.buffer| == BLOCK_SIZE - off
  }

  /** These are the first n bytes of the whole. */
  ghost predicate Cut(u: Bytes, whole: Bytes, n: int) {
    0 <= n <= |whole| && u == whole[..n]
  }

  lemma FilledAt(s: Input, off: nat, more: Bytes, n: nat)
    requires StateAt(s, off) && n <= Trailer(off) + |more|
    requires s.Unread() == (Zeros(Trailer(off)) + more)[..n]
    ensures var f := Filled(s);
      if n < Trailer(off) then |f.buffer| < HEADER_SIZE
      else (|f.buffer| < HEADER_SIZE ==> n - Trailer(off) < HEADER_SIZE) &&
           (|f.buffer| >= HEADER_SIZE ==> StateAt(f, Start(off)) && f.Unread() == more[..n - Trailer(off)])
  {
    var all := Zeros(Trailer(off)) + more;
    if Trailer(off) <= n {
      assert all[..n] == Zeros(Trailer(off)) + more[..n - Trailer(off)];
      if |s.buffer| < HEADER_SIZE && !s.eof {
        assert s.buffer == s.Unread()[..|s.buffer|];
        assert s.rest == s.Unread()[|s.buffer|..];
        assert s.rest == more[..n - Trailer(off)];
        assert Refill(s).Unread() == s.rest;
      }
    }
  }

  lemma HeaderFields(crc: Checksum, kind: byte, payload: Bytes, b: Bytes)
    requires |payload| <= 0xffff && |b| >= HEADER_SIZE
    requires forall i | 0 <= i < HEADER_SIZE :: b[i] == Physical(crc, kind, payload)[i]
    ensures LengthField(b) == |payload| && b[6] == kind && FromFixed(b[..4]) == Mask(crc([kind] + payload))
  {
    var h := Header(crc, kind, payload);
    assert forall i | 0 <= i < HEADER_SIZE :: Physical(crc, kind, payload)[i] == h[i];
    assert b[..4] == Fixed32(Mask(crc([kind] + payload)));
  }

  lemma PhysicalRead(crc: Checksum, s: Input, off: nat, kind: byte, payload: Bytes, tail: Bytes, n: int)
    requires off <= BLOCK_SIZE && StateAt(s, off) && 1 <= kind <= 4 && Start(off) + HEADER_SIZE + |payload| <= BLOCK_SIZE
    requires Cut(s.Unread(), Zeros(Trailer(off)) + (Physical(crc, kind, payload) + tail), n)
    ensures var p := NextPhysical(crc, s);
      var size := Trailer(off) + HEADER_SIZE + |payload|;
      if n < size then p.kind == END_OF_FILE && p.drops == []
      else p == Piece(kind, payload, p.input, []) && StateAt(p.input, Start(off) + HEADER_SIZE + |payload|)
           && Cut(p.input.Unread(), tail, n - size)
  {
    FilledAt(s, off, Physical(crc, kind, payload) + tail, n);
    var f := Filled(s);
    if |f.buffer| >= HEADER_SIZE {
      PhysicalParsed(crc, f, Start(off), kind, payload, tail, n - Trailer(off));
    }
  }

  lemma PhysicalParsed(crc: Checksum, f: Input, off: nat, kind: byte, payload: Bytes, tail: Bytes, n: nat)
    requires StateAt(f, off) && 1 <= kind <= 4 && off + HEADER_SIZE + |payload| <= BLOCK_SIZE
    requires n <= HEADER_SIZE + |payload| + |tail| && |f.buffer| >= HEADER_SIZE
    requires f.Unread() == (Physical(crc, kind, payload) + tail)[..n]
    ensures var p := ParsePhysical(crc, f);
      var size := HEADER_SIZE + |payload|;
      if n < size then p.kind == END_OF_FILE && p.drops == []
      else p == Piece(kind, payload, p.input, []) && StateAt(p.input, off + size) && p.input.Unread() == tail[..n - size]
  {
    hide Physical, ParsePhysical;
    var whole := Physical(crc, kind, payload) + tail;
    var size := HEADER_SIZE + |payload|;
    var b := f.buffer;
    assert b == whole[..|b|] by { assert b == f.Unread()[..|b|]; }
    if size <= |b| {
      assert b[..size] == Physical(crc, kind, payload);
      ParsedWhole(crc, f, kind, payload);
      assert b[size..] + f.rest == f.Unread()[size..] == tail[..n - size];
    } else {
      assert b == Physical(crc, kind, payload)[..|b|];
      ParsedCut(crc, f, kind, payload);
    }
  }

  lemma ParsedWhole(crc: Checksum, f: Input, kind: byte, payload: Bytes)
    requires 1 <= kind && |payload| <= 0xffff
    requires HEADER_SIZE + |payload| <= |f.buffer| && f.buffer[..HEADER_SIZE + |payload|] == Physical(crc, kind, payload)
    ensures ParsePhysical(crc, f) == Piece(kind, payload, f.(buffer := f.buffer[HEADER_SIZE + |payload|..]), [])
  {
    hide Physical, FromFixed, Mask, Unmask, LengthField;
    var size := HEADER_SIZE + |payload|;
    assert forall i | 0 <= i < HEADER_SIZE :: f.buffer[i] == f.buffer[..size][i];
    HeaderFields(crc, kind, payload, f.buffer);
    PhysicalSlices(crc, kind, payload, f.buffer);
    UnmaskMask(crc([kind] + payload));
  }

  lemma ParsedCut(crc: Checksum, f: Input, kind: byte, payload: Bytes)
    requires f.eof && |payload| <= 0xffff
    requires HEADER_SIZE <= |f.buffer| < HEADER_SIZE + |payload| && f.buffer == Physical(crc, kind, payload)[..|f.buffer|]
    ensures ParsePhysical(crc, f) == Piece(END_OF_FILE, [], f.Skip(), [])
  {
    hide Physical, FromFixed, Mask, Unmask, LengthField;
    HeaderFields(crc, kind, payload, f.buffer);
  }

  lemma PhysicalSlices(crc: Checksum, kind: byte, payload: Bytes, b: Bytes)
    requires |payload| <= 0xffff && HEADER_SIZE + |payload| <= |b|
    requires b[..HEADER_SIZE + |payload|] == Physical(crc, kind, payload)
    ensures b[6..HEADER_SIZE + |payload|] == [kind] + payload && b[HEADER_SIZE..HEADER_SIZE + |payload|] == payload
  {
    var size := HEADER_SIZE + |payload|;
    var whole := Physical(crc, kind, payload);
    assert b[HEADER_SIZE..size] == whole[HEADER_SIZE..] && whole[HEADER_SIZE..] == payload;
    assert b[6] == whole[6] == kind;
    assert b[6..size] == [b[6]] + b[HEADER_SIZE..size];
  }

  /** The record was cut off, or it was read and what follows it is left. */
  ghost predicate RecordResult(r: Outcome, record: Bytes, off: nat, tail: Bytes, left: int) {
    if left < 0 then r.record == None && r.drops == []
    else r == Outcome(Some(record), r.input, []) && StateAt(r.input, off) && Cut(r.input.Unread(), tail, left)
  }

  ghost function RestAfter(crc: Checksum, off: nat, data: Bytes): Bytes
    requires off <= BLOCK_SIZE
  {
    var k := Fits(off, |data|);
    if k < |data| then Fragments(crc, Start(off) + HEADER_SIZE + k, data[k..], false) else []
  }

  /** How many of the n bytes lie beyond the record's first piece. */
  ghost function Beyond(crc: Checksum, off: nat, data: Bytes, begin: bool, n: int): int
    requires off <= BLOCK_SIZE
  {
    n - (|Fragments(crc, off, data, begin)| - |RestAfter(crc, off, data)|)
  }

  lemma FirstPieceBytes(crc: Checksum, off: nat, data: Bytes, begin: bool, tail: Bytes)
    requires off <= BLOCK_SIZE
    ensures var k := Fits(off, |data|);
      var more := RestAfter(crc, off, data);
      var first := Physical(crc, KindOf(begin, k == |data|), data[..k]);
      && Fragments(crc, off, data, begin) + tail == Zeros(Trailer(off)) + (first + (more + tail))
      && |Fragments(crc, off, data, begin)| == Trailer(off) + |first| + |more|
  {
    FirstFragment(crc, off, data, begin);
    hide Fragments, LogFormat.After, Physical, Zeros, Trailer, KindOf, Fits, Start;
    var k := Fits(off, |data|);
    Nested(Zeros(Trailer(off)), Physical(crc, KindOf(begin, k == |data|), data[..k]), RestAfter(crc, off, data), tail);
  }

  lemma FirstPieceRead(crc: Checksum, s: Input, off: nat, data: Bytes, begin: bool, tail: Bytes, n: int)
    requires off <= BLOCK_SIZE && StateAt(s, off) && Cut(s.Unread(), Fragments(crc, off, data, begin) + tail, n)
    ensures var p := NextPhysical(crc, s);
      var k := Fits(off, |data|);
      var left := Beyond(crc, off, data, begin, n);
      if left < 0 then p.kind == END_OF_FILE && p.drops == []
      else p == Piece(KindOf(begin, k == |data|), data[..k], p.input, []) && StateAt(p.input, Start(off) + HEADER_SIZE + k)
           && Cut(p.input.Unread(), RestAfter(crc, off, data) + tail, left)
  {
    FirstPieceBytes(crc, off, data, begin, tail);
    hide Fragments, Physical, NextPhysical, Zeros, Trailer, StateAt, KindOf, Fits, Start, Cut, RestAfter;
    var k := Fits(off, |data|);
    PhysicalRead(crc, s, off, KindOf(begin, k == |data|), data[..k], RestAfter(crc, off, data) + tail, n);
  }

  /** How a record is put together from the piece just read. */
  lemma PieceJoined(crc: Checksum, s: Input, begin: bool, end: bool, scratch: Bytes)
    requires begin ==> scratch == []
    ensures var p := NextPhysical(crc, s);
      && (p.kind == END_OF_FILE ==> NextRecord(crc, s, !begin, scratch) == Outcome(None, p.input, p.drops))
      && (p.kind == KindOf(begin, end) && p.drops == [] ==>
            if end then NextRecord(crc, s, !begin, scratch) == Outcome(Some(scratch + p.fragment), p.input, [])
            else NextRecord(crc, s, !begin, scratch) == NextRecord(crc, p.input, true, scratch + p.fragment))
  {
    hide NextPhysical;
    var p := NextPhysical(crc, s);
    if begin {
      assert scratch + p.fragment == p.fragment;
    }
    if p.kind == KindOf(begin, end) && p.drops == [] && !end {
      var next := NextRecord(crc, p.input, true, scratch + p.fragment);
      assert next.After([]) == next;
    }
  }

  lemma Joined(scratch: Bytes, data: Bytes, k: nat)
    requires k <= |data|
    ensures (scratch + data[..k]) + data[k..] == scratch + data
    ensures k == |data| ==> data[..k] == data
  {
  }

  lemma {:induction false} RecordRead(crc: Checksum, s: Input, off: nat, data: Bytes, begin: bool, scratch: Bytes, tail: Bytes, n: int)
    requires off <= BLOCK_SIZE && StateAt(s, off) && (begin ==> scratch == [])
    requires Cut(s.Unread(), Fragments(crc, off, data, begin) + tail, n)
    ensures RecordResult(NextRecord(crc, s, !begin, scratch), scratch + data, After(off, |data|), tail,
                         n - |Fragments(crc, off, data, begin)|)
    decreases |data|, BLOCK_SIZE - off
  {
    hide Cut, StateAt, NextRecord, NextPhysical, KindOf, Fragments, LogFormat.After;
    var k := Fits(off, |data|);
    FirstPieceRead(crc, s, off, data, begin, tail, n);
    FirstFragment(crc, off, data, begin);
    PieceJoined(crc, s, begin, k == |data|, scratch);
    Joined(scratch, data, k);
    var left := Beyond(crc, off, data, begin, n);
    if k < |data| && left >= 0 {
      var p := NextPhysical(crc, s);
      RecordRead(crc, p.input, Start(off) + HEADER_SIZE + k, data[k..], false, scratch + data[..k], tail, left);
    } else if k == |data| {
      assert RestAfter(crc, off, data) + tail == tail;
    }
  }

  lemma WholeRecordRead(crc: Checksum, s: Input, off: nat, data: Bytes, tail: Bytes, n: int)
    requires off <= BLOCK_SIZE && StateAt(s, off) && Cut(s.Unread(), Fragments(crc, off, data, true) + tail, n)
    ensures RecordResult(NextRecord(crc, s, false, []), data, After(off, |data|), tail, n - |Fragments(crc, off, data, true)|)
  {
    hide *;
    RecordRead(crc, s, off, data, true, [], tail, n);
    assert [] + data == data;
  }

  /** Everything a reader returns before the end of its input. */
  function ReadLog(crc: Checksum, s: Input): (r: (seq<Bytes>, seq<nat>))
    decreases |s.Unread()|
  {
    var o := NextRecord(crc, s, false, []);
    if o.record.None? then ([], o.drops)
    else
      var more := ReadLog(crc, o.input);
      ([o.record.value] + more.0, o.drops + more.1)
  }

  /** A log cut at any byte yields exactly the records that end before the cut, and nothing
      is reported as corrupt. */
  lemma {:induction false} TruncatedLog(crc: Checksum, s: Input, off: nat, records: seq<Bytes>, n: nat)
    requires off <= BLOCK_SIZE && StateAt(s, off) && Cut(s.Unread(), Log(crc, off, records), n)
    ensures ReadLog(crc, s) == (records[..WholeRecords(crc, off, records, n)], [])
    decreases |records|
  {
    hide NextRecord, Fragments, LogFormat.After, StateAt;
    assert records[..0] == [];
    if records == [] {
      AtEnd(crc, s);
    } else {
      var size := |Fragments(crc, off, records[0], true)|;
      var off' := After(off, |records[0]|);
      WholeRecordRead(crc, s, off, records[0], Log(crc, off', records[1..]), n);
      if n >= size {
        var o := NextRecord(crc, s, false, []);
        TruncatedLog(crc, o.input, off', records[1..], n - size);
        var k := WholeRecords(crc, off, records, n);
        assert o.record == Some(records[0]) && o.drops == [];
        var more := ReadLog(crc, o.input);
        assert more == (records[1..][..k - 1], []);
        assert o.drops + more.1 == more.1;
        assert ReadLog(crc, s) == ([records[0]] + more.0, more.1);
        assert records[..k] == [records[0]] + records[1..][..k - 1];
      } else {
        assert NextRecord(crc, s, false, []).record == None;
        assert ReadLog(crc, s) == ([], []);
        assert WholeRecords(crc, off, records, n) == 0;
      }
    }
  }

  lemma AtEnd(crc: Checksum, s: Input)
    requires s.Unread() == []
    ensures ReadLog(crc, s) == ([], [])
  {
  }

  lemma SameOffsets(size: nat)
    ensures Start(0) == Start(BLOCK_SIZE) && Trailer(0) == Trailer(BLOCK_SIZE) && Fits(0, size) == Fits(BLOCK_SIZE, size)
  {
  }

  lemma SameFragments(crc: Checksum, record: Bytes)
    ensures Fragments(crc, 0, record, true) == Fragments(crc, BLOCK_SIZE, record, true)
  {
    SameOffsets(|record|);
    hide Physical, KindOf, Zeros, Start, Trailer, Fits;
  }

  lemma SameAfter(size: nat)
    ensures LogFormat.After(0, size) == LogFormat.After(BLOCK_SIZE, size)
  {
    SameOffsets(size);
    hide Start, Trailer, Fits;
  }

  /** A file starts like a block whose predecessor is full. */
  lemma StartOfFile(crc: Checksum, records: seq<Bytes>, n: nat)
    ensures Log(crc, 0, records) == Log(crc, BLOCK_SIZE, records)
    ensures WholeRecords(crc, 0, records, n) == WholeRecords(crc, BLOCK_SIZE, records, n)
  {
    hide Fragments, LogFormat.After;
    if records != [] {
      SameFragments(crc, records[0]);
      SameAfter(|records[0]|);
    }
  }

  lemma TruncatedFile(crc: Checksum, records: seq<Bytes>, n: nat)
    requires n <= |Log(crc, 0, records)|
    ensures ReadLog(crc, Opened(Log(crc, 0, records)[..n])) == (records[..WholeRecords(crc, 0, records, n)], [])
  {
    StartOfFile(crc, records, n);
    TruncatedLog(crc, Opened(Log(crc, 0, records)[..n]), BLOCK_SIZE, records, n);
  }

  /** With no cut, every record written comes back. */
  lemma WholeFile(crc: Checksum, records: seq<Bytes>)
    ensures ReadLog(crc, Opened(Log(crc, 0, records))) == (records, [])
  {
    var file := Log(crc, 0, records);
    TruncatedFile(crc, records, |file|);
    AllWhole(crc, 0, records);
    assert file[..|file|] == file && records[..|records|] == records;
  }

  lemma {:induction false} AllWhole(crc: Checksum, off: nat, records: seq<Bytes>)
    requires off <= BLOCK_SIZE
    ensures WholeRecords(crc, off, records, |Log(crc, off, records)|) == |records|
    decreases |records|
  {
    if records != [] {
      AllWhole(crc, After(off, |records[0]|), records[1..]);
    }
  }

  function AfterAll(off: nat, records: seq<Bytes>): (r: nat)
    requires off <= BLOCK_SIZE
    ensures r <= BLOCK_SIZE
    decreases |records|
  {
    if records == [] then off else AfterAll(After(off, |records[0]|), records[1..])
  }

  /** Adding a record to a log file keeps it a log file: what Writer.AddRecord appends. */
  lemma {:induction false} LogAppend(crc: Checksum, off: nat, records: seq<Bytes>, r: Bytes)
    requires off <= BLOCK_SIZE
    ensures Log(crc, off, records + [r]) == Log(crc, off, records) + Fragments(crc, AfterAll(off, records), r, true)
    ensures AfterAll(off, records + [r]) == After(AfterAll(off, records), |r|)
    decreases |records|
  {
    hide Fragments, LogFormat.After;
    if records == [] {
      assert (records + [r])[1..] == [];
    } else {
      LogAppend(crc, After(off, |records[0]|), records[1..], r);
      assert (records + [r])[1..] == records[1..] + [r];
    }
  }
}
