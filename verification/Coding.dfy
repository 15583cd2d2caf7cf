/** Fixed-width, variable-length and length-prefixed encodings. */
module Coding {
  import opened Basics

  type byte = x: int | 0 <= x < 256
  type Bytes = seq<byte>

  const TWO32: nat := 0x1_0000_0000
  const TWO64: nat := 0x1_0000_0000_0000_0000

  type Word = x: int | 0 <= x < TWO32

  function Pow(b: nat, n: nat): nat {
    if n == 0 then 1 else b * Pow(b, n - 1)
  }

  /** A parsed value and the input after it. */
  datatype Parsed<+T> = Parsed(value: T, rest: Bytes)

  // ----- Fixed width, least significant byte first -----

  function Fixed(v: nat, n: nat): (r: Bytes)
    ensures |r| == n
  {
    if n == 0 then [] else [v % 256] + Fixed(v / 256, n - 1)
  }

  function FromFixed(b: Bytes): nat {
    if b == [] then 0 else b[0] + 256 * FromFixed(b[1..])
  }

  lemma {:induction false} FixedRoundTrip(v: nat, n: nat)
    requires v < Pow(256, n)
    ensures FromFixed(Fixed(v, n)) == v
  {
    if n > 0 {
      assert v < 256 * Pow(256, n - 1);
      FixedRoundTrip(v / 256, n - 1);
      assert Fixed(v, n)[1..] == Fixed(v / 256, n - 1);
    }
  }

  lemma {:induction false} FixedIsBounded(b: Bytes)
    ensures FromFixed(b) < Pow(256, |b|)
    ensures Fixed(FromFixed(b), |b|) == b
  {
    if b != [] {
      FixedIsBounded(b[1..]);
      var v := FromFixed(b);
      assert v % 256 == b[0] && v / 256 == FromFixed(b[1..]);
      assert b == [b[0]] + b[1..];
    }
  }

  lemma PowersOf256()
    ensures Pow(256, 1) == 256 && Pow(256, 2) == 0x1_0000 && Pow(256, 4) == TWO32 && Pow(256, 8) == TWO64
  {
    assert Pow(256, 3) == 0x100_0000;
    assert Pow(256, 4) == TWO32;
    assert Pow(256, 6) == 0x1_0000_0000_0000;
  }

  function Fixed32(v: Word): (r: Bytes)
    ensures |r| == 4 && FromFixed(r) == v
  {
    PowersOf256();
    FixedRoundTrip(v, 4);
    Fixed(v, 4)
  }

  function Fixed64(v: nat): (r: Bytes)
    requires v < TWO64
    ensures |r| == 8 && FromFixed(r) == v
  {
    PowersOf256();
    FixedRoundTrip(v, 8);
    Fixed(v, 8)
  }

  /** 32-bit numbers one after the other. */
  function FixedArray(xs: seq<nat>): (r: Bytes)
    ensures |r| == 4 * |xs|
  {
    if xs == [] then [] else FixedArray(xs[..|xs| - 1]) + Fixed(xs[|xs| - 1], 4)
  }

  lemma {:induction false} ArrayElement(xs: seq<nat>, i: nat)
    requires i < |xs|
    ensures FixedArray(xs)[4 * i..4 * i + 4] == Fixed(xs[i], 4)
  {
    var n := |xs| - 1;
    if i < n {
      ArrayElement(xs[..n], i);
      assert FixedArray(xs)[4 * i..4 * i + 4] == FixedArray(xs[..n])[4 * i..4 * i + 4];
    }
  }

  // ----- Base-128 varints -----

  function Varint(v: nat): (r: Bytes)
    ensures r != []
  {
    if v < 128 then [v] else [v % 128 + 128] + Varint(v / 128)
  }

  /** At most the given number of seven-bit groups, least significant first. */
  function ParseVarint(input: Bytes, groups: nat): Option<Parsed<nat>>
    decreases groups
  {
    if groups == 0 || input == [] then None
    else if input[0] < 128 then Some(Parsed(input[0], input[1..]))
    else
      match ParseVarint(input[1..], groups - 1)
      case None => None
      case Some(p) => Some(Parsed(input[0] - 128 + 128 * p.value, p.rest))
  }

  lemma {:induction false} VarintRoundTrip(v: nat, groups: nat, rest: Bytes)
    requires groups > 0 && v < Pow(128, groups)
    ensures ParseVarint(Varint(v) + rest, groups) == Some(Parsed(v, rest))
  {
    var all := Varint(v) + rest;
    if v < 128 {
      assert all[1..] == rest;
    } else {
      assert v < 128 * Pow(128, groups - 1);
      VarintRoundTrip(v / 128, groups - 1, rest);
      assert all[1..] == Varint(v / 128) + rest;
    }
  }

  /** A varint cut short is never mistaken for a shorter one. */
  lemma {:induction false} CutVarintFails(v: nat, groups: nat, n: nat)
    requires n < |Varint(v)|
    ensures ParseVarint(Varint(v)[..n], groups) == None
  {
    if v >= 128 && n > 0 && groups > 0 {
      CutVarintFails(v / 128, groups - 1, n - 1);
      assert Varint(v)[..n][1..] == Varint(v / 128)[..n - 1];
    }
  }

  /** What a parse leaves is a proper suffix of the input. */
  lemma {:induction false} ParseVarintConsumes(input: Bytes, groups: nat)
    requires ParseVarint(input, groups).Some?
    ensures var rest := ParseVarint(input, groups).value.rest;
      |rest| < |input| && rest == input[|input| - |rest|..]
  {
    if input[0] >= 128 {
      ParseVarintConsumes(input[1..], groups - 1);
    }
  }

  lemma PowersOf128()
    ensures Pow(128, 5) == 8 * TWO32 && Pow(128, 10) == 64 * TWO64
  {
    assert Pow(128, 3) == 0x20_0000;
    assert Pow(128, 5) == 8 * TWO32;
    assert Pow(128, 8) == 0x100_0000_0000_0000;
  }

  /** GetVarint32 and GetVarint64: bits shifted out of the result are lost. */
  function GetVarint32(input: Bytes): Option<Parsed<Word>> {
    match ParseVarint(input, 5)
    case None => None
    case Some(p) => Some(Parsed(p.value % TWO32, p.rest))
  }

  function GetVarint64(input: Bytes): Option<Parsed<nat>> {
    match ParseVarint(input, 10)
    case None => None
    case Some(p) => Some(Parsed(p.value % TWO64, p.rest))
  }

  lemma Varint32RoundTrip(v: Word, rest: Bytes)
    ensures GetVarint32(Varint(v) + rest) == Some(Parsed(v, rest))
  {
    PowersOf128();
    hide Pow, Varint, ParseVarint;
    VarintRoundTrip(v, 5, rest);
  }

  lemma Varint64RoundTrip(v: nat, rest: Bytes)
    requires v < TWO64
    ensures GetVarint64(Varint(v) + rest) == Some(Parsed(v, rest))
  {
    PowersOf128();
    hide Pow, Varint, ParseVarint;
    VarintRoundTrip(v, 10, rest);
    assert v % TWO64 == v;
  }

  lemma VarintFirst(v: nat)
    ensures Varint(v) == if v < 128 then [v] else [v % 128 + 128] + Varint(v / 128)
  {
  }

  /** EncodeVarint32: the ladder of cases writes the same bytes as the general encoding. */
  method EncodeVarint32(dst: Bytes, v: Word) returns (r: Bytes)
    ensures r == dst + Varint(v)
  {
    hide Varint;
    VarintFirst(v);
    VarintFirst(v / 128);
    VarintFirst(v / 0x4000);
    VarintFirst(v / 0x20_0000);
    VarintFirst(v / 0x1000_0000);
    assert v / 128 / 128 == v / 0x4000 && v / 0x4000 / 128 == v / 0x20_0000 && v / 0x20_0000 / 128 == v / 0x1000_0000;
    var bytes: Bytes;
    if v < 0x80 {
      bytes := [v];
    } else if v < 0x4000 {
      bytes := [v % 128 + 128, v / 128];
    } else if v < 0x20_0000 {
      bytes := [v % 128 + 128, v / 128 % 128 + 128, v / 0x4000];
    } else if v < 0x1000_0000 {
      bytes := [v % 128 + 128, v / 128 % 128 + 128, v / 0x4000 % 128 + 128, v / 0x20_0000];
    } else {
      bytes := [v % 128 + 128, v / 128 % 128 + 128, v / 0x4000 % 128 + 128, v / 0x20_0000 % 128 + 128, v / 0x1000_0000];
    }
    r := dst + bytes;
  }

  /** EncodeVarint64, byte by byte. */
  method EncodeVarint64(dst: Bytes, v: nat) returns (r: Bytes)
    requires v < TWO64
    ensures r == dst + Varint(v)
  {
    r := dst;
    var left := v;
    while left >= 128
      invariant r + Varint(left) == dst + Varint(v)
    {
      assert Varint(left) == [left % 128 + 128] + Varint(left / 128);
      r := r + [left % 128 + 128];
      left := left / 128;
    }
    r := r + [left];
  }

  method VarintLength(v: nat) returns (len: nat)
    ensures len == |Varint(v)|
  {
    len := 1;
    var left := v;
    while left >= 128
      invariant len + |Varint(left)| == |Varint(v)| + 1
    {
      left := left / 128;
      len := len + 1;
    }
  }

  /** The shift-and-or loop of GetVarint32PtrFallback and GetVarint64Ptr, in a register that
      keeps only what is below the modulus. */
  method ShiftGroups(input: Bytes, groups: nat, modulus: nat) returns (r: Option<Parsed<nat>>)
    requires modulus > 0
    ensures r == match ParseVarint(input, groups)
                 case None => None
                 case Some(p) => Some(Parsed(p.value % modulus, p.rest))
  {
    hide ParseVarint, Placed;
    var result: nat, scale: nat, i: nat := 0, 1, 0;
    ghost var whole: nat := 0;
    PlacedNowhere(input, groups);
    assert input[0..] == input;
    while i < groups && i < |input|
      invariant i <= groups && i <= |input|
      invariant result == whole % modulus
      invariant ParseVarint(input, groups) == Placed(ParseVarint(input[i..], groups - i), whole, scale)
    {
      var digit: nat := input[i] % 128;
      assert input[i..][0] == input[i] && input[i..][1..] == input[i + 1..];
      PlacedByte(input[i..], groups - i, whole, scale);
      AddMod(whole, digit * scale, modulus);
      result := (result + digit * scale) % modulus;
      if input[i] < 128 {
        return Some(Parsed(result, input[i + 1..]));
      }
      whole := whole + digit * scale;
      scale := scale * 128;
      i := i + 1;
    }
    PlacedAtEnd(input[i..], groups - i, whole, scale);
    return None;
  }

  lemma PlacedNowhere(input: Bytes, groups: nat)
    ensures ParseVarint(input, groups) == Placed(ParseVarint(input, groups), 0, 1)
  {
  }

  lemma PlacedAtEnd(rest: Bytes, groups: nat, whole: nat, scale: nat)
    ensures rest == [] || groups == 0 ==> Placed(ParseVarint(rest, groups), whole, scale) == None
  {
  }

  /** One byte of a varint, at its place in the result. */
  lemma PlacedByte(rest: Bytes, groups: nat, whole: nat, scale: nat)
    requires rest != [] && groups > 0
    ensures rest[0] % 128 * scale >= 0
    ensures var next: nat := whole + rest[0] % 128 * scale;
      Placed(ParseVarint(rest, groups), whole, scale)
      == if rest[0] < 128 then Some(Parsed(next, rest[1..])) else Placed(ParseVarint(rest[1..], groups - 1), next, scale * 128)
  {
    var digit: nat := rest[0] % 128;
    Scaled(digit, scale);
    var p := ParseVarint(rest[1..], groups - 1);
    if rest[0] >= 128 && p.Some? {
      PlacedStep(p, whole, scale, digit);
    }
  }

  ghost function Placed(p: Option<Parsed<nat>>, whole: nat, scale: nat): Option<Parsed<nat>> {
    match p
    case None => None
    case Some(q) => Some(Parsed(whole + q.value * scale, q.rest))
  }

  lemma PlacedStep(next: Option<Parsed<nat>>, whole: nat, scale: nat, digit: nat)
    requires next.Some?
    ensures whole + (digit + 128 * next.value.value) * scale == (whole + digit * scale) + next.value.value * (scale * 128)
  {
    var v := next.value.value;
    calc {
      (digit + 128 * v) * scale;
      digit * scale + (128 * v) * scale;
      digit * scale + v * (scale * 128);
    }
  }

  lemma Scaled(digit: nat, scale: nat)
    ensures digit * scale >= 0
  {
  }

  lemma AddMod(a: nat, b: nat, m: nat)
    requires m > 0
    ensures (a % m + b) % m == (a + b) % m
  {
    var q := a / m;
    assert a == q * m + a % m;
    ModPlusMultiple(a % m + b, q, m);
  }

  lemma {:induction false} ModPlusMultiple(a: nat, q: nat, m: nat)
    requires m > 0
    ensures (a + q * m) % m == a % m
    decreases q
  {
    if q > 0 {
      var less := a + (q - 1) * m;
      assert a + q * m == less + m;
      ModPlusOnce(less, m);
      ModPlusMultiple(a, q - 1, m);
    }
  }

  lemma ModPlusOnce(x: nat, m: nat)
    requires m > 0
    ensures (x + m) % m == x % m
  {
    DivUnique(x / m + 1, x % m, (x + m) / m, (x + m) % m, m);
  }

  lemma DivUnique(q: nat, r: nat, d: nat, e: nat, m: nat)
    requires r < m && e < m && q * m + r == d * m + e
    ensures r == e
  {
    if d > q {
      LessIsBelow(q, r, d, m);
    } else if d < q {
      LessIsBelow(d, e, q, m);
    }
  }

  lemma LessIsBelow(q: nat, r: nat, d: nat, m: nat)
    requires q < d && r < m
    ensures q * m + r < d * m
  {
    AtLeastOnce(d - q, m);
    assert d * m == q * m + (d - q) * m;
  }

  lemma AtLeastOnce(k: nat, m: nat)
    requires k > 0
    ensures k * m >= m
  {
  }

  // ----- Length-prefixed strings -----

  function LengthPrefixed(s: Bytes): Bytes {
    Varint(|s|) + s
  }

  function GetLengthPrefixed(input: Bytes): Option<Parsed<Bytes>> {
    match GetVarint32(input)
    case None => None
    case Some(p) => if |p.rest| < p.value then None else Some(Parsed(p.rest[..p.value], p.rest[p.value..]))
  }

  lemma LengthPrefixedRoundTrip(s: Bytes, rest: Bytes)
    requires |s| < TWO32
    ensures GetLengthPrefixed(LengthPrefixed(s) + rest) == Some(Parsed(s, rest))
  {
    assert LengthPrefixed(s) + rest == Varint(|s|) + (s + rest);
    Varint32RoundTrip(|s|, s + rest);
  }

  /** Parsing goes forward. */
  lemma GetLengthPrefixedShrinks(input: Bytes)
    ensures GetLengthPrefixed(input).Some? ==> |GetLengthPrefixed(input).value.rest| < |input|
  {
    if ParseVarint(input, 5).Some? {
      ParseVarintConsumes(input, 5);
    }
  }
}
