/**
 Fixed-width and variable-length integers, and slices with a length in front.  Bit operations on
 unsigned words are written as arithmetic; truncation to 32 or 64 bits is explicit.
 */
module Coding {
  import opened InternalKeys

  const WORD32: nat := 0x1_0000_0000

  const WORD64: nat := 0x1_0000_0000_0000_0000

  /** The low 32 bits. */
  function Low32(v: nat): (r: nat)
    ensures r < WORD32
    ensures v < WORD32 ==> r == v
  {
    v % 0x1_0000_0000
  }

  function Low64(v: nat): (r: nat)
    ensures r < WORD64
    ensures v < WORD64 ==> r == v
  {
    v % 0x1_0000_0000_0000_0000
  }

  /** The little-endian bytes of a word. */
  function Fixed(value: nat, width: nat): (s: Bytes)
    ensures |s| == width
  {
    if width == 0 then [] else [value % 256] + Fixed(value / 256, width - 1)
  }

  function DecodeFixed(s: Bytes): nat {
    if s == [] then 0 else s[0] + 256 * DecodeFixed(s[1..])
  }

  function Pow2(n: nat): (p: nat)
    ensures p > 0
  {
    if n == 0 then 1 else 2 * Pow2(n - 1)
  }

  function Zeros(n: nat): (z: Bytes)
    ensures |z| == n
  {
    seq(n, _ => 0)
  }

  lemma Associates(a: Bytes, b: Bytes, c: Bytes)
    ensures a + b + c == a + (b + c)
  {
  }

  function Pow256(width: nat): (p: nat)
    ensures p > 0
  {
    if width == 0 then 1 else 256 * Pow256(width - 1)
  }

  function Fixed32(value: nat): (s: Bytes)
    ensures |s| == 4
  {
    Fixed(value, 4)
  }

  function Fixed64(value: nat): (s: Bytes)
    ensures |s| == 8
  {
    Fixed(value, 8)
  }

  lemma {:induction false} FixedRoundTrip(value: nat, width: nat)
    requires value < Pow256(width)
    ensures DecodeFixed(Fixed(value, width)) == value
  {
    if width > 0 {
      assert value / 256 < Pow256(width - 1);
      FixedRoundTrip(value / 256, width - 1);
      assert Fixed(value, width)[1..] == Fixed(value / 256, width - 1);
    }
  }

  lemma {:induction false} DecodedFits(s: Bytes)
    ensures DecodeFixed(s) < Pow256(|s|)
  {
    if s != [] {
      DecodedFits(s[1..]);
    }
  }

  lemma {:induction false} FixedOfDecoded(s: Bytes)
    ensures Fixed(DecodeFixed(s), |s|) == s
  {
    if s != [] {
      FixedOfDecoded(s[1..]);
      assert DecodeFixed(s) / 256 == DecodeFixed(s[1..]);
      assert s == [s[0]] + s[1..];
    }
  }

  lemma Fixed32RoundTrip(value: nat)
    requires value < WORD32
    ensures DecodeFixed(Fixed32(value)) == value
  {
    assert Pow256(4) == WORD32;
    FixedRoundTrip(value, 4);
  }

  lemma Fixed64RoundTrip(value: nat)
    requires value < WORD64
    ensures DecodeFixed(Fixed64(value)) == value
  {
    assert Pow256(4) == WORD32;
    assert Pow256(8) == WORD64;
    FixedRoundTrip(value, 8);
  }

  /** The variable-length form: seven bits in each byte, low bits first. */
  function Varint(v: nat): (s: Bytes)
    ensures |s| > 0
  {
    if v < 128 then [v] else [v % 128 + 128] + Varint(v / 128)
  }

  function Pow128(n: nat): (p: nat)
    ensures p > 0
  {
    if n == 0 then 1 else 128 * Pow128(n - 1)
  }

  /** A value and the number of bytes that it took. */
  datatype Decoded = Decoded(value: nat, used: nat)

  /** Reads at most `max` bytes; the value is not truncated yet. */
  function ReadVarint(s: Bytes, max: nat): (r: Option<Decoded>)
    ensures r.Some? ==> 0 < r.value.used <= |s| && r.value.used <= max
  {
    if max == 0 || s == [] then None
    else if s[0] < 128 then Some(Decoded(s[0], 1))
    else
      match ReadVarint(s[1..], max - 1)
      case Some(d) => Some(Decoded(s[0] - 128 + 128 * d.value, d.used + 1))
      case None => None
  }

  const MAX_VARINT32: nat := 5

  const MAX_VARINT64: nat := 10

  function GetVarint32(s: Bytes): (r: Option<Decoded>)
    ensures r.Some? ==> 0 < r.value.used <= |s| && r.value.used <= MAX_VARINT32 && r.value.value < WORD32
  {
    match ReadVarint(s, MAX_VARINT32)
    case Some(d) => Some(Decoded(Low32(d.value), d.used))
    case None => None
  }

  function GetVarint64(s: Bytes): (r: Option<Decoded>)
    ensures r.Some? ==> 0 < r.value.used <= |s| && r.value.used <= MAX_VARINT64 && r.value.value < WORD64
  {
    match ReadVarint(s, MAX_VARINT64)
    case Some(d) => Some(Decoded(Low64(d.value), d.used))
    case None => None
  }

  /** Whatever follows the encoding, reading takes exactly the encoding. */
  lemma {:induction false} VarintRoundTrip(v: nat, max: nat, rest: Bytes)
    requires max > 0 && v < Pow128(max)
    ensures |Varint(v)| <= max
    ensures ReadVarint(Varint(v) + rest, max) == Some(Decoded(v, |Varint(v)|))
  {
    if v >= 128 {
      assert v / 128 < Pow128(max - 1);
      VarintRoundTrip(v / 128, max - 1, rest);
      assert (Varint(v) + rest)[1..] == Varint(v / 128) + rest;
    }
  }

  lemma Varint32RoundTrip(v: nat, rest: Bytes)
    requires v < WORD32
    ensures GetVarint32(Varint(v) + rest) == Some(Decoded(v, |Varint(v)|))
  {
    assert Pow128(3) == 0x20_0000;
    assert Pow128(5) == 0x8_0000_0000;
    VarintRoundTrip(v, MAX_VARINT32, rest);
  }

  lemma Varint64RoundTrip(v: nat, rest: Bytes)
    requires v < WORD64
    ensures GetVarint64(Varint(v) + rest) == Some(Decoded(v, |Varint(v)|))
  {
    assert Pow128(5) == 0x8_0000_0000;
    assert Pow128(10) == 0x40_0000_0000_0000_0000;
    VarintRoundTrip(v, MAX_VARINT64, rest);
  }

  /** A reader cannot mistake the start of an encoding for a whole one. */
  lemma {:induction false} VarintHasNoCompletePrefix(v: nat, n: nat, max: nat)
    requires n < |Varint(v)|
    ensures ReadVarint(Varint(v)[..n], max).None?
  {
    if n > 0 && max > 0 {
      assert Varint(v)[..n][1..] == Varint(v / 128)[..n - 1];
      VarintHasNoCompletePrefix(v / 128, n - 1, max - 1);
    }
  }

  /** The branches that write one to five bytes. */
  method EncodeVarint32(v: nat) returns (s: Bytes)
    requires v < WORD32
    ensures s == Varint(v)
  {
    if v < 0x80 {
      s := [v];
    } else if v < 0x4000 {
      s := [v % 128 + 128, v / 0x80];
    } else if v < 0x20_0000 {
      s := [v % 128 + 128, v / 0x80 % 128 + 128, v / 0x4000];
    } else if v < 0x1000_0000 {
      s := [v % 128 + 128, v / 0x80 % 128 + 128, v / 0x4000 % 128 + 128, v / 0x20_0000];
    } else {
      s := [v % 128 + 128, v / 0x80 % 128 + 128, v / 0x4000 % 128 + 128, v / 0x20_0000 % 128 + 128, v / 0x1000_0000];
    }
    VarintDigits(v);
  }

  lemma VarintDigits(v: nat)
    requires v < WORD32
    ensures v >= 0x80 ==> Varint(v) == [v % 128 + 128] + Varint(v / 0x80)
    ensures v >= 0x4000 ==> Varint(v / 0x80) == [v / 0x80 % 128 + 128] + Varint(v / 0x4000)
    ensures v >= 0x20_0000 ==> Varint(v / 0x4000) == [v / 0x4000 % 128 + 128] + Varint(v / 0x20_0000)
    ensures v >= 0x1000_0000 ==> Varint(v / 0x20_0000) == [v / 0x20_0000 % 128 + 128] + Varint(v / 0x1000_0000)
  {
    assert v / 0x80 / 128 == v / 0x4000;
    assert v / 0x4000 / 128 == v / 0x20_0000;
    assert v / 0x20_0000 / 128 == v / 0x1000_0000;
  }

  method EncodeVarint64(value: nat) returns (s: Bytes)
    requires value < WORD64
    ensures s == Varint(value)
  {
    var v := value;
    s := [];
    while v >= 128
      invariant s + Varint(v) == Varint(value)
    {
      s := s + [v % 128 + 128];
      v := v / 128;
    }
    s := s + [v];
  }

  /** The number of bytes, counted without writing them. */
  method VarintLength(value: nat) returns (len: nat)
    requires value < WORD64
    ensures len == |Varint(value)|
  {
    var v := value;
    len := 1;
    while v >= 128
      invariant len + |Varint(v)| == |Varint(value)| + 1
    {
      v := v / 128;
      len := len + 1;
    }
  }

  /** A shift by seven bits for each byte already read. */
  function ShiftLeft(v: nat, bytes: nat): nat {
    if bytes == 0 then v else 128 * ShiftLeft(v, bytes - 1)
  }

  lemma {:induction false} ShiftSum(low: nat, rest: nat, bytes: nat)
    ensures ShiftLeft(low + 128 * rest, bytes) == ShiftLeft(low, bytes) + ShiftLeft(rest, bytes + 1)
  {
    if bytes > 0 {
      ShiftSum(low, rest, bytes - 1);
    }
  }

  /** What is decoded when `result` has been collected from `p` bytes and `s` follows. */
  function Continued32(result: nat, p: nat, s: Bytes, max: nat): Option<Decoded> {
    match ReadVarint(s, max)
    case Some(d) => Some(Decoded(Low32(result + ShiftLeft(d.value, p)), p + d.used))
    case None => None
  }

  lemma LowSum32(a: nat, b: nat)
    ensures Low32(Low32(a) + b) == Low32(a + b)
  {
  }

  lemma {:induction false} DecodeStep32(result: nat, p: nat, s: Bytes, max: nat)
    requires s != [] && max > 0
    ensures var next := Low32(result + ShiftLeft(s[0] % 128, p));
            Continued32(result, p, s, max) ==
              if s[0] < 128 then Some(Decoded(next, p + 1)) else Continued32(next, p + 1, s[1..], max - 1)
  {
    var tail := ReadVarint(s[1..], max - 1);
    if s[0] >= 128 && tail.Some? {
      ShiftSum(s[0] - 128, tail.value.value, p);
      LowSum32(result + ShiftLeft(s[0] % 128, p), ShiftLeft(tail.value.value, p + 1));
    }
  }

  /** The decoding loop: each byte is shifted into place, and what does not fit in the word is lost. */
  method GetVarint32Ptr(s: Bytes) returns (r: Option<Decoded>)
    ensures r == GetVarint32(s)
  {
    var result: nat, p: nat := 0, 0;
    while p < MAX_VARINT32 && p < |s|
      invariant p <= MAX_VARINT32 && p <= |s|
      invariant GetVarint32(s) == Continued32(result, p, s[p..], MAX_VARINT32 - p)
    {
      var byte := s[p];
      DecodeStep32(result, p, s[p..], MAX_VARINT32 - p);
      assert s[p..][1..] == s[p + 1..];
      result := Low32(result + ShiftLeft(byte % 128, p));
      p := p + 1;
      if byte < 128 {
        return Some(Decoded(result, p));
      }
    }
    r := None;
  }

  /** What is decoded when `result` has been collected from `p` bytes and `s` follows. */
  function Continued64(result: nat, p: nat, s: Bytes, max: nat): Option<Decoded> {
    match ReadVarint(s, max)
    case Some(d) => Some(Decoded(Low64(result + ShiftLeft(d.value, p)), p + d.used))
    case None => None
  }

  lemma LowSum64(a: nat, b: nat)
    ensures Low64(Low64(a) + b) == Low64(a + b)
  {
  }

  lemma {:induction false} DecodeStep64(result: nat, p: nat, s: Bytes, max: nat)
    requires s != [] && max > 0
    ensures var next := Low64(result + ShiftLeft(s[0] % 128, p));
            Continued64(result, p, s, max) ==
              if s[0] < 128 then Some(Decoded(next, p + 1)) else Continued64(next, p + 1, s[1..], max - 1)
  {
    var tail := ReadVarint(s[1..], max - 1);
    if s[0] >= 128 && tail.Some? {
      ShiftSum(s[0] - 128, tail.value.value, p);
      LowSum64(result + ShiftLeft(s[0] % 128, p), ShiftLeft(tail.value.value, p + 1));
    }
  }

  /** The decoding loop: each byte is shifted into place, and what does not fit in the word is lost. */
  method GetVarint64Ptr(s: Bytes) returns (r: Option<Decoded>)
    ensures r == GetVarint64(s)
  {
    var result: nat, p: nat := 0, 0;
    while p < MAX_VARINT64 && p < |s|
      invariant p <= MAX_VARINT64 && p <= |s|
      invariant GetVarint64(s) == Continued64(result, p, s[p..], MAX_VARINT64 - p)
    {
      var byte := s[p];
      DecodeStep64(result, p, s[p..], MAX_VARINT64 - p);
      assert s[p..][1..] == s[p + 1..];
      result := Low64(result + ShiftLeft(byte % 128, p));
      p := p + 1;
      if byte < 128 {
        return Some(Decoded(result, p));
      }
    }
    r := None;
  }

  /** A slice with its length in front, as a 32-bit varint. */
  function LengthPrefixed(s: Bytes): Bytes {
    Varint(|s|) + s
  }

  datatype Slice = Slice(contents: Bytes, rest: Bytes)

  function GetLengthPrefixedSlice(input: Bytes): Option<Slice> {
    match GetVarint32(input)
    case None => None
    case Some(d) =>
      var rest := input[d.used..];
      if |rest| >= d.value then Some(Slice(rest[..d.value], rest[d.value..])) else None
  }

  lemma {:induction false} LengthPrefixedRoundTrip(s: Bytes, rest: Bytes)
    requires |s| < WORD32
    ensures GetLengthPrefixedSlice(LengthPrefixed(s) + rest) == Some(Slice(s, rest))
  {
    Varint32RoundTrip(|s|, s + rest);
    var all := LengthPrefixed(s) + rest;
    assert all == Varint(|s|) + (s + rest);
    assert all[|Varint(|s|)|..] == s + rest;
  }

  /** An array of fixed-width words. */
  function Words(values: seq<nat>): (s: Bytes)
    ensures |s| == 4 * |values|
  {
    if values == [] then [] else Words(values[..|values| - 1]) + Fixed32(values[|values| - 1])
  }

  lemma {:induction false} WordAt(values: seq<nat>, i: nat)
    requires i < |values|
    ensures Words(values)[4 * i..4 * i + 4] == Fixed32(values[i])
  {
    if i + 1 < |values| {
      WordAt(values[..|values| - 1], i);
    }
  }

  method AppendWords(dst: Bytes, values: seq<nat>) returns (contents: Bytes)
    ensures contents == dst + Words(values)
  {
    contents := dst;
    for i := 0 to |values|
      invariant contents == dst + Words(values[..i])
    {
      assert values[..i + 1][..i] == values[..i];
      contents := contents + Fixed32(values[i]);
    }
    assert values[..|values|] == values;
  }

  lemma SliceOfSlice(s: Bytes, a: nat, b: nat, i: nat, j: nat)
    requires a <= b <= |s| && i <= j <= b - a
    ensures s[a..b][i..j] == s[a + i..a + j]
  {
    forall k | 0 <= k < j - i ensures s[a..b][i..j][k] == s[a + i..a + j][k] {
      assert s[a..b][i + k] == s[a + i + k];
    }
  }
}
