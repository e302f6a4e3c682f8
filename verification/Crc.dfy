/**
 CRC-32C, section 12.1 of RFC 3720: the shift register, the byte-at-a-time form, and the loop that keeps
 four interleaved partial results.  Words are natural numbers; the tables are taken by the equations
 that define them.
 */
module Crc {
  import opened InternalKeys
  import opened Coding

  /** Exclusive or. */
  function Xor(a: nat, b: nat): nat
    decreases a + b
  {
    if a == 0 then b
    else if b == 0 then a
    else (a % 2 + b % 2) % 2 + 2 * Xor(a / 2, b / 2)
  }

  lemma {:induction false} XorStep(a: nat, b: nat)
    ensures Xor(a, b) % 2 == (a % 2 + b % 2) % 2
    ensures Xor(a, b) / 2 == Xor(a / 2, b / 2)
  {
  }

  lemma {:induction false} XorCommutes(a: nat, b: nat)
    ensures Xor(a, b) == Xor(b, a)
    decreases a + b
  {
    if a > 0 && b > 0 {
      XorCommutes(a / 2, b / 2);
    }
  }

  lemma {:induction false} XorAssociates(a: nat, b: nat, c: nat)
    ensures Xor(Xor(a, b), c) == Xor(a, Xor(b, c))
    decreases a + b + c
  {
    if a > 0 && b > 0 && c > 0 {
      XorAssociates(a / 2, b / 2, c / 2);
      XorStep(a, b);
      XorStep(b, c);
      XorStep(Xor(a, b), c);
      XorStep(a, Xor(b, c));
      Parity(a % 2, b % 2, c % 2);
      Halves(Xor(Xor(a, b), c), Xor(a, Xor(b, c)));
    }
  }

  lemma Parity(x: nat, y: nat, z: nat)
    ensures ((x + y) % 2 + z) % 2 == (x + (y + z) % 2) % 2
  {
  }

  lemma Halves(a: nat, b: nat)
    requires a % 2 == b % 2 && a / 2 == b / 2
    ensures a == b
  {
  }

  lemma {:induction false} XorSelf(a: nat)
    ensures Xor(a, a) == 0
  {
    if a > 0 {
      XorSelf(a / 2);
    }
  }

  /** The middle two of four operands may be exchanged. */
  lemma XorExchange(a: nat, b: nat, c: nat, d: nat)
    ensures Xor(Xor(a, b), Xor(c, d)) == Xor(Xor(a, c), Xor(b, d))
  {
    XorAssociates(a, b, Xor(c, d));
    XorAssociates(b, c, d);
    XorCommutes(b, c);
    XorAssociates(c, b, d);
    XorAssociates(a, c, Xor(b, d));
  }

  lemma {:induction false} XorFits(a: nat, b: nat, n: nat)
    requires a < Pow2(n) && b < Pow2(n)
    ensures Xor(a, b) < Pow2(n)
  {
    if n > 0 {
      XorFits(a / 2, b / 2, n - 1);
    }
  }

  /** The polynomial, its bits reversed. */
  const POLYNOMIAL: nat := 0x82f6_3b78

  /** One shift of the register. */
  function Shift(x: nat): nat {
    if x % 2 == 1 then Xor(x / 2, POLYNOMIAL) else x / 2
  }

  /** The register after `n` shifts. */
  function Shifted(n: nat, x: nat): nat {
    if n == 0 then x else Shifted(n - 1, Shift(x))
  }

  lemma {:induction false} ShiftIsLinear(x: nat, y: nat)
    ensures Shift(Xor(x, y)) == Xor(Shift(x), Shift(y))
  {
    var p := POLYNOMIAL;
    var a, b := x / 2, y / 2;
    XorStep(x, y);
    if x % 2 == 1 && y % 2 == 1 {
      XorExchange(a, p, b, p);
      XorSelf(p);
    } else if x % 2 == 1 {
      XorAssociates(a, p, b);
      XorCommutes(p, b);
      XorAssociates(a, b, p);
    } else if y % 2 == 1 {
      XorAssociates(a, b, p);
    }
  }

  lemma {:induction false} ShiftedIsLinear(n: nat, x: nat, y: nat)
    ensures Shifted(n, Xor(x, y)) == Xor(Shifted(n, x), Shifted(n, y))
    decreases n
  {
    if n > 0 {
      ShiftIsLinear(x, y);
      ShiftedIsLinear(n - 1, Shift(x), Shift(y));
    }
  }

  lemma {:induction false} ShiftedAdds(m: nat, n: nat, x: nat)
    ensures Shifted(m, Shifted(n, x)) == Shifted(m + n, x)
    decreases n
  {
    if n > 0 {
      ShiftedAdds(m, n - 1, Shift(x));
    }
  }

  function ShiftLeft(n: nat, x: nat): nat {
    if n == 0 then x else 2 * ShiftLeft(n - 1, x)
  }

  /** A value above the lowest `n` bits is only shifted down. */
  lemma {:induction false} ShiftedDown(n: nat, x: nat)
    ensures Shifted(n, ShiftLeft(n, x)) == x
    decreases n
  {
    if n > 0 {
      ShiftedDown(n - 1, x);
    }
  }

  /** Low and high parts do not meet. */
  lemma {:induction false} XorDisjoint(n: nat, low: nat, high: nat)
    requires low < Pow2(n)
    ensures Xor(low, ShiftLeft(n, high)) == low + ShiftLeft(n, high)
  {
    if n > 0 {
      XorDisjoint(n - 1, low / 2, high);
      XorWithEven(low, ShiftLeft(n - 1, high));
    }
  }

  lemma XorWithEven(a: nat, b: nat)
    ensures Xor(a, 2 * b) == a % 2 + 2 * Xor(a / 2, b)
  {
    var even := 2 * b;
    assert even % 2 == 0 && even / 2 == b;
    XorStep(a, even);
    Halves(Xor(a, even), a % 2 + 2 * Xor(a / 2, b));
  }

  /** The number of bits in a byte. */
  const BITS: nat := 8

  /** The register after one zero byte. */
  function AdvanceByte(x: nat): nat {
    Shifted(BITS, x)
  }

  /** The register after `n` zero bytes. */
  function Advance(n: nat, x: nat): nat {
    if n == 0 then x else AdvanceByte(Advance(n - 1, x))
  }

  /** The register after `data`, one byte at a time. */
  function Register(l: nat, data: Bytes): nat {
    if data == [] then l else AdvanceByte(Xor(Register(l, data[..|data| - 1]), data[|data| - 1]))
  }

  lemma {:induction false} AdvanceIsLinear(n: nat, x: nat, y: nat)
    ensures Advance(n, Xor(x, y)) == Xor(Advance(n, x), Advance(n, y))
  {
    if n > 0 {
      AdvanceIsLinear(n - 1, x, y);
      ShiftedIsLinear(BITS, Advance(n - 1, x), Advance(n - 1, y));
    }
  }

  lemma {:induction false} AdvanceAdds(m: nat, n: nat, x: nat)
    ensures Advance(m + n, x) == Advance(m, Advance(n, x))
  {
    if m > 0 {
      AdvanceAdds(m - 1, n, x);
    }
  }

  lemma TimesByte(x: nat)
    ensures ShiftLeft(BITS, x) == 256 * x
    ensures Pow2(BITS) == 256
  {
    assert ShiftLeft(1, x) == 2 * x;
    assert ShiftLeft(2, x) == 2 * ShiftLeft(1, x);
    assert ShiftLeft(3, x) == 2 * ShiftLeft(2, x);
    assert ShiftLeft(4, x) == 2 * ShiftLeft(3, x);
    assert ShiftLeft(5, x) == 2 * ShiftLeft(4, x);
    assert ShiftLeft(6, x) == 2 * ShiftLeft(5, x);
    assert ShiftLeft(7, x) == 2 * ShiftLeft(6, x);
  }

  /** The part above the lowest byte is only shifted down. */
  lemma AdvanceParts(low: Byte, high: nat)
    ensures AdvanceByte(low + 256 * high) == Xor(AdvanceByte(low), high)
    ensures Xor(low, 256 * high) == low + 256 * high
  {
    TimesByte(high);
    XorDisjoint(BITS, low, high);
    ShiftedIsLinear(BITS, low, 256 * high);
    ShiftedDown(BITS, high);
  }

  function ByteTable(i: Byte): nat {
    AdvanceByte(i)
  }

  lemma XorOfBytes(a: Byte, b: Byte)
    ensures Xor(a, b) < 256
  {
    TimesByte(0);
    XorFits(a, b, BITS);
  }

  /** The table step is one byte of the register. */
  function StepByte(l: nat, b: Byte): (r: nat)
    ensures r == AdvanceByte(Xor(l, b))
  {
    TableStep(l, l % 256, l / 256, b);
    Xor(ByteTable(Xor(l % 256, b)), l / 256)
  }

  lemma XorLast(a: nat, b: nat, c: nat)
    ensures Xor(Xor(a, b), c) == Xor(Xor(a, c), b)
  {
    XorAssociates(a, b, c);
    XorCommutes(b, c);
    XorAssociates(a, c, b);
  }

  lemma TableStep(l: nat, low: Byte, high: nat, b: Byte)
    requires l == low + 256 * high
    ensures Xor(low, b) < 256
    ensures Xor(ByteTable(Xor(low, b)), high) == AdvanceByte(Xor(l, b))
  {
    XorOfBytes(low, b);
    AdvanceParts(Xor(low, b), high);
    AdvanceParts(low, high);
    XorLast(low, 256 * high, b);
  }

  function LoadWord(data: Bytes, i: nat): nat
    requires i + 4 <= |data|
  {
    DecodeFixed(data[i..i + 4])
  }

  /** A byte with the rest of a word above it. */
  function Above(low: nat, high: nat): nat {
    low + 256 * high
  }

  function WordOf(b0: nat, b1: nat, b2: nat, b3: nat): nat {
    Above(b0, Above(b1, Above(b2, b3)))
  }

  lemma LoadParts(data: Bytes, i: nat)
    requires i + 4 <= |data|
    ensures LoadWord(data, i) == WordOf(data[i], data[i + 1], data[i + 2], data[i + 3])
  {
    var s := data[i..i + 4];
    assert s[1..][1..][1..][1..] == [];
    assert DecodeFixed(s[1..][1..][1..]) == s[3];
    assert DecodeFixed(s[1..][1..]) == Above(s[2], s[3]);
    assert DecodeFixed(s[1..]) == Above(s[1], Above(s[2], s[3]));
  }

  lemma RegisterStep(l: nat, data: Bytes, i: nat)
    requires i < |data|
    ensures Register(l, data[..i + 1]) == AdvanceByte(Xor(Register(l, data[..i]), data[i]))
  {
    assert data[..i + 1][..i] == data[..i];
  }

  /** A byte and what follows it in the word. */
  lemma ByteOfWord(l: nat, low: Byte, high: nat)
    ensures AdvanceByte(Xor(l, Above(low, high))) == Xor(AdvanceByte(Xor(l, low)), high)
  {
    AdvanceParts(low, high);
    XorAssociates(l, low, 256 * high);
    ShiftedIsLinear(BITS, Xor(l, low), 256 * high);
    TimesByte(high);
    ShiftedDown(BITS, high);
  }

  /** Four bytes at once. */
  lemma FourBytes(l: nat, b0: Byte, b1: Byte, b2: Byte, b3: Byte)
    ensures AdvanceByte(Xor(AdvanceByte(Xor(AdvanceByte(Xor(AdvanceByte(Xor(l, b0)), b1)), b2)), b3))
            == Advance(4, Xor(l, WordOf(b0, b1, b2, b3)))
  {
    ByteOfWord(l, b0, Above(b1, Above(b2, b3)));
    var l1 := AdvanceByte(Xor(l, b0));
    ByteOfWord(l1, b1, Above(b2, b3));
    var l2 := AdvanceByte(Xor(l1, b1));
    ByteOfWord(l2, b2, b3);
    Advance4(Xor(l, WordOf(b0, b1, b2, b3)));
  }

  lemma Advance4(x: nat)
    ensures Advance(4, x) == AdvanceByte(AdvanceByte(AdvanceByte(AdvanceByte(x))))
  {
    assert Advance(1, x) == AdvanceByte(Advance(0, x));
    assert Advance(2, x) == AdvanceByte(Advance(1, x));
    assert Advance(3, x) == AdvanceByte(Advance(2, x));
  }

  lemma RegisterWord(l: nat, data: Bytes, i: nat)
    requires i + 4 <= |data|
    ensures Register(l, data[..i + 4]) == Advance(4, Xor(Register(l, data[..i]), LoadWord(data, i)))
  {
    RegisterStep(l, data, i);
    RegisterStep(l, data, i + 1);
    RegisterStep(l, data, i + 2);
    RegisterStep(l, data, i + 3);
    LoadParts(data, i);
    FourBytes(Register(l, data[..i]), data[i], data[i + 1], data[i + 2], data[i + 3]);
  }

  /** Table `k` moves a byte of a partial result past the 16 bytes of one round. */
  function StrideTable(k: nat, i: Byte): nat {
    Advance(13 + k, i)
  }

  /** One table lookup per byte moves a partial result past a round. */
  function StrideStep(c: nat): nat
    requires c < WORD32
  {
    var c1 := c / 256;
    var c2 := c1 / 256;
    var c3 := c2 / 256;
    Xor(Xor(Xor(StrideTable(3, c % 256), StrideTable(2, c1 % 256)), StrideTable(1, c2 % 256)), StrideTable(0, c3))
  }

  lemma AdvanceWithByte(n: nat, low: Byte, high: nat)
    ensures Advance(n + 1, Above(low, high)) == Xor(Advance(n + 1, low), Advance(n, high))
  {
    AdvanceParts(low, high);
    AdvanceIsLinear(n + 1, low, 256 * high);
    AdvanceAdds(n, 1, 256 * high);
    assert Advance(1, 256 * high) == AdvanceByte(Advance(0, 256 * high));
    TimesByte(high);
    ShiftedDown(BITS, high);
  }

  lemma StrideIsAdvance(c: nat)
    requires c < WORD32
    ensures StrideStep(c) == Advance(16, c)
  {
    var c1 := c / 256;
    var c2 := c1 / 256;
    var c3 := c2 / 256;
    StridePartsAdvance(c % 256, c1 % 256, c2 % 256, c3);
    assert c1 == Above(c1 % 256, Above(c2 % 256, c3));
    assert c == Above(c % 256, c1);
  }

  lemma StridePartsAdvance(a: Byte, b: Byte, d: Byte, e: Byte)
    ensures Xor(Xor(Xor(Advance(16, a), Advance(15, b)), Advance(14, d)), Advance(13, e)) ==
            Advance(16, WordOf(a, b, d, e))
  {
    AdvanceWithByte(15, a, Above(b, Above(d, e)));
    AdvanceWithByte(14, b, Above(d, e));
    AdvanceWithByte(13, d, e);
    FourSums(Advance(16, a), Advance(15, b), Advance(14, d), Advance(13, e));
  }

  lemma FourSums(w: nat, x: nat, y: nat, z: nat)
    ensures Xor(Xor(Xor(w, x), y), z) == Xor(w, Xor(x, Xor(y, z)))
  {
    XorAssociates(w, x, Xor(y, z));
    XorAssociates(Xor(w, x), y, z);
  }

  /** Four partial results, the first the furthest behind. */
  function Combined(c0: nat, c1: nat, c2: nat, c3: nat): nat {
    Xor(Xor(Xor(Advance(16, c0), Advance(12, c1)), Advance(8, c2)), Advance(4, c3))
  }

  lemma Advance4Sum(a: nat, b: nat, c: nat, d: nat)
    ensures Advance(4, Xor(Xor(Xor(a, b), c), d)) ==
            Xor(Xor(Xor(Advance(4, a), Advance(4, b)), Advance(4, c)), Advance(4, d))
  {
    AdvanceIsLinear(4, Xor(Xor(a, b), c), d);
    AdvanceIsLinear(4, Xor(a, b), c);
    AdvanceIsLinear(4, a, b);
  }

  /** Consuming a word while the oldest partial result is moved past it. */
  lemma RotateStep(c0: nat, c1: nat, c2: nat, c3: nat, w: nat)
    ensures Combined(c1, c2, c3, Xor(w, Advance(16, c0))) == Advance(4, Xor(Combined(c0, c1, c2, c3), w))
  {
    AdvanceIsLinear(4, Combined(c0, c1, c2, c3), w);
    Advance4Sum(Advance(16, c0), Advance(12, c1), Advance(8, c2), Advance(4, c3));
    AdvanceAdds(4, 12, c1);
    AdvanceAdds(4, 8, c2);
    AdvanceAdds(4, 4, c3);
    AdvanceIsLinear(4, w, Advance(16, c0));
    Rotate(Advance(4, Advance(16, c0)), Advance(16, c1), Advance(12, c2), Advance(8, c3), Advance(4, w));
  }

  lemma Rotate(a: nat, b: nat, c: nat, d: nat, w: nat)
    ensures Xor(Xor(Xor(b, c), d), Xor(w, a)) == Xor(Xor(Xor(Xor(a, b), c), d), w)
  {
    var rest := Xor(Xor(b, c), d);
    XorAssociates(a, b, c);
    XorAssociates(a, Xor(b, c), d);
    assert Xor(Xor(Xor(a, b), c), d) == Xor(a, rest);
    XorCommutes(a, rest);
    XorAssociates(rest, a, w);
    XorCommutes(a, w);
  }

  /** A round of four words is four such steps, each for the next partial result. */
  lemma RoundStep(c0: nat, c1: nat, c2: nat, c3: nat, w0: nat, w1: nat, w2: nat, w3: nat)
    ensures Combined(Xor(w0, Advance(16, c0)), Xor(w1, Advance(16, c1)), Xor(w2, Advance(16, c2)),
            Xor(w3, Advance(16, c3)))
            == FourWords(Combined(c0, c1, c2, c3), w0, w1, w2, w3)
  {
    var d0, d1, d2 := Xor(w0, Advance(16, c0)), Xor(w1, Advance(16, c1)), Xor(w2, Advance(16, c2));
    RotateStep(c0, c1, c2, c3, w0);
    RotateStep(c1, c2, c3, d0, w1);
    RotateStep(c2, c3, d0, d1, w2);
    RotateStep(c3, d0, d1, d2, w3);
  }

  function FourWords(l: nat, w0: nat, w1: nat, w2: nat, w3: nat): nat {
    Advance(4, Xor(Advance(4, Xor(Advance(4, Xor(Advance(4, Xor(l, w0)), w1)), w2)), w3))
  }

  lemma RegisterRound(start: nat, data: Bytes, p: nat)
    requires p + 16 <= |data|
    ensures Register(start, data[..p + 16]) ==
              FourWords(Register(start, data[..p]), LoadWord(data, p), LoadWord(data, p + 4), LoadWord(data, p + 8),
                  LoadWord(data, p + 12))
  {
    RegisterWord(start, data, p);
    RegisterWord(start, data, p + 4);
    RegisterWord(start, data, p + 8);
    RegisterWord(start, data, p + 12);
  }

  /** Putting the four partial results together one after the other. */
  lemma CombineInTurn(c0: nat, c1: nat, c2: nat, c3: nat)
    ensures FourWords(0, c0, c1, c2, c3) == Combined(c0, c1, c2, c3)
  {
    var a0 := Advance(4, c0);
    AdvanceIsLinear(4, a0, c1);
    AdvanceAdds(4, 4, c0);
    var a1 := Xor(Advance(8, c0), Advance(4, c1));
    AdvanceIsLinear(4, a1, c2);
    AdvanceIsLinear(4, Advance(8, c0), Advance(4, c1));
    AdvanceAdds(4, 8, c0);
    AdvanceAdds(4, 4, c1);
    var a2 := Xor(Xor(Advance(12, c0), Advance(8, c1)), Advance(4, c2));
    AdvanceIsLinear(4, a2, c3);
    AdvanceIsLinear(4, Xor(Advance(12, c0), Advance(8, c1)), Advance(4, c2));
    AdvanceIsLinear(4, Advance(12, c0), Advance(8, c1));
    AdvanceAdds(4, 12, c0);
    AdvanceAdds(4, 8, c1);
    AdvanceAdds(4, 4, c2);
  }

  lemma FirstRound(l: nat, start: nat, data: Bytes, p: nat)
    requires p + 16 <= |data| && l == Register(start, data[..p])
    ensures Combined(Xor(LoadWord(data, p), l), LoadWord(data, p + 4), LoadWord(data, p + 8), LoadWord(data, p + 12))
            == Register(start, data[..p + 16])
  {
    RegisterRound(start, data, p);
    var w := LoadWord(data, p);
    CombineInTurn(Xor(w, l), LoadWord(data, p + 4), LoadWord(data, p + 8), LoadWord(data, p + 12));
    XorCommutes(w, l);
    assert Xor(0, Xor(w, l)) == Xor(l, w);
  }

  lemma ShiftFits(x: nat)
    requires x < WORD32
    ensures Shift(x) < WORD32
  {
    Word32IsPow2();
    if x % 2 == 1 {
      XorFits(x / 2, POLYNOMIAL, 32);
    }
  }

  lemma Word32IsPow2()
    ensures Pow2(32) == WORD32
  {
    assert Pow2(8) == 256;
    assert Pow2(16) == 0x1_0000;
    assert Pow2(24) == 0x100_0000;
  }

  lemma XorFits32(a: nat, b: nat)
    requires a < WORD32 && b < WORD32
    ensures Xor(a, b) < WORD32
  {
    Word32IsPow2();
    XorFits(a, b, 32);
  }

  lemma {:induction false} ShiftedFits(n: nat, x: nat)
    requires x < WORD32
    ensures Shifted(n, x) < WORD32
    decreases n
  {
    if n > 0 {
      ShiftFits(x);
      ShiftedFits(n - 1, Shift(x));
    }
  }

  lemma {:induction false} AdvanceFits(n: nat, x: nat)
    requires x < WORD32
    ensures Advance(n, x) < WORD32
  {
    if n > 0 {
      AdvanceFits(n - 1, x);
      ShiftedFits(BITS, Advance(n - 1, x));
    }
  }

  lemma {:induction false} RegisterFits(l: nat, data: Bytes)
    requires l < WORD32
    ensures Register(l, data) < WORD32
  {
    if data != [] {
      RegisterFits(l, data[..|data| - 1]);
      XorFits32(Register(l, data[..|data| - 1]), data[|data| - 1]);
      ShiftedFits(BITS, Xor(Register(l, data[..|data| - 1]), data[|data| - 1]));
    }
  }

  lemma LoadFits(data: Bytes, i: nat)
    requires i + 4 <= |data|
    ensures LoadWord(data, i) < WORD32
  {
    DecodedFits(data[i..i + 4]);
    assert Pow256(4) == WORD32;
  }

  /** A loaded word and a partial result moved past the round. */
  method Stride(c: nat, data: Bytes, i: nat) returns (r: nat)
    requires c < WORD32 && i + 4 <= |data|
    ensures r == Xor(LoadWord(data, i), Advance(16, c)) && r < WORD32
  {
    StrideIsAdvance(c);
    AdvanceFits(16, c);
    LoadFits(data, i);
    XorFits32(LoadWord(data, i), Advance(16, c));
    r := Xor(LoadWord(data, i), StrideStep(c));
  }

  /** Four table steps on a word that is already loaded. */
  method CombineWord(l: nat, word: nat) returns (r: nat)
    requires l < WORD32 && word < WORD32
    ensures r == Advance(4, Xor(l, word)) && r < WORD32
  {
    XorCommutes(word, l);
    XorFits32(word, l);
    var w := Xor(word, l);
    for i := 0 to 4
      invariant w == Advance(i, Xor(l, word)) && w < WORD32
    {
      ShiftedFits(BITS, w);
      TableStep(w, w % 256, w / 256, 0);
      w := Xor(ByteTable(w % 256), w / 256);
    }
    r := w;
  }

  /** One byte at a time, up to position `to`. */
  method StepBytes(l0: nat, data: Bytes, from: nat, to: nat, ghost start: nat) returns (l: nat)
    requires from <= to <= |data| && l0 == Register(start, data[..from]) && start < WORD32
    ensures l == Register(start, data[..to])
  {
    l := l0;
    for p := from to to
      invariant l == Register(start, data[..p])
    {
      RegisterStep(start, data, p);
      l := StepByte(l, data[p]);
    }
  }

  /** The strided loop over as many words as there are, when at least 16 bytes are left. */
  method StepStrides(l0: nat, data: Bytes, from: nat, ghost start: nat) returns (l: nat, p: nat)
    requires from + 16 <= |data| && l0 == Register(start, data[..from]) && start < WORD32
    ensures from <= p <= |data| && l == Register(start, data[..p])
  {
    p := from;
    var crc0: nat, crc1: nat, crc2: nat, crc3: nat := LoadFirst(l0, data, p, start);
    p := p + 16;
    while |data| - p >= 16
      invariant from + 16 <= p <= |data|
      invariant Partial(crc0, crc1, crc2, crc3, start, data[..p])
    {
      crc0, crc1, crc2, crc3 := Round(crc0, crc1, crc2, crc3, data, p, start);
      p := p + 16;
    }
    while |data| - p >= 4
      invariant from + 16 <= p <= |data|
      invariant Partial(crc0, crc1, crc2, crc3, start, data[..p])
    {
      crc0, crc1, crc2, crc3 := OneWord(crc0, crc1, crc2, crc3, data, p, start);
      p := p + 4;
    }
    l := CombineStrides(crc0, crc1, crc2, crc3);
  }

  /** The partial results stand for the register after `done`. */
  ghost predicate Partial(crc0: nat, crc1: nat, crc2: nat, crc3: nat, start: nat, done: Bytes) {
    && crc0 < WORD32 && crc1 < WORD32 && crc2 < WORD32 && crc3 < WORD32
    && Combined(crc0, crc1, crc2, crc3) == Register(start, done)
  }

  /** One word for the partial result that is furthest behind, which becomes the last. */
  method OneWord(c0: nat, c1: nat, c2: nat, c3: nat, data: Bytes, p: nat, ghost start: nat)
    returns (crc0: nat, crc1: nat, crc2: nat, crc3: nat)
    requires p + 4 <= |data| && Partial(c0, c1, c2, c3, start, data[..p])
    ensures Partial(crc0, crc1, crc2, crc3, start, data[..p + 4])
  {
    RotateStep(c0, c1, c2, c3, LoadWord(data, p));
    RegisterWord(start, data, p);
    crc3 := Stride(c0, data, p);
    crc0, crc1, crc2 := c1, c2, c3;
  }

  /** Combines the four partial results. */
  method CombineStrides(crc0: nat, crc1: nat, crc2: nat, crc3: nat) returns (l: nat)
    requires crc0 < WORD32 && crc1 < WORD32 && crc2 < WORD32 && crc3 < WORD32
    ensures l == Combined(crc0, crc1, crc2, crc3)
  {
    l := CombineWord(0, crc0);
    l := CombineWord(l, crc1);
    l := CombineWord(l, crc2);
    l := CombineWord(l, crc3);
    CombineInTurn(crc0, crc1, crc2, crc3);
  }

  /** One round of four words. */
  method Round(c0: nat, c1: nat, c2: nat, c3: nat, data: Bytes, p: nat, ghost start: nat)
    returns (crc0: nat, crc1: nat, crc2: nat, crc3: nat)
    requires p + 16 <= |data| && Partial(c0, c1, c2, c3, start, data[..p])
    ensures Partial(crc0, crc1, crc2, crc3, start, data[..p + 16])
  {
    RoundStep(c0, c1, c2, c3, LoadWord(data, p), LoadWord(data, p + 4), LoadWord(data, p + 8), LoadWord(data, p + 12));
    RegisterRound(start, data, p);
    crc0 := Stride(c0, data, p);
    crc1 := Stride(c1, data, p + 4);
    crc2 := Stride(c2, data, p + 8);
    crc3 := Stride(c3, data, p + 12);
  }

  method LoadFirst(l: nat, data: Bytes, p: nat, ghost start: nat) returns (crc0: nat, crc1: nat, crc2: nat, crc3: nat)
    requires p + 16 <= |data| && l == Register(start, data[..p]) && start < WORD32
    ensures Partial(crc0, crc1, crc2, crc3, start, data[..p + 16])
  {
    FirstRound(l, start, data, p);
    RegisterFits(start, data[..p]);
    LoadFits(data, p);
    LoadFits(data, p + 4);
    LoadFits(data, p + 8);
    LoadFits(data, p + 12);
    XorFits32(LoadWord(data, p), l);
    crc0 := Xor(LoadWord(data, p), l);
    crc1, crc2, crc3 := LoadWord(data, p + 4), LoadWord(data, p + 8), LoadWord(data, p + 12);
  }

  const ALL_ONES: nat := 0xffff_ffff

  /** Values are conditioned with all ones before and after. */
  function Extended(crc: nat, data: Bytes): nat {
    Xor(Register(Xor(crc, ALL_ONES), data), ALL_ONES)
  }

  /** The whole loop, for data at any address: bytes up to the next word, strides, and the remaining bytes. */
  method Extend(crc: nat, data: Bytes, address: nat) returns (result: nat)
    requires crc < WORD32
    ensures result == Extended(crc, data)
  {
    var l := Xor(crc, ALL_ONES);
    ghost var start := l;
    XorFits32(crc, ALL_ONES);
    var p: nat := 0;
    var x := (4 - address % 4) % 4;
    assert data[..0] == [];
    if x <= |data| {
      l := StepBytes(l, data, 0, x, start);
      p := x;
    }
    if |data| - p >= 16 {
      l, p := StepStrides(l, data, p, start);
    }
    l := StepBytes(l, data, p, |data|, start);
    assert data[..|data|] == data;
    result := Xor(l, ALL_ONES);
  }

  lemma {:induction false} RegisterConcat(l: nat, a: Bytes, b: Bytes)
    ensures Register(l, a + b) == Register(Register(l, a), b)
    decreases |b|
  {
    if b == [] {
      assert a + b == a;
    } else {
      RegisterConcat(l, a, b[..|b| - 1]);
      assert (a + b)[..|a + b| - 1] == a + b[..|b| - 1];
    }
  }

  /** Extending over two pieces is extending over their concatenation. */
  lemma {:induction false} ExtendConcat(crc: nat, a: Bytes, b: Bytes)
    ensures Extended(crc, a + b) == Extended(Extended(crc, a), b)
  {
    RegisterConcat(Xor(crc, ALL_ONES), a, b);
    var r := Register(Xor(crc, ALL_ONES), a);
    XorAssociates(r, ALL_ONES, ALL_ONES);
    XorSelf(ALL_ONES);
    XorCommutes(r, 0);
  }

  function Value(data: Bytes): nat {
    Extended(0, data)
  }

  lemma {:induction false} ValueFits(data: Bytes)
    ensures Value(data) < WORD32
  {
    XorFits32(0, ALL_ONES);
    RegisterFits(Xor(0, ALL_ONES), data);
    XorFits32(Register(Xor(0, ALL_ONES), data), ALL_ONES);
  }

  function RotateRight15(x: nat): (r: nat)
    requires x < WORD32
    ensures r < WORD32
  {
    x / 0x8000 + x % 0x8000 * 0x2_0000
  }

  function RotateRight17(x: nat): (r: nat)
    requires x < WORD32
    ensures r < WORD32
  {
    x / 0x2_0000 + x % 0x2_0000 * 0x8000
  }

  function AddDelta(x: nat): (r: nat)
    ensures r < WORD32
  {
    Low32(x + 0xa282_ead8)
  }

  function SubtractDelta(x: nat): (r: nat)
    ensures r < WORD32
  {
    Low32(x + (WORD32 - 0xa282_ead8))
  }

  lemma DeltasUndo(x: nat)
    requires x < WORD32
    ensures SubtractDelta(AddDelta(x)) == x
    ensures AddDelta(SubtractDelta(x)) == x
  {
  }

  /** Rotated right by 15 bits, plus a constant, in 32 bits. */
  function Mask(crc: nat): (masked: nat)
    requires crc < WORD32
    ensures masked < WORD32
  {
    AddDelta(RotateRight15(crc))
  }

  function Unmask(masked: nat): (crc: nat)
    requires masked < WORD32
    ensures crc < WORD32
  {
    RotateRight17(SubtractDelta(masked))
  }

  lemma RotationsUndo(x: nat)
    requires x < WORD32
    ensures RotateRight17(RotateRight15(x)) == x
    ensures RotateRight15(RotateRight17(x)) == x
  {
    RotationUndone(x / 0x8000, x % 0x8000);
    RotationUndone(x % 0x2_0000, x / 0x2_0000);
  }

  lemma RotationUndone(high: nat, low: nat)
    requires high < 0x2_0000 && low < 0x8000
    ensures (high + low * 0x2_0000) / 0x2_0000 == low && (high + low * 0x2_0000) % 0x2_0000 == high
    ensures (low + high * 0x8000) / 0x8000 == high && (low + high * 0x8000) % 0x8000 == low
  {
  }

  /** Masking and unmasking are inverse to each other on 32-bit words. */
  lemma {:induction false} MaskRoundTrip(crc: nat)
    requires crc < WORD32
    ensures Unmask(Mask(crc)) == crc
    ensures Mask(Unmask(crc)) == crc
  {
    RotationsUndo(crc);
    DeltasUndo(RotateRight15(crc));
    RotationsUndo(SubtractDelta(crc));
    DeltasUndo(crc);
  }

  /** The checksum of a log record as it is stored: over the type and the payload, masked. */
  function StoredChecksum(kind: Byte, payload: Bytes): (sum: nat)
    ensures sum < WORD32
  {
    ValueFits([kind] + payload);
    Mask(Value([kind] + payload))
  }

  /** The log writer extends the checksum of the type, and the log reader unmasks what is stored. */
  lemma {:induction false} ChecksumAsWrittenAndRead(kind: Byte, payload: Bytes, stored: nat)
    requires stored < WORD32
    ensures var crc := Extended(Value([kind]), payload); crc < WORD32 && Mask(crc) == StoredChecksum(kind, payload)
    ensures Unmask(stored) == Value([kind] + payload) <==> stored == Low32(StoredChecksum(kind, payload))
  {
    ExtendConcat(0, [kind], payload);
    ValueFits([kind] + payload);
    MaskRoundTrip(Value([kind] + payload));
    MaskRoundTrip(stored);
  }

  // ---------- Published values ----------

  /** Masking rotates by fifteen bits and adds the constant. */
  lemma MaskValues()
    ensures Mask(0) == 0xa282_ead8 && Mask(1) == 0xa284_ead8 && Mask(0x8000) == 0xa282_ead9
    ensures forall crc :: 0 <= crc < 0x8000 ==> Mask(crc) == Low32(crc * 0x2_0000 + 0xa282_ead8)
  {
  }

  lemma {:induction false} TableIsShifts(i: Byte, n: nat)
    requires n <= BITS && i == ShiftLeft(n, 1)
    ensures ByteTable(i) == Shifted(BITS - n, 1)
  {
    ShiftedAdds(BITS - n, n, i);
    ShiftedDown(n, 1);
  }

  lemma ShiftedOnce(n: nat, x: nat, y: nat)
    requires Shift(x) == y
    ensures Shifted(n + 1, x) == Shifted(n, y)
  {
  }

  /** Entries of the byte table that the polynomial determines without an exclusive or. */
  lemma {:induction false} TableEntries()
    ensures ByteTable(128) == 0x82f6_3b78 && ByteTable(64) == 0x417b_1dbc
    ensures ByteTable(32) == 0x20bd_8ede && ByteTable(16) == 0x105e_c76f
  {
    TableIsShifts(128, 7);
    TableIsShifts(64, 6);
    TableIsShifts(32, 5);
    TableIsShifts(16, 4);
    assert Shift(1) == 0x82f6_3b78;
    forall n: nat ensures Shifted(n + 1, 1) == Shifted(n, 0x82f6_3b78) {
      ShiftedOnce(n, 1, 0x82f6_3b78);
    }
    ShiftedOnce(0, 0x82f6_3b78, 0x417b_1dbc);
    ShiftedOnce(1, 0x82f6_3b78, 0x417b_1dbc);
    ShiftedOnce(2, 0x82f6_3b78, 0x417b_1dbc);
    ShiftedOnce(0, 0x417b_1dbc, 0x20bd_8ede);
    ShiftedOnce(1, 0x417b_1dbc, 0x20bd_8ede);
    ShiftedOnce(0, 0x20bd_8ede, 0x105e_c76f);
  }
}
