/**
 The Bloom filter policy, over an arbitrary hash function.  Bits of a byte are read and set arithmetically.
 */
module Bloom {
  import opened InternalKeys
  import opened Coding

  datatype Policy = Policy(hash: Bytes -> nat, bitsPerKey: nat)

  /** The number of probes: 69 percent of the bits per key, between 1 and 30. */
  function Probes(policy: Policy): (k: Byte)
    ensures 1 <= k <= 30
  {
    var k := policy.bitsPerKey * 69 / 100;
    if k < 1 then 1 else if k > 30 then 30 else k
  }

  function Hash(policy: Policy, key: Bytes): (h: nat)
    ensures h < WORD32
  {
    Low32(policy.hash(key))
  }

  /** The hash rotated right by 17 bits. */
  function Delta(h: nat): (delta: nat)
    requires h < WORD32
    ensures delta < WORD32
  {
    h / 0x2_0000 + h % 0x2_0000 * 0x8000
  }

  /** The bit positions probed from `h` on, each step adding delta modulo the word. */
  function Positions(h: nat, delta: nat, bits: nat, k: nat): (ps: seq<nat>)
    requires bits > 0
    ensures |ps| == k && forall j :: 0 <= j < k ==> ps[j] < bits
    decreases k
  {
    if k == 0 then [] else [h % bits] + Positions(Low32(h + delta), delta, bits, k - 1)
  }

  function KeyPositions(policy: Policy, key: Bytes, bits: nat, k: nat): (ps: seq<nat>)
    requires bits > 0
    ensures |ps| == k && forall j :: 0 <= j < k ==> ps[j] < bits
  {
    var h := Hash(policy, key);
    Positions(h, Delta(h), bits, k)
  }

  predicate BitOf(b: nat, bit: nat) {
    if bit == 0 then b % 2 == 1 else BitOf(b / 2, bit - 1)
  }

  /** A word with one more bit set. */
  function WithBit(b: nat, bit: nat): nat {
    if bit == 0 then b / 2 * 2 + 1 else b % 2 + 2 * WithBit(b / 2, bit - 1)
  }

  lemma {:induction false} WithBitHolds(b: nat, bit: nat, other: nat)
    ensures BitOf(WithBit(b, bit), other) <==> other == bit || BitOf(b, other)
  {
    if bit > 0 && other > 0 {
      WithBitHolds(b / 2, bit - 1, other - 1);
    }
  }

  lemma {:induction false} WithBitFits(b: nat, bit: nat, n: nat)
    requires bit < n && b < Pow2(n)
    ensures WithBit(b, bit) < Pow2(n)
  {
    if bit > 0 {
      WithBitFits(b / 2, bit - 1, n - 1);
    }
  }

  function OrBit(b: Byte, bit: nat): (r: Byte)
    requires bit < 8
    ensures forall other :: 0 <= other < 8 ==> (BitOf(r, other) <==> other == bit || BitOf(b, other))
  {
    assert Pow2(8) == 256;
    WithBitFits(b, bit, 8);
    assert forall other :: 0 <= other < 8 ==> (BitOf(WithBit(b, bit), other) <==> other == bit || BitOf(b, other)) by {
      forall other | 0 <= other < 8 ensures BitOf(WithBit(b, bit), other) <==> other == bit || BitOf(b, other) {
        WithBitHolds(b, bit, other);
      }
    }
    WithBit(b, bit)
  }

  predicate HasBit(bitmap: Bytes, position: nat)
    requires position < 8 * |bitmap|
  {
    BitOf(bitmap[position / 8], position % 8)
  }

  function SetBit(bitmap: Bytes, position: nat): (r: Bytes)
    requires position < 8 * |bitmap|
    ensures |r| == |bitmap|
    ensures forall p :: 0 <= p < 8 * |bitmap| ==> (HasBit(r, p) <==> p == position || HasBit(bitmap, p))
  {
    bitmap[position / 8 := OrBit(bitmap[position / 8], position % 8)]
  }

  function SetBits(bitmap: Bytes, positions: seq<nat>): (r: Bytes)
    requires forall j :: 0 <= j < |positions| ==> positions[j] < 8 * |bitmap|
    ensures |r| == |bitmap|
    decreases |positions|
  {
    if positions == [] then bitmap else SetBits(SetBit(bitmap, positions[0]), positions[1..])
  }

  function AddKeys(policy: Policy, bitmap: Bytes, keys: seq<Bytes>, k: nat): (r: Bytes)
    requires |bitmap| > 0
    ensures |r| == |bitmap|
    decreases |keys|
  {
    if keys == [] then bitmap
    else AddKeys(policy, SetBits(bitmap, KeyPositions(policy, keys[0], 8 * |bitmap|, k)), keys[1..], k)
  }

  function FilterBytes(policy: Policy, n: nat): (bytes: nat)
    ensures bytes >= 8
  {
    var bits := n * policy.bitsPerKey;
    var atLeast := if bits < 64 then 64 else bits;
    (atLeast + 7) / 8
  }

  function FilterOf(policy: Policy, keys: seq<Bytes>): (filter: Bytes)
    ensures |filter| == FilterBytes(policy, |keys|) + 1
  {
    AddKeys(policy, Zeros(FilterBytes(policy, |keys|)), keys, Probes(policy)) + [Probes(policy)]
  }

  predicate MayMatch(policy: Policy, key: Bytes, filter: Bytes) {
    var len := |filter|;
    if len < 2 then false
    else if filter[len - 1] > 30 then true
    else
      AllSet(filter[..len - 1], KeyPositions(policy, key, 8 * (len - 1), filter[len - 1]))
  }

  /** Appends the filter of `keys` to `dst`. */
  method CreateFilter(policy: Policy, keys: seq<Bytes>, dst: Bytes) returns (result: Bytes)
    ensures result == dst + FilterOf(policy, keys)
  {
    var bytes := FilterBytes(policy, |keys|);
    var k := Probes(policy);
    var bitmap := Zeros(bytes);
    for i := 0 to |keys|
      invariant |bitmap| == bytes
      invariant AddKeys(policy, bitmap, keys[i..], k) == AddKeys(policy, Zeros(bytes), keys, k)
    {
      assert keys[i..][1..] == keys[i + 1..] && keys[i..][0] == keys[i];
      bitmap := SetProbes(policy, keys[i], bitmap, k);
    }
    result := dst + bitmap + [k];
  }

  /** Double hashing for one key. */
  method SetProbes(policy: Policy, key: Bytes, bitmap0: Bytes, k: nat) returns (bitmap: Bytes)
    requires |bitmap0| > 0
    ensures bitmap == SetBits(bitmap0, KeyPositions(policy, key, 8 * |bitmap0|, k))
  {
    bitmap := bitmap0;
    var bits := 8 * |bitmap|;
    var h: nat := Hash(policy, key);
    var delta := Delta(h);
    ghost var rest := Positions(h, delta, bits, k);
    for j := 0 to k
      invariant |bitmap| == |bitmap0|
      invariant rest == Positions(h, delta, bits, (k - j) as nat)
      invariant SetBits(bitmap, rest) == SetBits(bitmap0, KeyPositions(policy, key, bits, k))
    {
      bitmap := SetBit(bitmap, h % bits);
      rest := rest[1..];
      h := Low32(h + delta);
    }
  }

  method KeyMayMatch(policy: Policy, key: Bytes, filter: Bytes) returns (found: bool)
    ensures found == MayMatch(policy, key, filter)
  {
    var len := |filter|;
    if len < 2 {
      return false;
    }
    var k := filter[len - 1];
    if k > 30 {
      return true;
    }
    found := HasProbes(policy, key, filter[..len - 1], k);
  }

  /** Double hashing for one key, as when the filter was made. */
  method HasProbes(policy: Policy, key: Bytes, bitmap: Bytes, k: nat) returns (found: bool)
    requires |bitmap| > 0
    ensures found == AllSet(bitmap, KeyPositions(policy, key, 8 * |bitmap|, k))
  {
    var bits := 8 * |bitmap|;
    var h: nat := Hash(policy, key);
    var delta := Delta(h);
    ghost var rest := Positions(h, delta, bits, k);
    for j := 0 to k
      invariant rest == Positions(h, delta, bits, (k - j) as nat)
      invariant AllSet(bitmap, rest) <==> AllSet(bitmap, KeyPositions(policy, key, bits, k))
    {
      AllSetCons(bitmap, rest);
      if !HasBit(bitmap, h % bits) {
        return false;
      }
      rest := rest[1..];
      h := Low32(h + delta);
    }
    found := true;
  }

  predicate AllSet(bitmap: Bytes, positions: seq<nat>)
    requires forall j :: 0 <= j < |positions| ==> positions[j] < 8 * |bitmap|
  {
    forall j :: 0 <= j < |positions| ==> HasBit(bitmap, positions[j])
  }

  lemma AllSetCons(bitmap: Bytes, positions: seq<nat>)
    requires positions != [] && forall j :: 0 <= j < |positions| ==> positions[j] < 8 * |bitmap|
    ensures AllSet(bitmap, positions) <==> HasBit(bitmap, positions[0]) && AllSet(bitmap, positions[1..])
  {
    if HasBit(bitmap, positions[0]) && AllSet(bitmap, positions[1..]) {
      forall j | 0 <= j < |positions| ensures HasBit(bitmap, positions[j]) {
        assert j > 0 ==> positions[1..][j - 1] == positions[j];
      }
    }
  }

  lemma {:induction false} SetBitsHolds(bitmap: Bytes, positions: seq<nat>, p: nat)
    requires forall j :: 0 <= j < |positions| ==> positions[j] < 8 * |bitmap|
    requires p < 8 * |bitmap|
    ensures HasBit(SetBits(bitmap, positions), p) <==> p in positions || HasBit(bitmap, p)
    decreases |positions|
  {
    if positions != [] {
      SetBitsHolds(SetBit(bitmap, positions[0]), positions[1..], p);
      assert positions == [positions[0]] + positions[1..];
    }
  }

  /** A bit is set exactly when some key probes it. */
  lemma {:induction false} AddKeysHolds(policy: Policy, bitmap: Bytes, keys: seq<Bytes>, k: nat, p: nat)
    requires |bitmap| > 0 && p < 8 * |bitmap|
    ensures HasBit(AddKeys(policy, bitmap, keys, k), p) <==>
              HasBit(bitmap, p) || exists i :: 0 <= i < |keys| && p in KeyPositions(policy, keys[i], 8 * |bitmap|, k)
    decreases |keys|
  {
    if keys != [] {
      var bits := 8 * |bitmap|;
      var ps := KeyPositions(policy, keys[0], bits, k);
      SetBitsHolds(bitmap, ps, p);
      AddKeysHolds(policy, SetBits(bitmap, ps), keys[1..], k, p);
      if i :| 0 <= i < |keys| && p in KeyPositions(policy, keys[i], bits, k) {
        assert i > 0 ==> keys[1..][i - 1] == keys[i];
      }
      if i :| 0 <= i < |keys[1..]| && p in KeyPositions(policy, keys[1..][i], bits, k) {
        assert keys[1..][i] == keys[i + 1];
      }
    }
  }

  /** Some added key probes this position. */
  ghost predicate Probed(policy: Policy, keys: seq<Bytes>, bits: nat, k: nat, p: nat)
    requires bits > 0
  {
    exists i :: 0 <= i < |keys| && p in KeyPositions(policy, keys[i], bits, k)
  }

  lemma {:induction false} FilterHolds(policy: Policy, keys: seq<Bytes>, p: nat)
    requires p < 8 * FilterBytes(policy, |keys|)
    ensures HasBit(FilterOf(policy, keys)[..FilterBytes(policy, |keys|)], p) <==>
              Probed(policy, keys, 8 * FilterBytes(policy, |keys|), Probes(policy), p)
  {
    var bytes, k := FilterBytes(policy, |keys|), Probes(policy);
    assert FilterOf(policy, keys)[..bytes] == AddKeys(policy, Zeros(bytes), keys, k);
    AddKeysHolds(policy, Zeros(bytes), keys, k, p);
    ZeroHasNoBits(p % 8);
  }

  lemma {:induction false} ZeroHasNoBits(bit: nat)
    ensures !BitOf(0, bit)
  {
    if bit > 0 {
      ZeroHasNoBits(bit - 1);
    }
  }

  /** A key matches exactly when each of its probes is also a probe of some added key. */
  lemma {:induction false} MatchesExactly(policy: Policy, keys: seq<Bytes>, key: Bytes)
    ensures var bits, k := 8 * FilterBytes(policy, |keys|), Probes(policy);
            MayMatch(policy, key, FilterOf(policy, keys)) <==>
              forall j :: 0 <= j < k ==> Probed(policy, keys, bits, k, KeyPositions(policy, key, bits, k)[j])
  {
    var bytes, k := FilterBytes(policy, |keys|), Probes(policy);
    var ps := KeyPositions(policy, key, 8 * bytes, k);
    forall j | 0 <= j < k
      ensures HasBit(FilterOf(policy, keys)[..bytes], ps[j]) <==> Probed(policy, keys, 8 * bytes, k, ps[j])
    {
      FilterHolds(policy, keys, ps[j]);
    }
  }

  /** No false negatives. */
  lemma {:induction false} AddedKeyMatches(policy: Policy, keys: seq<Bytes>, key: Bytes)
    requires key in keys
    ensures MayMatch(policy, key, FilterOf(policy, keys))
  {
    MatchesExactly(policy, keys, key);
    var i :| 0 <= i < |keys| && keys[i] == key;
  }
}
