/**
 Prefix-compressed blocks: a builder that shares key prefixes between restart points, and the iterator
 that searches the restart array and then scans.  Keys are ordered by an arbitrary rank.
 */
module Blocks {
  import opened InternalKeys
  import opened Coding

  datatype Pair = Pair(key: Bytes, value: Bytes)

  type Order = Bytes -> real

  /** One entry: three lengths, the part of the key that is not shared, and the value. */
  function EncodeEntry(shared: nat, p: Pair): Bytes
    requires shared <= |p.key|
  {
    Varint(shared) + Varint(|p.key| - shared) + Varint(|p.value|) + p.key[shared..] + p.value
  }

  datatype Lengths = Lengths(shared: nat, nonShared: nat, valueLength: nat, used: nat)

  /** The three lengths at the start of `s`, if the rest is long enough for what they announce. */
  function ReadLengths(s: Bytes): (r: Option<Lengths>)
    ensures r.Some? ==> r.value.used <= |s| && Low32(r.value.nonShared + r.value.valueLength) <= |s| - r.value.used
  {
    match GetVarint32(s)
    case None => None
    case Some(a) =>
      match GetVarint32(s[a.used..])
      case None => None
      case Some(b) =>
        match GetVarint32(s[a.used + b.used..])
        case None => None
        case Some(c) =>
          var used := a.used + b.used + c.used;
          if |s| - used < Low32(b.value + c.value) then None else Some(Lengths(a.value, b.value, c.value, used))
  }

  /** Decoding with a fast path for lengths of one byte each. */
  method DecodeEntry(s: Bytes) returns (r: Option<Lengths>)
    ensures r == ReadLengths(s)
  {
    if |s| < 3 {
      ShortEntry(s);
      return None;
    }
    var shared, nonShared, valueLength: nat := s[0], s[1], s[2];
    var used: nat := 3;
    if shared < 128 && nonShared < 128 && valueLength < 128 {
      // All three values are encoded in one byte each.
      OneByte(s);
      OneByte(s[1..]);
      OneByte(s[2..]);
      assert s[1..][0] == s[1] && s[2..][0] == s[2];
    } else {
      var a := GetVarint32Ptr(s);
      if a.None? {
        return None;
      }
      var b := GetVarint32Ptr(s[a.value.used..]);
      if b.None? {
        return None;
      }
      var c := GetVarint32Ptr(s[a.value.used + b.value.used..]);
      if c.None? {
        return None;
      }
      shared, nonShared, valueLength := a.value.value, b.value.value, c.value.value;
      used := a.value.used + b.value.used + c.value.used;
    }
    if |s| - used < Low32(nonShared + valueLength) {
      return None;
    }
    r := Some(Lengths(shared, nonShared, valueLength, used));
  }

  lemma OneByte(s: Bytes)
    requires s != [] && s[0] < 128
    ensures GetVarint32(s) == Some(Decoded(s[0], 1))
  {
  }

  lemma ShortEntry(s: Bytes)
    requires |s| < 3
    ensures ReadLengths(s).None?
  {
  }

  lemma {:induction false} ThreeLengths(x: nat, y: nat, z: nat, tail: Bytes, s: Bytes)
    requires x < WORD32 && y + z < WORD32 && |tail| >= y + z
    requires s == Varint(x) + (Varint(y) + (Varint(z) + tail))
    ensures ReadLengths(s) == Some(Lengths(x, y, z, |Varint(x)| + |Varint(y)| + |Varint(z)|))
  {
    var a, b, c := Varint(x), Varint(y), Varint(z);
    Varint32RoundTrip(x, b + (c + tail));
    assert s[|a|..] == b + (c + tail);
    Varint32RoundTrip(y, c + tail);
    assert s[|a| + |b|..] == c + tail;
    Varint32RoundTrip(z, tail);
  }

  /** Where the key of an encoded entry starts. */
  function KeyStart(shared: nat, p: Pair): nat
    requires shared <= |p.key|
  {
    |Varint(shared)| + |Varint(|p.key| - shared)| + |Varint(|p.value|)|
  }

  lemma {:induction false} LengthsRoundTrip(shared: nat, p: Pair, rest: Bytes)
    requires shared <= |p.key| && |p.key| + |p.value| < WORD32
    ensures ReadLengths(EncodeEntry(shared, p) + rest) ==
            Some(Lengths(shared, |p.key| - shared, |p.value|, KeyStart(shared, p)))
  {
    var tail := p.key[shared..] + p.value + rest;
    var s := EncodeEntry(shared, p) + rest;
    SixPieces(Varint(shared), Varint(|p.key| - shared), Varint(|p.value|), p.key[shared..], p.value, rest);
    ThreeLengths(shared, |p.key| - shared, |p.value|, tail, s);
  }

  lemma SixPieces(a: Bytes, b: Bytes, c: Bytes, d: Bytes, e: Bytes, f: Bytes)
    ensures a + b + c + d + e + f == a + (b + (c + (d + e + f)))
  {
    Associates(a + b + c, d, e);
    Associates(a + b + c, d + e, f);
    Associates(a + b, c, d + e + f);
    Associates(a, b, c + (d + e + f));
  }

  /** Where the entries lie in the buffer, what each shares with the one before, and which are restart points. */
  datatype Layout = Layout(pairs: seq<Pair>, offsets: seq<nat>, shared: seq<nat>, restarts: seq<nat>)

  function KeyBefore(l: Layout, i: nat): Bytes
    requires i <= |l.pairs|
  {
    if i == 0 then [] else l.pairs[i - 1].key
  }

  ghost predicate EntryLies(buffer: Bytes, l: Layout, i: nat)
    requires i < |l.pairs| == |l.shared| && |l.offsets| == |l.pairs| + 1
  {
    var p, before := l.pairs[i], KeyBefore(l, i);
    && l.shared[i] <= |p.key| && l.shared[i] <= |before| && before[..l.shared[i]] == p.key[..l.shared[i]]
    && |p.key| + |p.value| < WORD32
    && l.offsets[i] < l.offsets[i + 1] <= |buffer|
    && buffer[l.offsets[i]..l.offsets[i + 1]] == EncodeEntry(l.shared[i], p)
  }

  ghost predicate RestartLies(restarts: seq<nat>, l: Layout, j: nat)
    requires j < |restarts| == |l.restarts| && |l.pairs| == |l.shared| && |l.offsets| == |l.pairs| + 1
  {
    var e := l.restarts[j];
    && e <= |l.pairs| && restarts[j] == l.offsets[e]
    && (j == 0 ==> e == 0)
    && (j > 0 ==> e < |l.pairs|)
    && (e < |l.pairs| ==> l.shared[e] == 0)
  }

  ghost predicate Lies(buffer: Bytes, restarts: seq<nat>, l: Layout) {
    && |l.shared| == |l.pairs| && |l.offsets| == |l.pairs| + 1
    && l.offsets[0] == 0 && l.offsets[|l.pairs|] == |buffer|
    && (forall i :: 0 <= i < |l.pairs| ==> EntryLies(buffer, l, i))
    && |restarts| == |l.restarts| > 0
    && (forall j :: 0 <= j < |restarts| ==> RestartLies(restarts, l, j))
  }

  ghost predicate Ascending(order: Order, pairs: seq<Pair>) {
    forall i, j :: 0 <= i < j < |pairs| ==> order(pairs[i].key) < order(pairs[j].key)
  }

  lemma {:induction false} OffsetsAscend(buffer: Bytes, restarts: seq<nat>, l: Layout, i: nat, j: nat)
    requires Lies(buffer, restarts, l) && i <= j <= |l.pairs|
    ensures l.offsets[i] <= l.offsets[j] <= |buffer|
    ensures i < j ==> l.offsets[i] < l.offsets[j]
    decreases |l.pairs| - j, j
  {
    if j < |l.pairs| {
      assert EntryLies(buffer, l, j);
    }
    if i < j {
      OffsetsStep(buffer, restarts, l, i, j);
    }
  }

  lemma {:induction false} OffsetsStep(buffer: Bytes, restarts: seq<nat>, l: Layout, i: nat, j: nat)
    requires Lies(buffer, restarts, l) && i < j <= |l.pairs|
    ensures l.offsets[i] < l.offsets[j]
    decreases j
  {
    assert EntryLies(buffer, l, j - 1);
    if i < j - 1 {
      OffsetsStep(buffer, restarts, l, i, j - 1);
    }
  }

  /** The bytes of a finished block. */
  function BlockBytes(buffer: Bytes, restarts: seq<nat>): Bytes {
    buffer + Words(restarts) + Fixed32(|restarts|)
  }

  class BlockBuilder {
    const order: Order
    const restartInterval: nat
    var buffer: Bytes
    var restarts: seq<nat>
    /** The number of entries since the last restart. */
    var counter: nat
    var lastKey: Bytes
    ghost var layout: Layout

    constructor (order: Order, restartInterval: nat)
      requires restartInterval >= 1
      ensures Valid() && layout.pairs == []
      ensures this.order == order && this.restartInterval == restartInterval
    {
      this.order, this.restartInterval := order, restartInterval;
      buffer, restarts, counter, lastKey := [], [0], 0, [];
      layout := Layout([], [0], [], [0]);
    }

    ghost predicate Valid()
      reads this
    {
      && restartInterval >= 1 && counter <= restartInterval
      && Lies(buffer, restarts, layout)
      && Ascending(order, layout.pairs)
      && lastKey == KeyBefore(layout, |layout.pairs|)
    }

    method Reset()
      requires Valid()
      modifies this
      ensures Valid() && layout.pairs == []
    {
      buffer, restarts, counter, lastKey := [], [0], 0, [];
      layout := Layout([], [0], [], [0]);
    }

    function CurrentSizeEstimate(): (size: nat)
      reads this
      ensures size == |BlockBytes(buffer, restarts)|
    {
      |buffer| + 4 * |restarts| + 4
    }

    /** How many bytes two keys have in common at their start. */
    static method SharedLength(a: Bytes, b: Bytes) returns (shared: nat)
      ensures shared <= |a| && shared <= |b| && a[..shared] == b[..shared]
      ensures shared < |a| && shared < |b| ==> a[shared] != b[shared]
    {
      shared := 0;
      var minLength := if |a| < |b| then |a| else |b|;
      while shared < minLength && a[shared] == b[shared]
        invariant shared <= minLength && a[..shared] == b[..shared]
      {
        shared := shared + 1;
      }
    }

    /** Adds a key greater than every key before. */
    method Add(key: Bytes, value: Bytes)
      requires Valid() && |key| + |value| < WORD32
      requires layout.pairs != [] ==> order(lastKey) < order(key)
      modifies this
      ensures Valid() && layout.pairs == old(layout.pairs) + [Pair(key, value)]
    {
      var shared: nat := 0;
      ghost var restart := counter >= restartInterval;
      if counter < restartInterval {
        // See how much sharing to do with the previous key.
        shared := SharedLength(lastKey, key);
      } else {
        // Restart compression.
        restarts := restarts + [|buffer|];
        counter := 0;
      }
      EntryAdded(buffer, old(restarts), layout, order, shared, Pair(key, value), restart);
      layout := Extended(layout, shared, Pair(key, value), restart);
      AppendEntry(shared, key, value);
      lastKey := lastKey[..shared] + key[shared..];
      assert lastKey == key;
      counter := counter + 1;
    }

    method AppendEntry(shared: nat, key: Bytes, value: Bytes)
      requires shared <= |key|
      modifies this`buffer
      ensures buffer == old(buffer) + EncodeEntry(shared, Pair(key, value))
    {
      var nonShared := |key| - shared;
      buffer := buffer + Varint(shared);
      buffer := buffer + Varint(nonShared);
      buffer := buffer + Varint(|value|);
      buffer := buffer + key[shared..];
      buffer := buffer + value;
    }

    method Finish() returns (contents: Bytes)
      requires Valid()
      ensures contents == BlockBytes(buffer, restarts)
    {
      contents := AppendWords(buffer, restarts);
      contents := contents + Fixed32(|restarts|);
    }
  }

  ghost function Extended(l: Layout, shared: nat, p: Pair, restart: bool): Layout
    requires |l.offsets| > 0 && shared <= |p.key|
  {
    Layout(l.pairs + [p], l.offsets + [l.offsets[|l.offsets| - 1] + |EncodeEntry(shared, p)|], l.shared + [shared],
           if restart then l.restarts + [|l.pairs|] else l.restarts)
  }

  lemma {:induction false} EntryAdded(buffer: Bytes, restarts: seq<nat>, l: Layout, order: Order, shared: nat, p: Pair,
                                      restart: bool)
    requires Lies(buffer, restarts, l) && Ascending(order, l.pairs)
    requires l.pairs != [] ==> order(KeyBefore(l, |l.pairs|)) < order(p.key)
    requires shared <= |p.key| && |p.key| + |p.value| < WORD32
    requires shared <= |KeyBefore(l, |l.pairs|)| && KeyBefore(l, |l.pairs|)[..shared] == p.key[..shared]
    requires restart ==> shared == 0
    ensures Lies(buffer + EncodeEntry(shared, p), if restart then restarts + [|buffer|] else restarts,
                 Extended(l, shared, p, restart))
    ensures Ascending(order, l.pairs + [p])
  {
    var m, longer := Extended(l, shared, p, restart), buffer + EncodeEntry(shared, p);
    var rs := if restart then restarts + [|buffer|] else restarts;
    assert |EncodeEntry(shared, p)| > 0;
    forall i | 0 <= i < |m.pairs| ensures EntryLies(longer, m, i) {
      if i < |l.pairs| {
        assert EntryLies(buffer, l, i);
        assert longer[m.offsets[i]..m.offsets[i + 1]] == buffer[l.offsets[i]..l.offsets[i + 1]];
      }
    }
    forall j | 0 <= j < |rs| ensures RestartLies(rs, m, j) {
      if j < |restarts| {
        assert RestartLies(restarts, l, j);
        FirstSharesNothing(buffer, restarts, l, shared, p);
      }
    }
  }

  lemma FirstSharesNothing(buffer: Bytes, restarts: seq<nat>, l: Layout, shared: nat, p: Pair)
    requires Lies(buffer, restarts, l) && shared <= |KeyBefore(l, |l.pairs|)|
    ensures l.pairs == [] ==> shared == 0
  {
  }

  datatype RestartArray = RestartArray(restartsAt: nat, numRestarts: nat)

  /** Finds the restart array; contents too short for one have none. */
  function Open(contents: Bytes): (r: Option<RestartArray>)
    ensures r.Some? ==> r.value.restartsAt + 4 * r.value.numRestarts + 4 == |contents|
  {
    if |contents| < 4 then None
    else
      var num := DecodeFixed(contents[|contents| - 4..]);
      if num > (|contents| - 4) / 4 then None else Some(RestartArray(|contents| - 4 * num - 4, num))
  }

  lemma {:induction false} OpenBlock(buffer: Bytes, restarts: seq<nat>)
    requires |BlockBytes(buffer, restarts)| < WORD32
    ensures Open(BlockBytes(buffer, restarts)) == Some(RestartArray(|buffer|, |restarts|))
    ensures forall j :: 0 <= j < |restarts| && restarts[j] < WORD32 ==>
                          DecodeFixed(BlockBytes(buffer, restarts)[|buffer| + 4 * j..|buffer| + 4 * j + 4]) ==
                              restarts[j]
  {
    var contents := BlockBytes(buffer, restarts);
    Fixed32RoundTrip(|restarts|);
    assert contents[|contents| - 4..] == Fixed32(|restarts|);
    forall j | 0 <= j < |restarts| && restarts[j] < WORD32
      ensures DecodeFixed(contents[|buffer| + 4 * j..|buffer| + 4 * j + 4]) == restarts[j]
    {
      WordAt(restarts, j);
      assert contents[|buffer| + 4 * j..|buffer| + 4 * j + 4] == Words(restarts)[4 * j..4 * j + 4];
      Fixed32RoundTrip(restarts[j]);
    }
  }

  /** The entry at `i` parses to its lengths, and its parts lie where they should. */
  lemma {:induction false} EntryParses(buffer: Bytes, restarts: seq<nat>, l: Layout, i: nat)
    requires Lies(buffer, restarts, l) && i < |l.pairs|
    ensures l.offsets[i] < l.offsets[i + 1] <= |buffer|
    ensures var p, at := l.pairs[i], l.offsets[i];
            && l.shared[i] <= |p.key| && |p.key| + |p.value| < WORD32
            && ReadLengths(buffer[at..]) ==
                 Some(Lengths(l.shared[i], |p.key| - l.shared[i], |p.value|, KeyStart(l.shared[i], p)))
            && var k := at + KeyStart(l.shared[i], p);
            && k + |p.key| - l.shared[i] + |p.value| == l.offsets[i + 1]
            && buffer[k..k + |p.key| - l.shared[i]] == p.key[l.shared[i]..]
            && buffer[k + |p.key| - l.shared[i]..l.offsets[i + 1]] == p.value
  {
    assert EntryLies(buffer, l, i);
    var p, at, end := l.pairs[i], l.offsets[i], l.offsets[i + 1];
    LengthsRoundTrip(l.shared[i], p, buffer[end..]);
    assert buffer[at..] == EncodeEntry(l.shared[i], p) + buffer[end..];
    EntryParts(buffer, at, end, l.shared[i], p);
  }

  lemma EntryParts(buffer: Bytes, at: nat, end: nat, shared: nat, p: Pair)
    requires shared <= |p.key| && at <= end <= |buffer| && buffer[at..end] == EncodeEntry(shared, p)
    ensures var k := at + KeyStart(shared, p);
            && k + |p.key| - shared + |p.value| == end
            && buffer[k..k + |p.key| - shared] == p.key[shared..]
            && buffer[k + |p.key| - shared..end] == p.value
  {
    var e, k, n := EncodeEntry(shared, p), KeyStart(shared, p), |p.key| - shared;
    assert e[k..k + n] == p.key[shared..];
    assert e[k + n..] == p.value;
    SliceOfSlice(buffer, at, end, k, k + n);
    SliceOfSlice(buffer, at, end, k + n, end - at);
  }

  /** The first pair at or after the target. */
  function SeekPair(order: Order, pairs: seq<Pair>, target: Bytes): (p: nat)
    ensures p <= |pairs|
    ensures forall i :: 0 <= i < p ==> order(pairs[i].key) < order(target)
    ensures p < |pairs| ==> order(pairs[p].key) >= order(target)
  {
    if pairs == [] || order(pairs[0].key) >= order(target) then 0 else 1 + SeekPair(order, pairs[1..], target)
  }

  lemma {:induction false} RestartsFit(buffer: Bytes, restarts: seq<nat>, l: Layout)
    requires Lies(buffer, restarts, l)
    ensures forall j :: 0 <= j < |restarts| ==> restarts[j] <= |buffer|
  {
    forall j | 0 <= j < |restarts| ensures restarts[j] <= |buffer| {
      assert RestartLies(restarts, l, j);
      OffsetsAscend(buffer, restarts, l, l.restarts[j], |l.pairs|);
    }
  }

  class BlockIter {
    const order: Order
    const data: Bytes
    const restartsAt: nat
    const numRestarts: nat
    /** Where the current entry starts, and the restart block that it falls in. */
    var current: nat
    var restartIndex: nat
    var key: Bytes
    var valueAt: nat
    var valueLength: nat
    ghost const restarts: seq<nat>
    ghost const layout: Layout
    ghost var position: nat

    constructor (order: Order, data: Bytes, found: RestartArray, ghost buffer: Bytes, ghost restarts: seq<nat>,
                 ghost layout: Layout)
      requires Open(data) == Some(found) && data == BlockBytes(buffer, restarts) && |data| < WORD32
      requires Lies(buffer, restarts, layout) && Ascending(order, layout.pairs)
      ensures Valid() && position == |layout.pairs|
      ensures this.layout == layout && this.order == order
    {
      OpenBlock(buffer, restarts);
      RestartsFit(buffer, restarts, layout);
      this.order, this.data, restartsAt, numRestarts := order, data, found.restartsAt, found.numRestarts;
      current, restartIndex := found.restartsAt, found.numRestarts;
      key, valueAt, valueLength := [], 0, 0;
      this.restarts, this.layout := restarts, layout;
      position := |layout.pairs|;
      assert data[..|buffer|] == buffer;
    }

    ghost function Buffer(): Bytes
      requires restartsAt <= |data|
    {
      data[..restartsAt]
    }

    ghost predicate WellFormed()
    {
      && restartsAt <= |data| < WORD32
      && numRestarts == |restarts| && restartsAt + 4 * numRestarts + 4 == |data|
      && (forall j :: 0 <= j < numRestarts ==>
            DecodeFixed(data[restartsAt + 4 * j..restartsAt + 4 * j + 4]) == restarts[j])
      && Lies(Buffer(), restarts, layout)
      && Ascending(order, layout.pairs)
    }

    /** The iterator stands at entry `i`, or is invalid past the last one. */
    ghost predicate Standing(i: nat)
      requires WellFormed()
      reads this
    {
      && i <= |layout.pairs|
      && current == layout.offsets[i]
      && if i == |layout.pairs| then restartIndex == numRestarts
         else
           && key == layout.pairs[i].key
           && valueAt + valueLength == layout.offsets[i + 1] <= |data|
           && data[valueAt..valueAt + valueLength] == layout.pairs[i].value
           && restartIndex < numRestarts && restarts[restartIndex] <= current
           && (restartIndex + 1 < numRestarts ==> current <= restarts[restartIndex + 1])
    }

    ghost predicate Valid()
      reads this
    {
      WellFormed() && Standing(position)
    }

    /** Parsing goes on at entry `j`, and the key holds what that entry shares. */
    ghost predicate Primed(j: nat)
      requires WellFormed()
      reads this
    {
      && j <= |layout.pairs| && valueAt + valueLength == layout.offsets[j]
      && restartIndex < numRestarts && restarts[restartIndex] <= layout.offsets[j]
      && (j < |layout.pairs| ==>
            layout.shared[j] <= |key| && layout.shared[j] <= |layout.pairs[j].key|
            && key[..layout.shared[j]] == layout.pairs[j].key[..layout.shared[j]])
    }

    predicate IsValid()
      reads this
    {
      current < restartsAt
    }

    lemma IsValidHolds()
      requires Valid()
      ensures IsValid() <==> position < |layout.pairs|
    {
      OffsetsAscend(Buffer(), restarts, layout, position, |layout.pairs|);
    }

    function Key(): Bytes
      reads this
    {
      key
    }

    function Value(): Bytes
      requires valueAt + valueLength <= |data|
      reads this
    {
      data[valueAt..valueAt + valueLength]
    }

    function NextEntryOffset(): nat
      reads this
    {
      valueAt + valueLength
    }

    function GetRestartPoint(index: nat): (offset: nat)
      requires WellFormed() && index < numRestarts
      ensures offset == restarts[index]
    {
      DecodeFixed(data[restartsAt + 4 * index..restartsAt + 4 * index + 4])
    }

    method SeekToRestartPoint(index: nat)
      requires WellFormed() && index < numRestarts
      modifies this
      ensures Primed(layout.restarts[index])
    {
      assert RestartLies(restarts, layout, index);
      key := [];
      restartIndex := index;
      // The current offset is set by parsing, which starts at the end of the value.
      valueAt, valueLength := GetRestartPoint(index), 0;
    }

    /** Parses the next entry; past the last one the iterator becomes invalid. */
    method ParseNextKey(ghost j: nat) returns (more: bool)
      requires WellFormed() && Primed(j)
      modifies this
      ensures more == (j < |layout.pairs|)
      ensures Standing(j) && position == j
      ensures more ==> Primed(j + 1)
    {
      OffsetsAscend(Buffer(), restarts, layout, j, |layout.pairs|);
      current := NextEntryOffset();
      position := j;
      if current >= restartsAt {
        current := restartsAt;
        restartIndex := numRestarts;
        return false;
      }
      ParseEntry(j);
      SkipRestarts();
      more := true;
      NextShares(j);
    }

    method SkipRestarts()
      requires WellFormed() && restartIndex < numRestarts && restarts[restartIndex] <= current
      modifies this`restartIndex
      ensures restartIndex < numRestarts && restarts[restartIndex] <= current
      ensures restartIndex + 1 < numRestarts ==> current <= restarts[restartIndex + 1]
    {
      while restartIndex + 1 < numRestarts && GetRestartPoint(restartIndex + 1) < current
        invariant restartIndex < numRestarts && restarts[restartIndex] <= current
        decreases numRestarts - restartIndex
      {
        restartIndex := restartIndex + 1;
      }
    }

    /** Decodes the entry at the current offset. */
    method ParseEntry(ghost j: nat)
      requires WellFormed() && Primed(j) && j < |layout.pairs| && current == layout.offsets[j] < restartsAt
      modifies this`key, this`valueAt, this`valueLength
      ensures key == layout.pairs[j].key
      ensures valueAt + valueLength == layout.offsets[j + 1] <= restartsAt
      ensures data[valueAt..valueAt + valueLength] == layout.pairs[j].value
    {
      EntryParses(Buffer(), restarts, layout, j);
      assert data[current..restartsAt] == Buffer()[layout.offsets[j]..];
      var lengths := DecodeEntry(data[current..restartsAt]);
      if lengths.None? || |key| < lengths.value.shared {
        assert false;
      }
      var Lengths(shared, nonShared, length, used) := lengths.value;
      var p := current + used;
      EntryTaken(j, p, nonShared);
      key := key[..shared] + data[p..p + nonShared];
      valueAt, valueLength := p + nonShared, length;
    }

    lemma EntryTaken(j: nat, p: nat, nonShared: nat)
      requires WellFormed() && j < |layout.pairs|
      requires var pair, shared := layout.pairs[j], layout.shared[j];
               && shared <= |pair.key| && p == layout.offsets[j] + KeyStart(shared, pair)
                     && nonShared == |pair.key| - shared
      ensures var pair, shared := layout.pairs[j], layout.shared[j];
              && p + nonShared + |pair.value| == layout.offsets[j + 1] <= restartsAt
              && pair.key[..shared] + data[p..p + nonShared] == pair.key
              && data[p + nonShared..layout.offsets[j + 1]] == pair.value
    {
      EntryParses(Buffer(), restarts, layout, j);
      var end := layout.offsets[j + 1];
      SliceOfSlice(data, 0, restartsAt, p, p + nonShared);
      SliceOfSlice(data, 0, restartsAt, p + nonShared, end);
    }

    lemma NextShares(j: nat)
      requires WellFormed() && j < |layout.pairs|
      ensures layout.offsets[j] <= layout.offsets[j + 1]
      ensures j + 1 < |layout.pairs| ==>
                && layout.shared[j + 1] <= |layout.pairs[j].key| && layout.shared[j + 1] <= |layout.pairs[j + 1].key|
                && layout.pairs[j].key[..layout.shared[j + 1]] == layout.pairs[j + 1].key[..layout.shared[j + 1]]
    {
      assert EntryLies(Buffer(), layout, j);
      if j + 1 < |layout.pairs| {
        assert EntryLies(Buffer(), layout, j + 1);
      }
    }

    method Next()
      requires Valid() && position < |layout.pairs|
      modifies this
      ensures Valid() && position == old(position) + 1
    {
      NextShares(position);
      var more := ParseNextKey(position + 1);
    }

    method SeekToFirst()
      requires WellFormed()
      modifies this
      ensures Valid() && position == 0
    {
      assert RestartLies(restarts, layout, 0);
      SeekToRestartPoint(0);
      var more := ParseNextKey(0);
    }

    /** Parses on until the end of an entry reaches `limit`, where entry `i` starts. */
    method ScanUntil(limit: nat, ghost e: nat, ghost i: nat)
      requires WellFormed() && Primed(e) && i <= |layout.pairs| && limit == layout.offsets[i]
      requires e < i || |layout.pairs| == 0
      modifies this
      ensures Standing(position) && position == if |layout.pairs| == 0 then 0 else i - 1
    {
      var more := ParseNextKey(e);
      while more && NextEntryOffset() < limit
        invariant Standing(position)
        invariant if more then position < i && Primed(position + 1) else |layout.pairs| == 0 == position
        decreases |layout.pairs| - position
      {
        more := ScanOne(i);
      }
      if more {
        OffsetIsNotBefore(position + 1, i);
      }
    }

    /** Goes on to an entry that starts before entry `i`. */
    method ScanOne(ghost i: nat) returns (more: bool)
      requires WellFormed() && i <= |layout.pairs| && position < i && Primed(position + 1)
      requires NextEntryOffset() < layout.offsets[i]
      modifies this
      ensures more && Standing(position) && position == old(position) + 1 < i && Primed(position + 1)
    {
      OffsetIsBefore(position + 1, i);
      more := ParseNextKey(position + 1);
    }

    lemma OffsetIsNotBefore(e: nat, i: nat)
      requires WellFormed() && e <= i <= |layout.pairs| && layout.offsets[e] >= layout.offsets[i]
      ensures e == i
    {
      OffsetsAscend(Buffer(), restarts, layout, e, i);
    }

    method SeekToLast()
      requires WellFormed()
      modifies this
      ensures Valid() && position == if |layout.pairs| == 0 then 0 else |layout.pairs| - 1
    {
      assert RestartLies(restarts, layout, numRestarts - 1);
      ghost var e := layout.restarts[numRestarts - 1];
      SeekToRestartPoint(numRestarts - 1);
      ScanUntil(restartsAt, e, |layout.pairs|);
    }

    /** Goes back to a restart point before `original`, if there is one. */
    method BackUp(original: nat) returns (found: bool)
      requires WellFormed() && restartIndex < numRestarts
      modifies this`restartIndex
      ensures found ==> restartIndex < numRestarts && restarts[restartIndex] < original
      ensures !found ==> restarts[0] >= original
    {
      while GetRestartPoint(restartIndex) >= original
        invariant restartIndex < numRestarts
        decreases restartIndex
      {
        if restartIndex == 0 {
          return false;
        }
        restartIndex := restartIndex - 1;
      }
      found := true;
    }

    /** Scans from the last restart point before the current entry. */
    method Prev()
      requires Valid() && position < |layout.pairs|
      modifies this
      ensures Valid() && position == if old(position) == 0 then |layout.pairs| else old(position) - 1
    {
      ghost var i := position;
      var original := current;
      var found := BackUp(original);
      if !found {
        // No more entries.
        assert RestartLies(restarts, layout, 0);
        OffsetIsNotBefore(0, i);
        current := restartsAt;
        restartIndex := numRestarts;
        position := |layout.pairs|;
        return;
      }
      RestartIsBefore(restartIndex, i);
      ghost var e := layout.restarts[restartIndex];
      SeekToRestartPoint(restartIndex);
      ScanUntil(original, e, i);
    }

    lemma OffsetIsBefore(e: nat, i: nat)
      requires WellFormed() && e <= |layout.pairs| && i <= |layout.pairs| && layout.offsets[e] < layout.offsets[i]
      ensures e < i
    {
      if i <= e {
        OffsetsAscend(Buffer(), restarts, layout, i, e);
      }
    }

    lemma RestartIsBefore(j: nat, i: nat)
      requires WellFormed() && j < numRestarts && i <= |layout.pairs| && restarts[j] < layout.offsets[i]
      ensures layout.restarts[j] < i
    {
      assert RestartLies(restarts, layout, j);
      OffsetIsBefore(layout.restarts[j], i);
    }

    /** The last restart point with a key before the target, or the first one. */
    method FindRestart(target: Bytes) returns (left: nat)
      requires WellFormed()
      ensures left < numRestarts
      ensures left == 0 || (layout.restarts[left] < |layout.pairs|
                            && order(layout.pairs[layout.restarts[left]].key) < order(target))
    {
      left := 0;
      var right: nat := numRestarts - 1;
      while left < right
        invariant left <= right < numRestarts
        invariant left == 0 || (layout.restarts[left] < |layout.pairs|
                                && order(layout.pairs[layout.restarts[left]].key) < order(target))
      {
        var mid := (left + right + 1) / 2;
        var midKey := RestartKey(mid);
        if order(midKey) < order(target) {
          left := mid;
        } else {
          right := mid - 1;
        }
      }
    }

    /** The key at a restart point, which shares nothing. */
    method RestartKey(index: nat) returns (restartKey: Bytes)
      requires WellFormed() && 0 < index < numRestarts
      ensures layout.restarts[index] < |layout.pairs| && restartKey == layout.pairs[layout.restarts[index]].key
    {
      var offset := GetRestartPoint(index);
      assert RestartLies(restarts, layout, index);
      ghost var e := layout.restarts[index];
      EntryParses(Buffer(), restarts, layout, e);
      assert data[offset..restartsAt] == Buffer()[layout.offsets[e]..];
      var lengths := DecodeEntry(data[offset..restartsAt]);
      if lengths.None? || lengths.value.shared != 0 {
        assert false;
      }
      var p := offset + lengths.value.used;
      EntryTaken(e, p, lengths.value.nonShared);
      restartKey := data[p..p + lengths.value.nonShared];
    }

    /** The first key at or after the target: binary search in the restart array, then a linear scan. */
    method Seek(target: Bytes)
      requires WellFormed()
      modifies this
      ensures Valid() && position == SeekPair(order, layout.pairs, target)
    {
      var left := FindRestart(target);
      assert RestartLies(restarts, layout, left);
      SeekToRestartPoint(left);
      ghost var j := layout.restarts[left];
      while true
        invariant WellFormed() && Primed(j)
        invariant forall i :: 0 <= i < j ==> order(layout.pairs[i].key) < order(target)
        decreases |layout.pairs| - j
      {
        var more := ParseNextKey(j);
        if !more || order(key) >= order(target) {
          break;
        }
        j := j + 1;
      }
      SeekPairIs(order, layout.pairs, target, j);
    }
  }

  lemma SeekPairIs(order: Order, pairs: seq<Pair>, target: Bytes, p: nat)
    requires p <= |pairs| && forall i :: 0 <= i < p ==> order(pairs[i].key) < order(target)
    requires p < |pairs| ==> order(pairs[p].key) >= order(target)
    ensures SeekPair(order, pairs, target) == p
  {
  }

  /** Iterating a finished block from the first entry gives back exactly the pairs that were added. */
  method ReadAllPairs(order: Order, contents: Bytes, ghost buffer: Bytes, ghost restarts: seq<nat>,
                      ghost layout: Layout)
    returns (pairs: seq<Pair>)
    requires contents == BlockBytes(buffer, restarts) && |contents| < WORD32
    requires Lies(buffer, restarts, layout) && Ascending(order, layout.pairs)
    ensures pairs == layout.pairs
  {
    OpenBlock(buffer, restarts);
    var found := Open(contents);
    var iter := new BlockIter(order, contents, found.value, buffer, restarts, layout);
    pairs := [];
    iter.SeekToFirst();
    iter.IsValidHolds();
    while iter.IsValid()
      invariant iter.Valid() && iter.layout == layout && iter.position <= |layout.pairs|
      invariant pairs == layout.pairs[..iter.position]
      invariant iter.IsValid() <==> iter.position < |layout.pairs|
      decreases |layout.pairs| - iter.position
    {
      pairs := pairs + [Pair(iter.Key(), iter.Value())];
      iter.Next();
      iter.IsValidHolds();
    }
  }
}
