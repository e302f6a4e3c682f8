/**
 The filter block of a table: one filter for every 2 KB window of block offsets.
 */
module FilterBlock {
  import opened InternalKeys
  import opened Coding
  import Bloom

  const FILTER_BASE_LG: Byte := 11

  /** The 2 KB window that a block offset falls in. */
  function WindowOf(offset: nat): nat {
    offset / 2048
  }

  datatype FilterPolicy = FilterPolicy(create: seq<Bytes> -> Bytes, mayMatch: (Bytes, Bytes) -> bool)

  /** A policy never denies a key that a filter was made from. */
  ghost predicate Sound(policy: FilterPolicy) {
    forall keys: seq<Bytes>, key: Bytes :: key in keys ==> policy.mayMatch(key, policy.create(keys))
  }

  function BloomPolicy(bloom: Bloom.Policy): FilterPolicy {
    FilterPolicy(keys => Bloom.FilterOf(bloom, keys), (key, filter) => Bloom.MayMatch(bloom, key, filter))
  }

  lemma {:induction false} BloomIsSound(bloom: Bloom.Policy)
    ensures Sound(BloomPolicy(bloom))
  {
    forall keys: seq<Bytes>, key: Bytes | key in keys ensures Bloom.MayMatch(bloom, key, Bloom.FilterOf(bloom, keys)) {
      Bloom.AddedKeyMatches(bloom, keys, key);
    }
  }

  function Join(keys: seq<Bytes>): Bytes {
    if keys == [] then [] else Join(keys[..|keys| - 1]) + keys[|keys| - 1]
  }

  lemma {:induction false} JoinSlice(keys: seq<Bytes>, i: nat)
    requires i < |keys|
    ensures Join(keys[..i + 1]) == Join(keys[..i]) + keys[i]
    ensures |Join(keys[..i])| + |keys[i]| <= |Join(keys)|
    ensures Join(keys)[|Join(keys[..i])|..|Join(keys[..i])| + |keys[i]|] == keys[i]
  {
    assert keys[..i + 1][..i] == keys[..i];
    if i + 1 < |keys| {
      var front := keys[..|keys| - 1];
      JoinSlice(front, i);
      assert front[..i] == keys[..i];
    } else {
      assert keys[..i + 1] == keys;
    }
  }

  /** The filter of a window; a window without keys has an empty one. */
  function FilterOfWindow(policy: FilterPolicy, window: seq<Bytes>): Bytes {
    if window == [] then [] else policy.create(window)
  }

  function FiltersOf(policy: FilterPolicy, windows: seq<seq<Bytes>>): (filters: seq<Bytes>)
    ensures |filters| == |windows|
    ensures forall i :: 0 <= i < |windows| ==> filters[i] == FilterOfWindow(policy, windows[i])
  {
    seq(|windows|, i requires 0 <= i < |windows| => FilterOfWindow(policy, windows[i]))
  }

  /** Where each of the filters starts. */
  function Offsets(filters: seq<Bytes>): (offsets: seq<nat>)
    ensures |offsets| == |filters|
    ensures forall i :: 0 <= i < |filters| ==> offsets[i] == |Join(filters[..i])|
  {
    seq(|filters|, i requires 0 <= i < |filters| => |Join(filters[..i])|)
  }

  /** The finished block. */
  function Layout(filters: seq<Bytes>): Bytes {
    Join(filters) + Words(Offsets(filters)) + Fixed32(|Join(filters)|) + [FILTER_BASE_LG]
  }

  datatype Addition = Addition(offset: nat, key: Bytes)

  class FilterBlockBuilder {
    const policy: FilterPolicy
    /** The pending keys end to end, and where each starts. */
    var keys: Bytes
    var start: seq<nat>
    var result: Bytes
    var filterOffsets: seq<nat>
    ghost var pending: seq<Bytes>
    ghost var windows: seq<seq<Bytes>>
    /** Every key with the block offset it was added under, and the offset of the block being built. */
    ghost var history: seq<Addition>
    ghost var blockOffset: nat

    constructor (policy: FilterPolicy)
      ensures Valid() && this.policy == policy && history == [] && windows == [] && pending == [] && blockOffset == 0
    {
      this.policy := policy;
      keys, start, result, filterOffsets := [], [], [], [];
      pending, windows, history, blockOffset := [], [], [], 0;
    }

    ghost predicate Valid()
      reads this
    {
      && keys == Join(pending)
      && |start| == |pending|
      && (forall i :: 0 <= i < |pending| ==> start[i] == |Join(pending[..i])|)
      && result == Join(FiltersOf(policy, windows))
      && filterOffsets == Offsets(FiltersOf(policy, windows))
      && |windows| == WindowOf(blockOffset)
      && AdditionsKept(history, windows, pending)
    }

    /** Each added key waits in the window of its offset. */
    static ghost predicate AdditionsKept(history: seq<Addition>, windows: seq<seq<Bytes>>, pending: seq<Bytes>) {
      forall a :: a in history ==>
                    && WindowOf(a.offset) <= |windows|
                    && (WindowOf(a.offset) < |windows| ==> a.key in windows[WindowOf(a.offset)])
                    && (WindowOf(a.offset) == |windows| ==> a.key in pending)
    }

    /** Offsets do not decrease. */
    method StartBlock(offset: nat)
      requires Valid() && offset >= blockOffset
      modifies this
      ensures Valid() && blockOffset == offset && history == old(history)
    {
      var filterIndex := WindowOf(offset);
      while filterIndex > |filterOffsets|
        invariant filterIndex >= |windows| && |filterOffsets| == |windows|
        invariant WindowOf(blockOffset) == |windows|
        invariant Valid() && history == old(history)
      {
        GenerateFilter();
        blockOffset := |windows| * 2048;
      }
      blockOffset := offset;
    }

    method AddKey(key: Bytes)
      requires Valid()
      modifies this
      ensures Valid() && blockOffset == old(blockOffset)
      ensures history == old(history) + [Addition(blockOffset, key)]
    {
      start := start + [|keys|];
      keys := keys + key;
      history := history + [Addition(blockOffset, key)];
      ghost var was := pending;
      pending := pending + [key];
      assert pending[..|was|] == was;
      assert forall i :: 0 <= i < |was| ==> pending[..i] == was[..i];
      assert key in pending;
    }

    /** Closes the current window. */
    method GenerateFilter()
      requires keys == Join(pending) && |start| == |pending|
      requires forall i :: 0 <= i < |pending| ==> start[i] == |Join(pending[..i])|
      requires result == Join(FiltersOf(policy, windows))
      requires filterOffsets == Offsets(FiltersOf(policy, windows))
      requires AdditionsKept(history, windows, pending)
      modifies this
      ensures windows == old(windows) + [old(pending)] && pending == []
      ensures keys == [] && start == []
      ensures result == Join(FiltersOf(policy, windows))
      ensures filterOffsets == Offsets(FiltersOf(policy, windows))
      ensures AdditionsKept(history, windows, pending)
      ensures history == old(history) && blockOffset == old(blockOffset)
    {
      FiltersAppend(policy, windows, pending);
      var numKeys := |start|;
      if numKeys == 0 {
        // Fast path if there are no keys for this filter.
        filterOffsets := filterOffsets + [|result|];
        assert keys == [];
      } else {
        var tmpKeys := SplitKeys();
        filterOffsets := filterOffsets + [|result|];
        result := result + policy.create(tmpKeys);
        keys, start := [], [];
      }
      windows := windows + [pending];
      pending := [];
    }

    /** Cuts the flattened keys apart again. */
    method SplitKeys() returns (tmpKeys: seq<Bytes>)
      requires keys == Join(pending) && |start| == |pending|
      requires forall i :: 0 <= i < |pending| ==> start[i] == |Join(pending[..i])|
      ensures tmpKeys == pending
    {
      var limits := start + [|keys|];
      tmpKeys := [];
      for i := 0 to |start|
        invariant tmpKeys == pending[..i]
      {
        JoinSlice(pending, i);
        assert i + 1 == |pending| ==> pending[..i + 1] == pending;
        tmpKeys := tmpKeys + [keys[limits[i]..limits[i + 1]]];
      }
    }

    method Finish() returns (contents: Bytes)
      requires Valid()
      modifies this
      ensures contents == Layout(FiltersOf(policy, windows))
      ensures windows == if old(pending) == [] then old(windows) else old(windows) + [old(pending)]
      ensures history == old(history) && AdditionsKept(history, windows, [])
    {
      if start != [] {
        GenerateFilter();
      }
      var arrayOffset := |result|;
      contents := AppendWords(result, filterOffsets);
      contents := contents + Fixed32(arrayOffset);
      contents := contents + [FILTER_BASE_LG];
      result := contents;
    }
  }

  lemma FiltersAppend(policy: FilterPolicy, windows: seq<seq<Bytes>>, window: seq<Bytes>)
    ensures FiltersOf(policy, windows + [window]) == FiltersOf(policy, windows) + [FilterOfWindow(policy, window)]
    ensures Join(FiltersOf(policy, windows + [window])) ==
            Join(FiltersOf(policy, windows)) + FilterOfWindow(policy, window)
    ensures Offsets(FiltersOf(policy, windows + [window])) ==
              Offsets(FiltersOf(policy, windows)) + [|Join(FiltersOf(policy, windows))|]
  {
    var before := FiltersOf(policy, windows);
    var after := FiltersOf(policy, windows + [window]);
    assert after == before + [FilterOfWindow(policy, window)];
    assert forall i :: 0 <= i <= |before| ==> after[..i] == before[..i];
    assert before[..|before|] == before;
  }

  function ShiftRight(v: nat, n: nat): nat
    decreases n
  {
    if n == 0 then v else ShiftRight(v / 2, n - 1)
  }

  lemma ShiftByBaseLg(v: nat)
    ensures ShiftRight(v, FILTER_BASE_LG) == WindowOf(v)
  {
    assert ShiftRight(v, 11) == ShiftRight(v / 2 / 2 / 2 / 2, 7);
    assert ShiftRight(v / 16, 7) == ShiftRight(v / 16 / 2 / 2 / 2 / 2, 3);
    assert ShiftRight(v / 256, 3) == v / 256 / 2 / 2 / 2;
  }

  /** What a reader keeps of the contents; without an offset array it knows nothing. */
  datatype FilterBlockReader = FilterBlockReader(data: Bytes, arrayOffset: nat, num: nat, baseLg: nat)

  predicate ReaderValid(r: FilterBlockReader) {
    r.num > 0 ==> r.arrayOffset + 4 * r.num + 4 <= |r.data|
  }

  function NewReader(contents: Bytes): (r: FilterBlockReader)
    ensures ReaderValid(r)
  {
    var n := |contents|;
    if n < 5 then FilterBlockReader([], 0, 0, 0)
    else
      var lastWord := DecodeFixed(contents[n - 5..n - 1]);
      if lastWord > n - 5 then FilterBlockReader([], 0, 0, contents[n - 1])
      else FilterBlockReader(contents, lastWord, (n - 5 - lastWord) / 4, contents[n - 1])
  }

  predicate KeyMayMatch(policy: FilterPolicy, r: FilterBlockReader, blockOffset: nat, key: Bytes)
    requires ReaderValid(r)
  {
    var index := ShiftRight(blockOffset, r.baseLg);
    if index < r.num then
      var at := r.arrayOffset + 4 * index;
      var start := DecodeFixed(r.data[at..at + 4]);
      var limit := DecodeFixed(r.data[at + 4..at + 8]);
      if start <= limit && limit <= r.arrayOffset then policy.mayMatch(key, r.data[start..limit])
      else start != limit
    else true
  }

  /** The words of the offset array, including the one behind it that ends the last filter. */
  lemma {:induction false} ArrayWord(filters: seq<Bytes>, i: nat)
    requires |Join(filters)| < WORD32 && i <= |filters|
    ensures |Layout(filters)| == |Join(filters)| + 4 * |filters| + 5
    ensures var at := |Join(filters)| + 4 * i;
            DecodeFixed(Layout(filters)[at..at + 4]) == |Join(filters[..i])|
  {
    var size, offsets := |Join(filters)|, Offsets(filters);
    var at := size + 4 * i;
    if i < |filters| {
      WordAt(offsets, i);
      JoinSlice(filters, i);
      assert Layout(filters)[at..at + 4] == Words(offsets)[4 * i..4 * i + 4];
      Fixed32RoundTrip(offsets[i]);
    } else {
      assert filters[..i] == filters;
      assert Layout(filters)[at..at + 4] == Fixed32(size);
      Fixed32RoundTrip(size);
    }
  }

  lemma {:induction false} ReaderOfLayout(filters: seq<Bytes>)
    requires |Join(filters)| < WORD32
    ensures NewReader(Layout(filters)) == FilterBlockReader(Layout(filters), |Join(filters)|, |filters|, FILTER_BASE_LG)
  {
    var contents := Layout(filters);
    ArrayWord(filters, |filters|);
    assert filters[..|filters|] == filters;
    assert |contents| - 5 == |Join(filters)| + 4 * |filters|;
  }

  lemma {:induction false} FilterSlice(filters: seq<Bytes>, i: nat)
    requires i < |filters|
    ensures var start, limit := |Join(filters[..i])|, |Join(filters[..i + 1])|;
            start <= limit <= |Join(filters)| && Layout(filters)[start..limit] == filters[i]
  {
    JoinSlice(filters, i);
    var start, limit := |Join(filters[..i])|, |Join(filters[..i + 1])|;
    assert Layout(filters)[start..limit] == Join(filters)[start..limit];
  }

  ghost predicate HasWord(contents: Bytes, at: nat, value: nat) {
    at + 4 <= |contents| && DecodeFixed(contents[at..at + 4]) == value
  }

  /** Where a reader finds filter `i`. */
  ghost predicate HasFilter(contents: Bytes, filters: seq<Bytes>, i: nat) {
    && i < |filters|
    && |contents| == |Join(filters)| + 4 * |filters| + 5
    && HasWord(contents, |Join(filters)| + 4 * i, |Join(filters[..i])|)
    && HasWord(contents, |Join(filters)| + 4 * i + 4, |Join(filters[..i + 1])|)
    && |Join(filters[..i])| <= |Join(filters[..i + 1])| <= |Join(filters)|
    && contents[|Join(filters[..i])|..|Join(filters[..i + 1])|] == filters[i]
  }

  lemma {:induction false} LayoutHasFilter(filters: seq<Bytes>, i: nat)
    requires |Join(filters)| < WORD32 && i < |filters|
    ensures HasFilter(Layout(filters), filters, i)
  {
    ArrayWord(filters, i);
    ArrayWord(filters, i + 1);
    FilterSlice(filters, i);
    assert |Join(filters)| + 4 * i + 4 == |Join(filters)| + 4 * (i + 1);
  }

  lemma {:induction false} AskFilter(policy: FilterPolicy, contents: Bytes, filters: seq<Bytes>, blockOffset: nat,
                                     key: Bytes)
    requires HasFilter(contents, filters, ShiftRight(blockOffset, FILTER_BASE_LG))
    ensures var r := FilterBlockReader(contents, |Join(filters)|, |filters|, FILTER_BASE_LG);
            ReaderValid(r) && (KeyMayMatch(policy, r, blockOffset, key) <==>
                                 policy.mayMatch(key, filters[ShiftRight(blockOffset, FILTER_BASE_LG)]))
  {
  }

  /** Reading the block asks the policy about exactly the filter of the window that the offset falls in. */
  lemma {:induction false} ReaderAsksTheWindow(policy: FilterPolicy, windows: seq<seq<Bytes>>, blockOffset: nat,
                                               key: Bytes)
    requires |Join(FiltersOf(policy, windows))| < WORD32
    ensures var r, index := NewReader(Layout(FiltersOf(policy, windows))), WindowOf(blockOffset);
            KeyMayMatch(policy, r, blockOffset, key) ==
              (index < |windows| ==> policy.mayMatch(key, FilterOfWindow(policy, windows[index])))
  {
    var filters := FiltersOf(policy, windows);
    ReaderOfLayout(filters);
    ShiftByBaseLg(blockOffset);
    if WindowOf(blockOffset) < |windows| {
      LayoutHasFilter(filters, WindowOf(blockOffset));
      AskFilter(policy, Layout(filters), filters, blockOffset, key);
    }
  }

  /** No key that was added under an offset is denied at that offset. */
  lemma {:induction false} NoFalseNegatives(policy: FilterPolicy, windows: seq<seq<Bytes>>, history: seq<Addition>,
                                            a: Addition)
    requires Sound(policy) && |Join(FiltersOf(policy, windows))| < WORD32
    requires FilterBlockBuilder.AdditionsKept(history, windows, []) && a in history
    ensures KeyMayMatch(policy, NewReader(Layout(FiltersOf(policy, windows))), a.offset, a.key)
  {
    ReaderAsksTheWindow(policy, windows, a.offset, a.key);
  }
}
