/**
 Building a table and reading it back: blocks of sorted entries, an index of short keys that divide the
 blocks, and an optional filter.  Keys are byte strings with a tag here, because the index keys are made by
 editing bytes; `KeyOf` gives the key that every order is stated about.
 */
module Tables {
  import opened InternalKeys
  import opened Coding
  import opened Cursors
  import opened FilterBlock
  import Bytewise
  import TwoLevelIterators

  datatype ByteKey = ByteKey(user: Bytes, sequence: nat, kind: ValueType)

  datatype ByteEntry = ByteEntry(key: ByteKey, value: Bytes)

  function KeyOf(k: ByteKey): Key {
    Key(Bytewise.Rank(k.user), k.sequence, k.kind)
  }

  function RankedEntry(e: ByteEntry): Entry {
    Entry(KeyOf(e.key), e.value)
  }

  function Ranked(es: seq<ByteEntry>): (r: seq<Entry>)
    ensures |r| == |es| && forall i :: 0 <= i < |es| ==> r[i] == RankedEntry(es[i])
  {
    seq(|es|, i requires 0 <= i < |es| => RankedEntry(es[i]))
  }

  function Encoded(k: ByteKey): Bytes {
    k.user + Fixed64(PackSequenceAndType(k.sequence, k.kind))
  }

  /** All but the tag. */
  function ExtractUserKey(key: Bytes): Bytes {
    if |key| < 8 then [] else key[..|key| - 8]
  }

  lemma ExtractEncoded(k: ByteKey)
    ensures ExtractUserKey(Encoded(k)) == k.user
  {
  }

  /** An index key between two internal keys: shorter if the user key can be shortened. */
  function FindShortestSeparator(start: ByteKey, limit: ByteKey): ByteKey {
    var tmp := Bytewise.Separator(start.user, limit.user);
    if |tmp| < |start.user| && Bytewise.LexLess(start.user, tmp) then ByteKey(tmp, MAX_SEQUENCE, Value) else start
  }

  function FindShortSuccessor(key: ByteKey): ByteKey {
    var tmp := Bytewise.Successor(key.user);
    if |tmp| < |key.user| && Bytewise.LexLess(key.user, tmp) then ByteKey(tmp, MAX_SEQUENCE, Value) else key
  }

  /** A separator is the key itself or lies strictly between the two user keys. */
  lemma {:induction false} SeparatorSeparates(start: ByteKey, limit: ByteKey)
    requires Less(KeyOf(start), KeyOf(limit))
    ensures var s := FindShortestSeparator(start, limit);
            && LessEq(KeyOf(start), KeyOf(s)) && Less(KeyOf(s), KeyOf(limit))
            && (s != start ==> KeyOf(start).user < KeyOf(s).user < KeyOf(limit).user)
  {
    var tmp := Bytewise.Separator(start.user, limit.user);
    Bytewise.SeparatorSeparates(start.user, limit.user);
    Bytewise.RankPreservesOrder(start.user, tmp);
    Bytewise.RankPreservesOrder(tmp, limit.user);
  }

  lemma {:induction false} SuccessorIsAbove(key: ByteKey)
    ensures LessEq(KeyOf(key), KeyOf(FindShortSuccessor(key)))
  {
    var tmp := Bytewise.Successor(key.user);
    Bytewise.RankPreservesOrder(key.user, tmp);
  }

  datatype BlockHandle = BlockHandle(offset: nat, size: nat)

  function EncodeHandle(h: BlockHandle): Bytes {
    Varint(h.offset) + Varint(h.size)
  }

  function DecodeHandle(s: Bytes): Option<BlockHandle> {
    match GetVarint64(s)
    case None => None
    case Some(offset) =>
      match GetVarint64(s[offset.used..])
      case None => None
      case Some(size) => Some(BlockHandle(offset.value, size.value))
  }

  predicate HandleFits(h: BlockHandle) {
    h.offset < WORD64 && h.size < WORD64
  }

  lemma {:induction false} HandleRoundTrip(h: BlockHandle)
    requires HandleFits(h)
    ensures DecodeHandle(EncodeHandle(h)) == Some(h)
  {
    Varint64RoundTrip(h.offset, Varint(h.size));
    Varint64RoundTrip(h.size, []);
    assert Varint(h.size) + [] == Varint(h.size);
    assert EncodeHandle(h)[|Varint(h.offset)|..] == Varint(h.size);
  }

  const BLOCK_TRAILER_SIZE: nat := 5

  /**
     An index key for the block that ends before position `end`: at or after what is before, before what
     is after, and with a smaller user key than everything after unless it is the last key of the block.
   */
  ghost predicate Boundary(idx: Key, flat: seq<Entry>, end: nat) {
    && 0 < end <= |flat|
    && (forall q :: 0 <= q < end ==> LessEq(flat[q].key, idx))
    && (forall q :: end <= q < |flat| ==> Less(idx, flat[q].key))
    && (idx == flat[end - 1].key || forall q :: end <= q < |flat| ==> idx.user < flat[q].key.user)
  }

  lemma {:induction false} BoundaryExtends(idx: Key, flat: seq<Entry>, end: nat, e: Entry)
    requires Boundary(idx, flat, end) && end < |flat| && Sorted(flat) && Less(flat[|flat| - 1].key, e.key)
    ensures Boundary(idx, flat + [e], end)
  {
    var last := flat[|flat| - 1].key;
    assert Less(idx, last);
  }

  /** The deferred index key, made when the next key is known. */
  lemma {:induction false} SeparatorIsBoundary(added: seq<ByteEntry>, e: ByteEntry)
    requires added != [] && Sorted(Ranked(added)) && Less(KeyOf(added[|added| - 1].key), KeyOf(e.key))
    ensures Boundary(KeyOf(FindShortestSeparator(added[|added| - 1].key, e.key)), Ranked(added)
            + [RankedEntry(e)], |added|)
  {
    SeparatorSeparates(added[|added| - 1].key, e.key);
    var flat := Ranked(added);
    assert forall q :: 0 <= q < |flat| - 1 ==> Less(flat[q].key, flat[|flat| - 1].key);
  }

  /** The index key of the last block. */
  lemma {:induction false} SuccessorIsBoundary(added: seq<ByteEntry>)
    requires added != [] && Sorted(Ranked(added))
    ensures Boundary(KeyOf(FindShortSuccessor(added[|added| - 1].key)), Ranked(added), |added|)
  {
    SuccessorIsAbove(added[|added| - 1].key);
    var flat := Ranked(added);
    assert forall q :: 0 <= q < |flat| - 1 ==> Less(flat[q].key, flat[|flat| - 1].key);
  }

  /** A written block: the added entries from `start` to `end`, stored under `handle`. */
  datatype Chunk = Chunk(start: nat, end: nat, handle: BlockHandle)

  /** The chunks cover the first `n` added entries without gaps, and none is empty. */
  ghost predicate Tiles(chunks: seq<Chunk>, n: nat) {
    if chunks == [] then n == 0
    else
      var last := chunks[|chunks| - 1];
      last.end == n && last.start < n && Tiles(chunks[..|chunks| - 1], last.start)
  }

  lemma {:induction false} TilesAscend(chunks: seq<Chunk>, n: nat, i: nat)
    requires Tiles(chunks, n) && i < |chunks|
    ensures chunks[i].start < chunks[i].end <= n
    ensures i + 1 < |chunks| ==> chunks[i].end < n
  {
    if i + 1 < |chunks| {
      TilesAscend(chunks[..|chunks| - 1], chunks[|chunks| - 1].start, i);
    }
  }

  ghost predicate Stored(c: Chunk, added: seq<ByteEntry>, file: map<BlockHandle, seq<ByteEntry>>) {
    && c.start < c.end <= |added|
    && c.handle in file
    && file[c.handle] == added[c.start..c.end]
  }

  /** The blocks written so far: each is stored, and handles do not collide. */
  ghost predicate BlocksStored(added: seq<ByteEntry>, chunks: seq<Chunk>, file: map<BlockHandle, seq<ByteEntry>>,
                               offset: nat) {
    forall i :: 0 <= i < |chunks| ==>
                  && Stored(chunks[i], added, file)
                  && chunks[i].handle.offset + chunks[i].handle.size + BLOCK_TRAILER_SIZE <= offset
  }

  ghost predicate Indexes(idx: ByteEntry, added: seq<ByteEntry>, c: Chunk) {
    Boundary(KeyOf(idx.key), Ranked(added), c.end) && idx.value == EncodeHandle(c.handle)
  }

  ghost predicate IndexDivides(index: seq<ByteEntry>, added: seq<ByteEntry>, chunks: seq<Chunk>) {
    && |index| <= |chunks|
    && forall i :: 0 <= i < |index| ==> Indexes(index[i], added, chunks[i])
  }

  /** Every entry of a block was offered to the filter under the offset of the block. */
  ghost predicate Filtered(history: seq<Addition>, added: seq<ByteEntry>, chunks: seq<Chunk>) {
    forall c, q :: c in chunks && c.start <= q < c.end && q < |added| ==>
                     Addition(c.handle.offset, Encoded(added[q].key)) in history
  }

  /** The filter block holds every entry under the offset of its block. */
  ghost predicate FilterReflects(filter: Bytes, policy: FilterPolicy, windows: seq<seq<Bytes>>, history: seq<Addition>,
                                 added: seq<ByteEntry>, chunks: seq<Chunk>) {
    && filter == Layout(FiltersOf(policy, windows))
    && FilterBlockBuilder.AdditionsKept(history, windows, [])
    && Filtered(history, added, chunks)
  }

  /** The finished table, as a reader opens it. */
  datatype Table = Table(index: seq<ByteEntry>, file: map<BlockHandle, seq<ByteEntry>>, filter: Option<Bytes>)

  /** What the reader relies on. */
  ghost predicate WellBuilt(t: Table, added: seq<ByteEntry>, chunks: seq<Chunk>) {
    && Sorted(Ranked(added))
    && |t.index| == |chunks|
    && Tiles(chunks, |added|)
    && IndexDivides(t.index, added, chunks)
    && forall i :: 0 <= i < |chunks| ==> Stored(chunks[i], added, t.file)
  }

  /** The fields of a builder. */
  datatype Rep = Rep(dataBlock: seq<ByteEntry>, indexBlock: seq<ByteEntry>, lastKey: ByteKey, numEntries: nat,
                     offset: nat,
                     pendingIndexEntry: bool, pendingHandle: BlockHandle, file: map<BlockHandle, seq<ByteEntry>>)

  /** The fields of a builder together with what was added and the blocks written. */
  datatype Progress = Progress(rep: Rep, added: seq<ByteEntry>, chunks: seq<Chunk>)

  ghost predicate Consistent(b: Progress) {
    && Sorted(Ranked(b.added))
    && BlocksStored(b.added, b.chunks, b.rep.file, b.rep.offset)
    && IndexDivides(b.rep.indexBlock, b.added, b.chunks)
    && InStep(b)
  }

  /** What is not yet in a block is in the data block; at most one block waits for its index entry. */
  ghost predicate InStep(b: Progress) {
    && |b.added| == b.rep.numEntries
    && (b.added != [] ==> b.rep.lastKey == b.added[|b.added| - 1].key)
    && |b.rep.dataBlock| <= |b.added|
    && Tiles(b.chunks, Covered(b))
    && b.rep.dataBlock == b.added[Covered(b)..]
    && |b.chunks| == |b.rep.indexBlock| + (if b.rep.pendingIndexEntry then 1 else 0)
    && (b.rep.pendingIndexEntry ==> b.rep.dataBlock == [] && b.rep.pendingHandle == b.chunks[|b.chunks| - 1].handle)
    && (!b.rep.pendingIndexEntry && |b.chunks| > 0 ==> b.rep.dataBlock != [])
  }

  ghost function Covered(b: Progress): nat
    requires |b.rep.dataBlock| <= |b.added|
  {
    |b.added| - |b.rep.dataBlock|
  }

  /** After an entry is added, before the block may be flushed. */
  function WithEntry(b: Progress, e: ByteEntry): Progress {
    var index := if b.rep.pendingIndexEntry then
                   b.rep.indexBlock + [ByteEntry(FindShortestSeparator(b.rep.lastKey, e.key),
                       EncodeHandle(b.rep.pendingHandle))]
                 else b.rep.indexBlock;
    Progress(b.rep.(dataBlock := b.rep.dataBlock + [e], indexBlock := index, pendingIndexEntry := false,
                    lastKey := e.key, numEntries := b.rep.numEntries + 1),
             b.added + [e], b.chunks)
  }

  /** After the data block is written. */
  function Flushed(b: Progress, size: nat): Progress
    requires |b.rep.dataBlock| <= |b.added|
  {
    var handle := BlockHandle(b.rep.offset, size);
    Progress(b.rep.(dataBlock := [], pendingIndexEntry := true, pendingHandle := handle,
                    file := b.rep.file[handle := b.rep.dataBlock], offset := b.rep.offset + size + BLOCK_TRAILER_SIZE),
             b.added, b.chunks + [Chunk(|b.added| - |b.rep.dataBlock|, |b.added|, handle)])
  }

  ghost predicate InOrder(added: seq<ByteEntry>, key: ByteKey) {
    added != [] ==> Less(KeyOf(added[|added| - 1].key), KeyOf(key))
  }

  lemma {:induction false} AddSorted(added: seq<ByteEntry>, e: ByteEntry)
    requires Sorted(Ranked(added)) && InOrder(added, e.key)
    ensures Ranked(added + [e]) == Ranked(added) + [RankedEntry(e)]
    ensures Sorted(Ranked(added + [e]))
  {
    var flat := Ranked(added);
    assert forall q :: 0 <= q < |flat| - 1 ==> Less(flat[q].key, flat[|flat| - 1].key);
  }

  lemma {:induction false} StoredExtends(c: Chunk, added: seq<ByteEntry>, file: map<BlockHandle, seq<ByteEntry>>,
                                         e: ByteEntry)
    requires Stored(c, added, file)
    ensures Stored(c, added + [e], file)
  {
    assert (added + [e])[c.start..c.end] == added[c.start..c.end];
  }

  /** The index entries made before still divide when an entry is added. */
  lemma {:induction false} OldBoundariesExtend(b: Progress, e: ByteEntry, i: nat)
    requires Consistent(b) && InOrder(b.added, e.key) && i < |b.rep.indexBlock|
    ensures Indexes(b.rep.indexBlock[i], b.added + [e], b.chunks[i])
  {
    AddSorted(b.added, e);
    TilesAscend(b.chunks, Covered(b), i);
    BoundaryExtends(KeyOf(b.rep.indexBlock[i].key), Ranked(b.added), b.chunks[i].end, RankedEntry(e));
  }

  lemma {:induction false} AddKeepsStored(b: Progress, e: ByteEntry)
    requires Consistent(b)
    ensures BlocksStored(b.added + [e], b.chunks, b.rep.file, b.rep.offset)
  {
    forall i | 0 <= i < |b.chunks| ensures Stored(b.chunks[i], b.added + [e], b.rep.file) {
      StoredExtends(b.chunks[i], b.added, b.rep.file, e);
    }
  }

  lemma {:induction false} AddKeepsIndex(b: Progress, e: ByteEntry)
    requires Consistent(b) && InOrder(b.added, e.key)
    ensures IndexDivides(WithEntry(b, e).rep.indexBlock, b.added + [e], b.chunks)
  {
    var index := WithEntry(b, e).rep.indexBlock;
    forall i | 0 <= i < |index| ensures Indexes(index[i], b.added + [e], b.chunks[i]) {
      if i < |b.rep.indexBlock| {
        OldBoundariesExtend(b, e, i);
      } else {
        NewIndexEntry(b.added, e, b.chunks[i]);
      }
    }
  }

  lemma {:induction false} NewIndexEntry(added: seq<ByteEntry>, e: ByteEntry, c: Chunk)
    requires added != [] && Sorted(Ranked(added)) && InOrder(added, e.key) && c.end == |added|
    ensures Indexes(ByteEntry(FindShortestSeparator(added[|added| - 1].key, e.key), EncodeHandle(c.handle)), added
            + [e], c)
  {
    SeparatorIsBoundary(added, e);
    AddSorted(added, e);
  }

  lemma {:induction false} LastIndexEntry(added: seq<ByteEntry>, c: Chunk)
    requires added != [] && Sorted(Ranked(added)) && c.end == |added|
    ensures Indexes(ByteEntry(FindShortSuccessor(added[|added| - 1].key), EncodeHandle(c.handle)), added, c)
  {
    SuccessorIsBoundary(added);
  }

  lemma {:induction false} AddKeepsConsistent(b: Progress, e: ByteEntry)
    requires Consistent(b) && InOrder(b.added, e.key)
    ensures Consistent(WithEntry(b, e))
  {
    AddSorted(b.added, e);
    AddKeepsStored(b, e);
    AddKeepsIndex(b, e);
    AddKeepsInStep(b, e);
  }

  lemma AddKeepsInStep(b: Progress, e: ByteEntry)
    requires InStep(b)
    ensures InStep(WithEntry(b, e))
  {
    assert (b.added + [e])[Covered(b)..] == b.added[Covered(b)..] + [e];
  }

  lemma {:induction false} FlushKeepsStored(b: Progress, size: nat)
    requires Consistent(b) && b.rep.dataBlock != []
    ensures var c := Flushed(b, size); BlocksStored(c.added, c.chunks, c.rep.file, c.rep.offset)
  {
    var c := Flushed(b, size);
    forall i | 0 <= i < |c.chunks|
      ensures Stored(c.chunks[i], c.added, c.rep.file)
      ensures c.chunks[i].handle.offset + c.chunks[i].handle.size + BLOCK_TRAILER_SIZE <= c.rep.offset
    {
      assert i < |b.chunks| ==> Stored(b.chunks[i], b.added, b.rep.file) && b.chunks[i].handle.offset < b.rep.offset;
    }
  }

  lemma {:induction false} FlushKeepsConsistent(b: Progress, size: nat)
    requires Consistent(b) && b.rep.dataBlock != []
    ensures Consistent(Flushed(b, size))
  {
    var c := Flushed(b, size);
    FlushKeepsStored(b, size);
    assert c.chunks[..|b.chunks|] == b.chunks;
    forall i | 0 <= i < |c.rep.indexBlock| ensures Indexes(c.rep.indexBlock[i], c.added, c.chunks[i]) {
      assert Indexes(b.rep.indexBlock[i], b.added, b.chunks[i]);
    }
  }

  /** Every entry was offered to the filter under the offset of its block, or under the current one. */
  ghost predicate Offered(history: seq<Addition>, b: Progress)
    requires |b.rep.dataBlock| <= |b.added|
  {
    && Filtered(history, b.added, b.chunks)
    && forall q :: Covered(b) <= q < |b.added| ==> Addition(b.rep.offset, Encoded(b.added[q].key)) in history
  }

  lemma {:induction false} AddKeepsOffered(b: Progress, e: ByteEntry, history: seq<Addition>)
    requires Consistent(b) && Offered(history, b)
    ensures Offered(history + [Addition(b.rep.offset, Encoded(e.key))], WithEntry(b, e))
  {
    var h := history + [Addition(b.rep.offset, Encoded(e.key))];
    forall c, q | c in b.chunks && c.start <= q < c.end && q < |b.added| + 1
      ensures Addition(c.handle.offset, Encoded((b.added + [e])[q].key)) in h
    {
      var i :| 0 <= i < |b.chunks| && b.chunks[i] == c;
      assert Stored(b.chunks[i], b.added, b.rep.file);
    }
  }

  lemma {:induction false} FlushKeepsOffered(b: Progress, size: nat, history: seq<Addition>)
    requires Consistent(b) && Offered(history, b)
    ensures Offered(history, Flushed(b, size))
  {
  }

  class TableBuilder {
    const blockSize: nat
    /** The encoded size of a block. */
    const sizeOf: seq<ByteEntry> -> nat
    const filterBlock: FilterBlockBuilder?
    var rep: Rep
    ghost var added: seq<ByteEntry>
    ghost var chunks: seq<Chunk>

    constructor (blockSize: nat, sizeOf: seq<ByteEntry> -> nat, policy: Option<FilterPolicy>)
      ensures Valid() && added == [] && (filterBlock != null ==> fresh(filterBlock))
      ensures this.blockSize == blockSize && this.sizeOf == sizeOf
      ensures filterBlock != null <==> policy.Some?
      ensures policy.Some? ==> filterBlock.policy == policy.value
    {
      this.blockSize, this.sizeOf := blockSize, sizeOf;
      rep := Rep([], [], ByteKey([], 0, Deletion), 0, 0, false, BlockHandle(0, 0), map[]);
      added, chunks := [], [];
      var filter: FilterBlockBuilder? := null;
      if policy.Some? {
        filter := new FilterBlockBuilder(policy.value);
        filter.StartBlock(0);
      }
      filterBlock := filter;
    }

    ghost predicate Valid()
      reads this, filterBlock
    {
      && Consistent(Progress(rep, added, chunks))
      && FilterValid(rep.offset)
      && (filterBlock != null ==> Offered(filterBlock.history, Progress(rep, added, chunks)))
    }

    ghost predicate FilterValid(offset: nat)
      reads filterBlock
    {
      filterBlock != null ==> filterBlock.Valid() && filterBlock.blockOffset == offset
    }

    /** Adds an entry; keys arrive in order. */
    method Add(key: ByteKey, value: Bytes)
      requires Valid()
      requires rep.numEntries > 0 ==> Less(KeyOf(rep.lastKey), KeyOf(key))
      modifies this, filterBlock
      ensures Valid()
      ensures added == old(added) + [ByteEntry(key, value)] && rep.lastKey == key
    {
      AddKeepsConsistent(Progress(rep, added, chunks), ByteEntry(key, value));
      if filterBlock != null {
        AddKeepsOffered(Progress(rep, added, chunks), ByteEntry(key, value), filterBlock.history);
      }
      if rep.pendingIndexEntry {
        var separator := FindShortestSeparator(rep.lastKey, key);
        rep := rep.(indexBlock := rep.indexBlock
            + [ByteEntry(separator, EncodeHandle(rep.pendingHandle))], pendingIndexEntry := false);
      }
      if filterBlock != null {
        filterBlock.AddKey(Encoded(key));
      }
      rep := rep.(lastKey := key, numEntries := rep.numEntries + 1, dataBlock := rep.dataBlock
          + [ByteEntry(key, value)]);
      added := added + [ByteEntry(key, value)];
      if sizeOf(rep.dataBlock) >= blockSize {
        Flush();
      }
    }

    /** Writes the current block, if it holds anything. */
    method Flush()
      requires Valid()
      modifies this, filterBlock
      ensures Valid()
      ensures added == old(added) && rep.lastKey == old(rep.lastKey) && rep.dataBlock == []
    {
      if rep.dataBlock == [] {
        return;
      }
      ghost var before := Progress(rep, added, chunks);
      FlushKeepsConsistent(before, sizeOf(rep.dataBlock));
      var handle := BlockHandle(rep.offset, sizeOf(rep.dataBlock));
      chunks := chunks + [Chunk(|added| - |rep.dataBlock|, |added|, handle)];
      rep := rep.(pendingHandle := handle, file := rep.file[handle := rep.dataBlock],
                  offset := rep.offset + handle.size + BLOCK_TRAILER_SIZE);
      rep := rep.(dataBlock := [], pendingIndexEntry := true);
      assert Progress(rep, added, chunks) == Flushed(before, handle.size);
      if filterBlock != null {
        FlushKeepsOffered(before, handle.size, filterBlock.history);
        filterBlock.StartBlock(rep.offset);
      }
    }

    /** Closes the table.  The last block gets a short successor as its index key. */
    method Finish() returns (t: Table)
      requires Valid()
      modifies this, filterBlock
      ensures added == old(added)
      ensures WellBuilt(t, added, chunks)
      ensures t.filter.Some? <==> filterBlock != null
      ensures filterBlock != null ==>
                FilterReflects(t.filter.value, filterBlock.policy, filterBlock.windows, filterBlock.history, added,
                    chunks)
    {
      Flush();
      var filter := FinishFilter();
      FinishIsWellBuilt(Progress(rep, added, chunks), filter);
      if rep.pendingIndexEntry {
        var successor := FindShortSuccessor(rep.lastKey);
        rep := rep.(indexBlock := rep.indexBlock
            + [ByteEntry(successor, EncodeHandle(rep.pendingHandle))], pendingIndexEntry := false);
      }
      t := Table(rep.indexBlock, rep.file, filter);
    }

    method FinishFilter() returns (filter: Option<Bytes>)
      requires FilterValid(rep.offset)
      requires filterBlock != null ==> Filtered(filterBlock.history, added, chunks)
      modifies filterBlock
      ensures filter.Some? <==> filterBlock != null
      ensures filterBlock != null ==>
                FilterReflects(filter.value, filterBlock.policy, filterBlock.windows, filterBlock.history, added,
                    chunks)
    {
      if filterBlock == null {
        filter := None;
      } else {
        var contents := filterBlock.Finish();
        filter := Some(contents);
      }
    }
  }

  function Finished(b: Progress, filter: Option<Bytes>): Table {
    var index := if b.rep.pendingIndexEntry then
                   b.rep.indexBlock + [ByteEntry(FindShortSuccessor(b.rep.lastKey), EncodeHandle(b.rep.pendingHandle))]
                 else b.rep.indexBlock;
    Table(index, b.rep.file, filter)
  }

  lemma {:induction false} FinishedIndexDivides(b: Progress)
    requires Consistent(b) && b.rep.dataBlock == []
    ensures IndexDivides(Finished(b, None).index, b.added, b.chunks)
  {
    var index := Finished(b, None).index;
    forall i | 0 <= i < |index| ensures Indexes(index[i], b.added, b.chunks[i]) {
      if i < |b.rep.indexBlock| {
        assert index[i] == b.rep.indexBlock[i];
      } else {
        LastIndexEntry(b.added, b.chunks[i]);
      }
    }
  }

  lemma {:induction false} FinishIsWellBuilt(b: Progress, filter: Option<Bytes>)
    requires Consistent(b) && b.rep.dataBlock == []
    ensures WellBuilt(Finished(b, filter), b.added, b.chunks)
  {
    FinishedIndexDivides(b);
    assert Finished(b, filter).index == Finished(b, None).index;
    assert Covered(b) == |b.added|;
  }

  lemma {:induction false} TilesInOrder(chunks: seq<Chunk>, n: nat, i: nat, j: nat)
    requires Tiles(chunks, n) && i < j < |chunks|
    ensures chunks[i].end <= chunks[j].start < chunks[j].end <= n
  {
    var last := chunks[|chunks| - 1];
    if j + 1 == |chunks| {
      TilesAscend(chunks[..j], last.start, i);
    } else {
      TilesInOrder(chunks[..|chunks| - 1], last.start, i, j);
    }
  }

  ghost function BlockOf(added: seq<ByteEntry>, c: Chunk): seq<Entry> {
    if c.start < c.end <= |added| then Ranked(added[c.start..c.end]) else []
  }

  ghost function BlocksOf(added: seq<ByteEntry>, chunks: seq<Chunk>): (bs: seq<seq<Entry>>)
    ensures |bs| == |chunks| && forall i :: 0 <= i < |chunks| ==> bs[i] == BlockOf(added, chunks[i])
  {
    seq(|chunks|, i requires 0 <= i < |chunks| => BlockOf(added, chunks[i]))
  }

  lemma {:induction false} BlocksConcat(added: seq<ByteEntry>, chunks: seq<Chunk>, n: nat)
    requires Tiles(chunks, n) && n <= |added|
    ensures TwoLevelIterators.Concat(BlocksOf(added, chunks)) == Ranked(added[..n])
  {
    if chunks != [] {
      var last := chunks[|chunks| - 1];
      var front := chunks[..|chunks| - 1];
      BlocksConcat(added, front, last.start);
      assert BlocksOf(added, chunks)[..|front|] == BlocksOf(added, front);
      RankedSplit(added, last.start, n);
    }
  }

  lemma RankedSplit(added: seq<ByteEntry>, m: nat, n: nat)
    requires m <= n <= |added|
    ensures Ranked(added[..n]) == Ranked(added[..m]) + Ranked(added[m..n])
  {
  }

  lemma {:induction false} BlockEntry(t: Table, added: seq<ByteEntry>, chunks: seq<Chunk>, i: nat, j: nat)
    requires WellBuilt(t, added, chunks) && i < |chunks| && j < |BlockOf(added, chunks[i])|
    ensures chunks[i].start + j < chunks[i].end <= |added|
    ensures BlockOf(added, chunks[i])[j] == Ranked(added)[chunks[i].start + j]
    ensures LessEq(BlockOf(added, chunks[i])[j].key, KeyOf(t.index[i].key))
    ensures forall h :: 0 <= h < i ==> Less(KeyOf(t.index[h].key), BlockOf(added, chunks[i])[j].key)
  {
    assert Indexes(t.index[i], added, chunks[i]);
    forall h | 0 <= h < i ensures Less(KeyOf(t.index[h].key), BlockOf(added, chunks[i])[j].key) {
      assert Indexes(t.index[h], added, chunks[h]);
      TilesInOrder(chunks, |added|, h, i);
    }
  }

  lemma {:induction false} IndexSorted(t: Table, added: seq<ByteEntry>, chunks: seq<Chunk>)
    requires WellBuilt(t, added, chunks)
    ensures Sorted(Ranked(t.index))
  {
    var index := Ranked(t.index);
    forall i, j | 0 <= i < j < |index| ensures Less(index[i].key, index[j].key) {
      assert Stored(chunks[j], added, t.file);
      BlockEntry(t, added, chunks, j, 0);
    }
  }

  /**
     A built table satisfies what the two-level iterator needs, over exactly what was added: with
     `TwoLevelIterator` this makes the table iterator a cursor over the added entries.
   */
  lemma {:induction false} TableIsDivided(t: Table, added: seq<ByteEntry>, chunks: seq<Chunk>)
    requires WellBuilt(t, added, chunks)
    ensures TwoLevelIterators.Divides(Ranked(t.index), BlocksOf(added, chunks))
    ensures TwoLevelIterators.Concat(BlocksOf(added, chunks)) == Ranked(added)
  {
    IndexSorted(t, added, chunks);
    var bs: seq<seq<Entry>> := BlocksOf(added, chunks);
    forall i | 0 <= i < |bs| ensures Sorted(bs[i]) {
      forall j, k | 0 <= j < k < |bs[i]| ensures Less(bs[i][j].key, bs[i][k].key) {
        BlockEntry(t, added, chunks, i, j);
        BlockEntry(t, added, chunks, i, k);
      }
    }
    forall i, j | 0 <= i < |bs| && 0 <= j < |bs[i]|
      ensures LessEq(bs[i][j].key, Ranked(t.index)[i].key)
      ensures forall h :: 0 <= h < i ==> Less(Ranked(t.index)[h].key, bs[i][j].key)
    {
      BlockEntry(t, added, chunks, i, j);
    }
    BlocksConcat(added, chunks, |added|);
    assert added[..|added|] == added;
  }

  /**
     The block that the index chooses for a lookup key holds the first entry at or after it, or else
     no later entry has its user key.
   */
  lemma {:induction false} OneBlockIsEnough(t: Table, added: seq<ByteEntry>, chunks: seq<Chunk>, k: Key, i: nat)
    requires WellBuilt(t, added, chunks) && i == SeekPosition(Ranked(t.index), k)
    ensures i == |chunks| ==> SeekPosition(Ranked(added), k) == |added|
    ensures i < |chunks| ==>
              var block, p := BlockOf(added, chunks[i]), SeekPosition(Ranked(added), k);
              var j := SeekPosition(block, k);
              if j < |block| then p < |added| && Ranked(added)[p] == block[j]
              else p < |added| ==> Ranked(added)[p].key.user != k.user
  {
    SeekInChunk(t, added, chunks, k, i);
    if i < |chunks| {
      var block := BlockOf(added, chunks[i]);
      var j := SeekPosition(block, k);
      if j < |block| {
        BlockEntry(t, added, chunks, i, j);
      } else {
        BlockEntry(t, added, chunks, i, j - 1);
        NothingLater(t, added, chunks, k, i);
      }
    }
  }

  lemma {:induction false} SeekInChunk(t: Table, added: seq<ByteEntry>, chunks: seq<Chunk>, k: Key, i: nat)
    requires WellBuilt(t, added, chunks) && i == SeekPosition(Ranked(t.index), k)
    ensures i == |chunks| ==> SeekPosition(Ranked(added), k) == |added|
    ensures i < |chunks| ==>
              && !Less(KeyOf(t.index[i].key), k)
              && |BlockOf(added, chunks[i])| == chunks[i].end - chunks[i].start > 0
              && SeekPosition(Ranked(added), k) == chunks[i].start + SeekPosition(BlockOf(added, chunks[i]), k)
  {
    SeekInTable(t, added, chunks, k, i);
    if i < |chunks| {
      StartIsChunkStart(added, chunks, |added|, i);
      assert Stored(chunks[i], added, t.file);
    }
  }

  lemma {:induction false} SeekInTable(t: Table, added: seq<ByteEntry>, chunks: seq<Chunk>, k: Key, i: nat)
    requires WellBuilt(t, added, chunks) && i == SeekPosition(Ranked(t.index), k)
    ensures i == |chunks| ==> SeekPosition(Ranked(added), k) == |added|
    ensures i < |chunks| ==>
              && !Less(KeyOf(t.index[i].key), k)
              && SeekPosition(Ranked(added), k) ==
                   TwoLevelIterators.Start(BlocksOf(added, chunks), i) + SeekPosition(BlockOf(added, chunks[i]), k)
  {
    TableIsDivided(t, added, chunks);
    TwoLevelIterators.SeekInBlock(Ranked(t.index), BlocksOf(added, chunks), k, i);
  }

  lemma {:induction false} StartIsChunkStart(added: seq<ByteEntry>, chunks: seq<Chunk>, n: nat, i: nat)
    requires Tiles(chunks, n) && n <= |added| && i < |chunks|
    ensures TwoLevelIterators.Start(BlocksOf(added, chunks), i) == chunks[i].start
  {
    var bs := BlocksOf(added, chunks);
    if i + 1 == |chunks| {
      BlocksConcat(added, chunks[..i], chunks[i].start);
      assert bs[..i] == BlocksOf(added, chunks[..i]);
    } else {
      var front := chunks[..|chunks| - 1];
      StartIsChunkStart(added, front, chunks[|chunks| - 1].start, i);
      assert BlocksOf(added, front)[..i] == bs[..i];
    }
  }

  lemma {:induction false} NothingLater(t: Table, added: seq<ByteEntry>, chunks: seq<Chunk>, k: Key, i: nat)
    requires WellBuilt(t, added, chunks) && i < |chunks|
    requires !Less(KeyOf(t.index[i].key), k) && Less(Ranked(added)[chunks[i].end - 1].key, k)
    ensures forall q :: chunks[i].end <= q < |added| ==> Ranked(added)[q].key.user > k.user
  {
    assert Indexes(t.index[i], added, chunks[i]);
    CompareIsTotalOrder(KeyOf(t.index[i].key), k);
  }

  /** The policy that a table hands to its filters looks at user keys only. */
  function InternalFilterPolicy(policy: FilterPolicy): FilterPolicy {
    FilterPolicy((keys: seq<Bytes>) => policy.create(UserKeys(keys)),
        (key, filter) => policy.mayMatch(ExtractUserKey(key), filter))
  }

  function UserKeys(keys: seq<Bytes>): (us: seq<Bytes>)
    ensures |us| == |keys| && forall i :: 0 <= i < |keys| ==> us[i] == ExtractUserKey(keys[i])
  {
    seq(|keys|, i requires 0 <= i < |keys| => ExtractUserKey(keys[i]))
  }

  lemma {:induction false} InternalPolicyIsSound(policy: FilterPolicy)
    requires FilterBlock.Sound(policy)
    ensures FilterBlock.Sound(InternalFilterPolicy(policy))
  {
    var p := InternalFilterPolicy(policy);
    forall keys: seq<Bytes>, key: Bytes | key in keys ensures p.mayMatch(key, p.create(keys)) {
      var i :| 0 <= i < |keys| && keys[i] == key;
      assert UserKeys(keys)[i] in UserKeys(keys);
    }
  }

  /** A denied user key is not in the block. */
  ghost predicate FilterAdmits(policy: FilterPolicy, filter: Bytes, added: seq<ByteEntry>, chunks: seq<Chunk>,
                               user: Bytes) {
    forall c, q, k :: && c in chunks && c.start <= q < c.end && q < |added|
                      && added[q].key.user == user && ExtractUserKey(k) == user ==>
                        KeyMayMatch(InternalFilterPolicy(policy), NewReader(filter), c.handle.offset, k)
  }

  lemma {:induction false} FilterOfTableAdmits(policy: FilterPolicy, filter: Bytes, windows: seq<seq<Bytes>>,
                                               history: seq<Addition>,
                                               added: seq<ByteEntry>, chunks: seq<Chunk>, user: Bytes)
    requires FilterBlock.Sound(policy) && |Join(FiltersOf(InternalFilterPolicy(policy), windows))| < WORD32
    requires FilterReflects(filter, InternalFilterPolicy(policy), windows, history, added, chunks)
    ensures FilterAdmits(policy, filter, added, chunks, user)
  {
    var p := InternalFilterPolicy(policy);
    InternalPolicyIsSound(policy);
    forall c, q, k | c in chunks && c.start <= q < c.end && q < |added| && added[q].key.user == user
        && ExtractUserKey(k) == user
      ensures KeyMayMatch(p, NewReader(filter), c.handle.offset, k)
    {
      var key := Encoded(added[q].key);
      NoFalseNegatives(p, windows, history, Addition(c.handle.offset, key));
      ExtractEncoded(added[q].key);
      SameUserSameMatch(policy, NewReader(filter), c.handle.offset, key, k);
    }
  }

  lemma SameUserSameMatch(policy: FilterPolicy, r: FilterBlockReader, offset: nat, a: Bytes, b: Bytes)
    requires ReaderValid(r) && ExtractUserKey(a) == ExtractUserKey(b)
    ensures KeyMayMatch(InternalFilterPolicy(policy), r, offset, a) ==
            KeyMayMatch(InternalFilterPolicy(policy), r, offset, b)
  {
  }

  /** Opens the block that an index value names. */
  method BlockReader(t: Table, indexValue: Bytes, ghost added: seq<ByteEntry>, ghost c: Chunk)
    returns (iter: FlatIterator)
    requires Stored(c, added, t.file) && HandleFits(c.handle) && indexValue == EncodeHandle(c.handle)
    ensures fresh(iter) && iter.flat == BlockOf(added, c)
  {
    HandleRoundTrip(c.handle);
    var handle := DecodeHandle(indexValue);
    iter := new FlatIterator(Ranked(t.file[handle.value]));
  }

  /** Looks into the one block that the index names, unless the filter denies it. */
  method InternalGet(t: Table, policy: FilterPolicy, k: ByteKey, ghost added: seq<ByteEntry>, ghost chunks: seq<Chunk>)
    returns (r: Option<Entry>)
    requires WellBuilt(t, added, chunks) && forall c :: c in chunks ==> HandleFits(c.handle)
    requires t.filter.Some? ==> FilterAdmits(policy, t.filter.value, added, chunks, k.user)
    ensures var flat := Ranked(added);
            var p := SeekPosition(flat, KeyOf(k));
            if p < |flat| && flat[p].key.user == KeyOf(k).user then r == Some(flat[p])
            else r.Some? ==> r.value.key.user != KeyOf(k).user
  {
    r := None;
    IndexSorted(t, added, chunks);
    var iiter := new FlatIterator(Ranked(t.index));
    iiter.Seek(KeyOf(k));
    ghost var i := iiter.index;
    OneBlockIsEnough(t, added, chunks, KeyOf(k), i);
    if iiter.Valid() {
      var handleValue := iiter.Current().value;
      assert Indexes(t.index[i], added, chunks[i]) && Stored(chunks[i], added, t.file);
      HandleRoundTrip(chunks[i].handle);
      var handle := DecodeHandle(handleValue);
      if t.filter.Some? && handle.Some?
         && !KeyMayMatch(InternalFilterPolicy(policy), NewReader(t.filter.value), handle.value.offset, Encoded(k)) {
        // Not found.
        DeniedIsAbsent(policy, t, k, added, chunks, i);
      } else {
        var blockIter := BlockReader(t, handleValue, added, chunks[i]);
        TableIsDivided(t, added, chunks);
        assert BlocksOf(added, chunks)[i] == blockIter.flat;
        blockIter.Seek(KeyOf(k));
        if blockIter.Valid() {
          r := Some(blockIter.Current());
        }
      }
    }
  }

  /** If the filter denies the user key, the first entry at or after the lookup key has another one. */
  lemma {:induction false} DeniedIsAbsent(policy: FilterPolicy, t: Table, k: ByteKey, added: seq<ByteEntry>,
                                          chunks: seq<Chunk>, i: nat)
    requires WellBuilt(t, added, chunks) && i == SeekPosition(Ranked(t.index), KeyOf(k)) < |chunks|
    requires t.filter.Some? && FilterAdmits(policy, t.filter.value, added, chunks, k.user)
    requires !KeyMayMatch(InternalFilterPolicy(policy), NewReader(t.filter.value), chunks[i].handle.offset, Encoded(k))
    ensures var p := SeekPosition(Ranked(added), KeyOf(k));
            p < |added| ==> Ranked(added)[p].key.user != KeyOf(k).user
  {
    OneBlockIsEnough(t, added, chunks, KeyOf(k), i);
    DeniedUser(policy, t.filter.value, k, added, chunks, i);
    var j := SeekPosition(BlockOf(added, chunks[i]), KeyOf(k));
    if j < |BlockOf(added, chunks[i])| {
      BlockEntry(t, added, chunks, i, j);
    }
  }

  lemma {:induction false} DeniedUser(policy: FilterPolicy, filter: Bytes, k: ByteKey, added: seq<ByteEntry>,
                                      chunks: seq<Chunk>, i: nat)
    requires i < |chunks| && FilterAdmits(policy, filter, added, chunks, k.user)
    requires !KeyMayMatch(InternalFilterPolicy(policy), NewReader(filter), chunks[i].handle.offset, Encoded(k))
    ensures forall q :: chunks[i].start <= q < chunks[i].end && q < |added| ==>
            Ranked(added)[q].key.user != KeyOf(k).user
  {
    ExtractEncoded(k);
    forall q | chunks[i].start <= q < chunks[i].end && q < |added| ensures Ranked(added)[q].key.user != KeyOf(k).user {
      assert chunks[i] in chunks && added[q].key.user != k.user;
      Bytewise.RankPreservesOrder(added[q].key.user, k.user);
    }
  }
}
