/**
 The iterator over an index whose values are handles of blocks: the blocks of a table or the files of a
 level.  It is a cursor over the concatenation of the blocks.  Blocks may be empty.
 */
module TwoLevelIterators {
  import opened InternalKeys
  import opened Cursors
  import Files

  ghost function Concat(blocks: seq<seq<Entry>>): seq<Entry> {
    if blocks == [] then [] else Concat(blocks[..|blocks| - 1]) + blocks[|blocks| - 1]
  }

  /** Where a block starts in the concatenation. */
  ghost function Start(blocks: seq<seq<Entry>>, i: nat): nat
    requires i <= |blocks|
  {
    |Concat(blocks[..i])|
  }

  lemma {:induction false} ConcatSplit(blocks: seq<seq<Entry>>, i: nat)
    requires i < |blocks|
    ensures Concat(blocks[..i + 1]) == Concat(blocks[..i]) + blocks[i]
    ensures Start(blocks, i + 1) == Start(blocks, i) + |blocks[i]| <= |Concat(blocks)|
    ensures Concat(blocks)[Start(blocks, i)..Start(blocks, i + 1)] == blocks[i]
    ensures forall p :: 0 <= p < Start(blocks, i) ==> Concat(blocks)[p] == Concat(blocks[..i])[p]
    decreases |blocks|
  {
    assert blocks[..i + 1][..i] == blocks[..i];
    assert Concat(blocks[..i + 1]) == Concat(blocks[..i]) + blocks[i];
    if i + 1 < |blocks| {
      var front := blocks[..|blocks| - 1];
      ConcatSplit(front, i);
      assert front[..i] == blocks[..i] && front[..i + 1] == blocks[..i + 1];
    } else {
      assert blocks[..i + 1] == blocks;
    }
  }

  lemma {:induction false} EntryOfBlock(blocks: seq<seq<Entry>>, i: nat, j: nat)
    requires i < |blocks| && j < |blocks[i]|
    ensures Start(blocks, i) + j < |Concat(blocks)| && Concat(blocks)[Start(blocks, i) + j] == blocks[i][j]
  {
    ConcatSplit(blocks, i);
    assert Concat(blocks)[Start(blocks, i)..Start(blocks, i + 1)][j] == blocks[i][j];
  }

  /** What the index promises: each of its keys is at or after its block and before every later block. */
  ghost predicate Divides(index: seq<Entry>, blocks: seq<seq<Entry>>) {
    && Sorted(index)
    && |index| == |blocks|
    && (forall i :: 0 <= i < |blocks| ==> Sorted(blocks[i]))
    && (forall i, j :: 0 <= i < |blocks| && 0 <= j < |blocks[i]| ==> LessEq(blocks[i][j].key, index[i].key))
    && (forall h, i, j :: 0 <= h < i < |blocks| && 0 <= j < |blocks[i]| ==> Less(index[h].key, blocks[i][j].key))
  }

  ghost predicate AllIn(index: seq<Entry>, contents: map<Bytes, seq<Entry>>) {
    forall i :: 0 <= i < |index| ==> index[i].value in contents
  }

  ghost function Blocks(index: seq<Entry>, contents: map<Bytes, seq<Entry>>): (bs: seq<seq<Entry>>)
    requires AllIn(index, contents)
    ensures |bs| == |index| && forall i :: 0 <= i < |index| ==> bs[i] == contents[index[i].value]
  {
    seq(|index|, i requires 0 <= i < |index| => contents[index[i].value])
  }

  /** The concatenation of divided blocks is sorted. */
  lemma {:induction false} DividedIsSorted(index: seq<Entry>, blocks: seq<seq<Entry>>)
    requires Divides(index, blocks)
    ensures Sorted(Concat(blocks))
    ensures forall e :: e in Concat(blocks) ==> |index| > 0 && LessEq(e.key, index[|index| - 1].key)
    decreases |blocks|
  {
    if blocks != [] {
      var n := |blocks| - 1;
      DividedIsSorted(index[..n], blocks[..n]);
      var front := Concat(blocks[..n]);
      forall i, j | 0 <= i < |front| && 0 <= j < |blocks[n]| ensures Less(front[i].key, blocks[n][j].key) {
        assert front[i] in front;
      }
      SortedConcat(front, blocks[n]);
      forall e | e in Concat(blocks) ensures LessEq(e.key, index[n].key) {
        if e in front {
          assert Less(index[n - 1].key, index[n].key);
        }
      }
    }
  }

  lemma {:induction false} SeekInSlice(flat: seq<Entry>, target: Key, start: nat, block: seq<Entry>)
    requires Sorted(flat) && start + |block| <= |flat| && flat[start..start + |block|] == block
    requires start > 0 ==> Less(flat[start - 1].key, target)
    requires start + |block| < |flat| ==> !Less(flat[start + |block|].key, target)
    ensures SeekPosition(flat, target) == start + SeekPosition(block, target)
  {
    var q := SeekPosition(block, target);
    assert forall j :: 0 <= j < |block| ==> flat[start + j] == block[j];
    SeekPositionIsUnique(flat, target, start + q);
  }

  /** What lies before a block that the index chose is before the target. */
  lemma {:induction false} EarlierBlocksAreBefore(index: seq<Entry>, blocks: seq<seq<Entry>>, target: Key, i: nat)
    requires Divides(index, blocks) && i <= |index| && forall h :: 0 <= h < i ==> Less(index[h].key, target)
    ensures Start(blocks, i) <= |Concat(blocks)|
    ensures Start(blocks, i) > 0 ==> Less(Concat(blocks)[Start(blocks, i) - 1].key, target)
  {
    DividedIsSorted(index[..i], blocks[..i]);
    var before := Concat(blocks[..i]);
    if i < |blocks| {
      ConcatSplit(blocks, i);
    } else {
      assert blocks[..i] == blocks;
    }
    if |before| > 0 {
      assert before[|before| - 1] in before;
    }
  }

  /** Where seeking in one block lands in the whole, when the index chose the block. */
  lemma {:induction false} SeekInBlock(index: seq<Entry>, blocks: seq<seq<Entry>>, target: Key, i: nat)
    requires Divides(index, blocks) && i == SeekPosition(index, target)
    ensures i < |index| ==> SeekPosition(Concat(blocks), target) == Start(blocks, i) + SeekPosition(blocks[i], target)
    ensures i == |index| ==> SeekPosition(Concat(blocks), target) == |Concat(blocks)|
  {
    DividedIsSorted(index, blocks);
    EarlierBlocksAreBefore(index, blocks, target, i);
    if i < |index| {
      LaterBlocksAreAfter(index, blocks, target, i);
      ConcatSplit(blocks, i);
      SeekInSlice(Concat(blocks), target, Start(blocks, i), blocks[i]);
    } else {
      assert blocks[..i] == blocks;
      SeekPositionIsUnique(Concat(blocks), target, |Concat(blocks)|);
    }
  }

  lemma {:induction false} LaterBlocksAreAfter(index: seq<Entry>, blocks: seq<seq<Entry>>, target: Key, i: nat)
    requires Divides(index, blocks) && i < |index| && !Less(index[i].key, target)
    ensures Start(blocks, i + 1) <= |Concat(blocks)|
    ensures Start(blocks, i + 1) < |Concat(blocks)| ==> !Less(Concat(blocks)[Start(blocks, i + 1)].key, target)
  {
    FirstOfLaterBlock(index, blocks, i + 1);
    CompareIsTotalOrder(index[i].key, target);
  }

  /** What follows the first blocks lies in a later block. */
  lemma {:induction false} FirstOfLaterBlock(index: seq<Entry>, blocks: seq<seq<Entry>>, i: nat)
    requires Divides(index, blocks) && 0 < i <= |blocks|
    ensures Start(blocks, i) <= |Concat(blocks)|
    ensures Start(blocks, i) < |Concat(blocks)| ==> Less(index[i - 1].key, Concat(blocks)[Start(blocks, i)].key)
    decreases |blocks| - i
  {
    if i < |blocks| {
      ConcatSplit(blocks, i);
      if blocks[i] == [] {
        FirstOfLaterBlock(index, blocks, i + 1);
      } else {
        assert Concat(blocks)[Start(blocks, i)..Start(blocks, i + 1)][0] == blocks[i][0];
      }
    } else {
      assert blocks[..i] == blocks;
    }
  }

  /** The files of a level above zero, indexed by their largest keys, are divided blocks. */
  lemma {:induction false} LevelIsDivided(fs: seq<Files.File>, index: seq<Entry>)
    requires Files.AllWellFormed(fs) && Files.Disjoint(fs)
    requires |index| == |fs| && forall i :: 0 <= i < |fs| ==> index[i].key == Files.Largest(fs[i])
    ensures Divides(index, Files.EntriesPerFile(fs))
    ensures Concat(Files.EntriesPerFile(fs)) == Files.Flatten(fs)
  {
    var bs: seq<seq<Entry>> := Files.EntriesPerFile(fs);
    forall i, j | 0 <= i < |fs| && 0 <= j < |bs[i]|
      ensures LessEq(Files.Smallest(fs[i]), bs[i][j].key) && LessEq(bs[i][j].key, index[i].key)
    {
      assert bs[i][j] in fs[i].entries;
      Files.BoundsHold(fs[i], bs[i][j]);
    }
    forall h, i, j | 0 <= h < i < |fs| && 0 <= j < |bs[i]| ensures Less(index[h].key, bs[i][j].key) {
      assert Less(Files.Largest(fs[h]), Files.Smallest(fs[i]));
      assert LessEq(Files.Smallest(fs[i]), bs[i][j].key);
    }
    forall h, i | 0 <= h < i < |index| ensures Less(index[h].key, index[i].key) {
      assert Less(index[h].key, bs[i][|bs[i]| - 1].key);
    }
    ConcatIsFlatten(fs);
  }

  lemma {:induction false} ConcatIsFlatten(fs: seq<Files.File>)
    ensures Concat(Files.EntriesPerFile(fs)) == Files.Flatten(fs)
  {
    if fs != [] {
      var bs: seq<seq<Entry>> := Files.EntriesPerFile(fs);
      ConcatIsFlatten(fs[1..]);
      assert bs == [fs[0].entries] + Files.EntriesPerFile(fs[1..]);
      ConcatCons(fs[0].entries, Files.EntriesPerFile(fs[1..]));
    }
  }

  lemma {:induction false} ConcatCons(b: seq<Entry>, bs: seq<seq<Entry>>)
    ensures Concat([b] + bs) == b + Concat(bs)
    decreases |bs|
  {
    if bs == [] {
      assert [b] + bs == [b];
      assert ([b])[..0] == [];
    } else {
      ConcatCons(b, bs[..|bs| - 1]);
      assert ([b] + bs)[..|bs|] == [b] + bs[..|bs| - 1];
    }
  }

  class TwoLevelIterator {
    const index: FlatIterator
    const contents: map<Bytes, seq<Entry>>
    var data: FlatIterator?
    /** The handle that the data iterator was made from. */
    var dataBlockHandle: Bytes
    ghost const blocks: seq<seq<Entry>>

    constructor (index: FlatIterator, contents: map<Bytes, seq<Entry>>)
      requires index.WellFormed() && AllIn(index.flat, contents)
      requires Divides(index.flat, Blocks(index.flat, contents))
      ensures this.index == index && this.contents == contents && this.blocks == Blocks(index.flat, contents)
      ensures WellFormed() && !Valid() && data == null
    {
      this.index := index;
      this.contents := contents;
      data := null;
      dataBlockHandle := [];
      blocks := Blocks(index.flat, contents);
    }

    ghost function Footprint(): set<object>
      reads this
    {
      {this, index} + if data == null then {} else {data}
    }

    ghost predicate WellFormed()
      reads this, index, data
    {
      && index.WellFormed()
      && AllIn(index.flat, contents) && blocks == Blocks(index.flat, contents)
      && Divides(index.flat, blocks)
      && (data != null ==>
            && data != index && data.WellFormed()
            && dataBlockHandle in contents && data.flat == contents[dataBlockHandle])
    }

    /** A data iterator belongs to the index entry that the index iterator stands at. */
    ghost predicate InStep()
      requires WellFormed()
      reads this, index, data
    {
      if index.Valid() then data != null && dataBlockHandle == index.Current().value else data == null
    }

    ghost predicate Consistent()
      reads this, index, data
    {
      WellFormed() && (Valid() ==> InStep())
    }

    predicate Valid()
      reads this, data
    {
      data != null && data.Valid()
    }

    ghost function Flat(): seq<Entry>
    {
      Concat(blocks)
    }

    /** The position in the concatenation. */
    ghost function Position(): nat
      requires Consistent()
      reads this, index, data
    {
      if Valid() then Start(blocks, index.index) + data.index else |Flat()|
    }

    function Current(): Entry
      requires Consistent() && Valid()
      reads this, index, data
      ensures Position() < |Flat()| && Current() == Flat()[Position()]
    {
      EntryOfBlock(blocks, index.index, data.index);
      data.Current()
    }

    /** Makes the data iterator match the index, keeping one that was made from the same handle. */
    method InitDataBlock()
      requires WellFormed()
      modifies this
      ensures WellFormed() && InStep()
      ensures fresh(Footprint() - old(Footprint()))
    {
      if !index.Valid() {
        data := null;
      } else {
        var handle := index.Current().value;
        if data != null && handle == dataBlockHandle {
          // The data iterator is the right one already.
        } else {
          var iter := new FlatIterator(contents[handle]);
          dataBlockHandle := handle;
          data := iter;
        }
      }
    }

    method NextBlock()
      requires WellFormed() && InStep() && index.Valid()
      modifies Footprint()
      ensures WellFormed() && InStep() && index.index == old(index.index) + 1
      ensures fresh(Footprint() - old(Footprint()))
      ensures Valid() ==> Start(blocks, index.index) + data.index == Start(blocks, old(index.index) + 1)
      ensures !Valid() ==>
                Start(blocks, old(index.index) + 1) ==
                  if index.Valid() then Start(blocks, index.index + 1) else |Flat()|
    {
      index.Next();
      assert index.index == |blocks| ==> blocks[..index.index] == blocks;
      InitDataBlock();
      if data != null {
        data.SeekToFirst();
        ConcatSplit(blocks, index.index);
      }
    }

    method PrevBlock()
      requires WellFormed() && InStep() && index.Valid()
      modifies Footprint()
      ensures WellFormed() && InStep() && index.index == PrevPosition(|blocks|, old(index.index))
      ensures fresh(Footprint() - old(Footprint()))
      ensures Valid() ==> Start(blocks, index.index) + data.index + 1 == Start(blocks, old(index.index))
      ensures !Valid() ==> Start(blocks, old(index.index)) == if index.Valid() then Start(blocks, index.index) else 0
    {
      index.Prev();
      InitDataBlock();
      if data != null {
        data.SeekToLast();
        ConcatSplit(blocks, index.index);
      }
    }

    /** Skips forward over exhausted and empty blocks, to position `p` of the whole. */
    method SkipEmptyDataBlocksForward(ghost p: nat)
      requires WellFormed() && InStep()
      requires Valid() ==> p == Start(blocks, index.index) + data.index
      requires !Valid() ==> p == if index.Valid() then Start(blocks, index.index + 1) else |Flat()|
      modifies Footprint()
      ensures Consistent() && Position() == p && p <= |Flat()|
      ensures fresh(Footprint() - old(Footprint()))
    {
      while data == null || !data.Valid()
        invariant WellFormed() && InStep()
        invariant Valid() ==> p == Start(blocks, index.index) + data.index
        invariant !Valid() ==> p == if index.Valid() then Start(blocks, index.index + 1) else |Flat()|
        invariant fresh(Footprint() - old(Footprint()))
        decreases |index.flat| - index.index
      {
        if !index.Valid() {
          data := null;
          return;
        }
        NextBlock();
      }
      ConcatSplit(blocks, index.index);
    }

    /** Skips backward over exhausted and empty blocks, to the position before `end` of the whole. */
    method SkipEmptyDataBlocksBackward(ghost end: nat)
      requires WellFormed() && InStep()
      requires Valid() ==> end == Start(blocks, index.index) + data.index + 1
      requires !Valid() ==> end == if index.Valid() then Start(blocks, index.index) else 0
      modifies Footprint()
      ensures Consistent()
      ensures Position() == if end > 0 then end - 1 else |Flat()|
      ensures fresh(Footprint() - old(Footprint()))
    {
      while data == null || !data.Valid()
        invariant WellFormed() && InStep()
        invariant Valid() ==> end == Start(blocks, index.index) + data.index + 1
        invariant !Valid() ==> end == if index.Valid() then Start(blocks, index.index) else 0
        invariant fresh(Footprint() - old(Footprint()))
        decreases if index.Valid() then index.index + 1 else 0
      {
        if !index.Valid() {
          data := null;
          return;
        }
        PrevBlock();
      }
    }

    method SeekData(target: Key)
      requires WellFormed() && InStep() && data != null && index.index == SeekPosition(index.flat, target)
      modifies data
      ensures WellFormed() && InStep() && index.index == old(index.index) < |blocks|
      ensures SeekPosition(Flat(), target) == Start(blocks, index.index) + data.index
      ensures Start(blocks, index.index + 1) == Start(blocks, index.index) + |blocks[index.index]|
    {
      data.Seek(target);
      SeekInBlock(index.flat, blocks, target, index.index);
      ConcatSplit(blocks, index.index);
    }

    method Seek(target: Key)
      requires WellFormed()
      modifies Footprint()
      ensures Consistent() && Position() == SeekPosition(Flat(), target)
      ensures fresh(Footprint() - old(Footprint()))
    {
      ghost var p := SeekPosition(Flat(), target);
      index.Seek(target);
      InitDataBlock();
      if data != null {
        SeekData(target);
      } else {
        SeekInBlock(index.flat, blocks, target, |index.flat|);
      }
      SkipEmptyDataBlocksForward(p);
    }

    method SeekToFirst()
      requires WellFormed()
      modifies Footprint()
      ensures Consistent() && Position() == FirstPosition(|Flat()|)
      ensures fresh(Footprint() - old(Footprint()))
    {
      index.SeekToFirst();
      InitDataBlock();
      if data != null {
        data.SeekToFirst();
        ConcatSplit(blocks, 0);
      }
      SkipEmptyDataBlocksForward(0);
    }

    method SeekToLast()
      requires WellFormed()
      modifies Footprint()
      ensures Consistent() && Position() == LastPosition(|Flat()|)
      ensures fresh(Footprint() - old(Footprint()))
    {
      index.SeekToLast();
      InitDataBlock();
      if data != null {
        data.SeekToLast();
        ConcatSplit(blocks, index.index);
        assert blocks[..index.index + 1] == blocks;
      }
      SkipEmptyDataBlocksBackward(|Flat()|);
    }

    method Next()
      requires Consistent() && Valid()
      modifies Footprint()
      ensures Consistent() && Position() == NextPosition(|Flat()|, old(Position()))
      ensures fresh(Footprint() - old(Footprint()))
    {
      ghost var p := Position();
      ConcatSplit(blocks, index.index);
      data.Next();
      SkipEmptyDataBlocksForward(p + 1);
    }

    method Prev()
      requires Consistent() && Valid()
      modifies Footprint()
      ensures Consistent() && Position() == PrevPosition(|Flat()|, old(Position()))
      ensures fresh(Footprint() - old(Footprint()))
    {
      ghost var p := Position();
      ConcatSplit(blocks, index.index);
      data.Prev();
      SkipEmptyDataBlocksBackward(p);
    }
  }
}
