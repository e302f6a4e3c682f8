/**
 The iterator contract: a position in one flat sorted sequence, where the length of the sequence
 stands for "not valid".  The merging, two-level and user-key iterators are each
 proved to behave like such a position.
 */
module Cursors {
  import opened InternalKeys

  /** The position of the first entry at or after `target`. */
  function SeekPosition(flat: seq<Entry>, target: Key): (p: nat)
    ensures p <= |flat|
    ensures forall i :: 0 <= i < p ==> Less(flat[i].key, target)
    ensures p < |flat| ==> !Less(flat[p].key, target)
  {
    if flat == [] || !Less(flat[0].key, target) then 0 else 1 + SeekPosition(flat[1..], target)
  }

  /** In a sorted sequence everything from the position on is at or after the target. */
  lemma {:induction false} SeekPositionIsUnique(flat: seq<Entry>, target: Key, p: nat)
    requires Sorted(flat) && p <= |flat|
    requires p > 0 ==> Less(flat[p - 1].key, target)
    requires p < |flat| ==> !Less(flat[p].key, target)
    ensures SeekPosition(flat, target) == p
    ensures forall i :: p <= i < |flat| ==> !Less(flat[i].key, target)
  {
    var q := SeekPosition(flat, target);
    assert q >= p || q == p - 1 || Less(flat[q].key, flat[p - 1].key);
  }

  function NextPosition(n: nat, pos: nat): nat {
    if pos < n then pos + 1 else n
  }

  function PrevPosition(n: nat, pos: nat): nat {
    if 0 < pos < n then pos - 1 else n
  }

  function FirstPosition(n: nat): nat {
    0
  }

  function LastPosition(n: nat): nat {
    if n == 0 then 0 else n - 1
  }

  /** A cursor over a sorted sequence, as the file list of a level is iterated. */
  class FlatIterator {
    const flat: seq<Entry>
    var index: nat

    constructor (flat: seq<Entry>)
      ensures this.flat == flat && index == |flat|
    {
      this.flat := flat;
      index := |flat|;
    }

    ghost predicate WellFormed()
      reads this
    {
      Sorted(flat) && index <= |flat|
    }

    predicate Valid()
      reads this
    {
      index < |flat|
    }

    function Current(): Entry
      requires Valid()
      reads this
    {
      flat[index]
    }

    /** Binary search for the first entry at or after the target. */
    method Seek(target: Key)
      requires Sorted(flat)
      modifies this
      ensures index == SeekPosition(flat, target)
    {
      var left, right := 0, |flat|;
      while left < right
        invariant 0 <= left <= right <= |flat|
        invariant forall i :: 0 <= i < left ==> Less(flat[i].key, target)
        invariant forall i :: right <= i < |flat| ==> !Less(flat[i].key, target)
      {
        var mid := (left + right) / 2;
        CompareIsTotalOrder(flat[mid].key, target);
        if Compare(flat[mid].key, target) < 0 {
          left := mid + 1;
        } else {
          right := mid;
        }
      }
      index := right;
      SeekPositionIsUnique(flat, target, index);
    }

    method SeekToFirst()
      modifies this
      ensures index == FirstPosition(|flat|)
    {
      index := 0;
    }

    method SeekToLast()
      modifies this
      ensures index == LastPosition(|flat|)
    {
      index := if |flat| == 0 then 0 else |flat| - 1;
    }

    method Next()
      requires Valid()
      modifies this
      ensures index == NextPosition(|flat|, old(index))
    {
      index := index + 1;
    }

    method Prev()
      requires Valid()
      modifies this
      ensures index == PrevPosition(|flat|, old(index))
    {
      if index == 0 {
        index := |flat|;
      } else {
        index := index - 1;
      }
    }
  }
}
