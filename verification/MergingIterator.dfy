/**
 The iterator that merges sorted children.  It is a cursor over one merged sequence that holds every entry
 of every child.  Children may hold equal keys: the merged sequence then has one item per child,
 and only a change of direction at such a key is inexact, in exactly the way stated here.
 */
module MergingIterators {
  import opened InternalKeys
  import opened Cursors

  /** One entry of one child. */
  datatype Item = Item(entry: Entry, child: nat, offset: nat)

  /** Items are ordered by key, equal keys by child. */
  predicate Before(a: Item, b: Item) {
    Less(a.entry.key, b.entry.key) || (a.entry.key == b.entry.key && a.child < b.child)
  }

  ghost predicate Ordered(items: seq<Item>) {
    forall i, j :: 0 <= i < j < |items| ==> Before(items[i], items[j])
  }

  ghost predicate IsItem(flats: seq<seq<Entry>>, it: Item) {
    && it.child < |flats| && it.offset < |flats[it.child]|
    && it.entry == flats[it.child][it.offset]
  }

  ghost function ItemAt(flats: seq<seq<Entry>>, d: nat, j: nat): Item
    requires d < |flats| && j < |flats[d]|
  {
    Item(flats[d][j], d, j)
  }

  /** The ordered sequence of all the items. */
  ghost predicate IsMerge(flats: seq<seq<Entry>>, merged: seq<Item>) {
    && Ordered(merged)
    && forall it :: it in merged <==> IsItem(flats, it)
  }

  ghost predicate AllSorted(flats: seq<seq<Entry>>) {
    forall d :: 0 <= d < |flats| ==> Sorted(flats[d])
  }

  /** A merge of the first children and then of the next one. */
  ghost function Interleave(xs: seq<Item>, ys: seq<Item>): seq<Item> {
    if xs == [] then ys
    else if ys == [] then xs
    else if Before(xs[0], ys[0]) then [xs[0]] + Interleave(xs[1..], ys)
    else [ys[0]] + Interleave(xs, ys[1..])
  }

  lemma {:induction false} InterleaveHolds(xs: seq<Item>, ys: seq<Item>, it: Item)
    ensures it in Interleave(xs, ys) <==> it in xs || it in ys
  {
    if xs != [] && ys != [] {
      if Before(xs[0], ys[0]) {
        InterleaveHolds(xs[1..], ys, it);
        assert xs == [xs[0]] + xs[1..];
      } else {
        InterleaveHolds(xs, ys[1..], it);
        assert ys == [ys[0]] + ys[1..];
      }
    }
  }

  lemma {:induction false} OrderedCons(z: Item, zs: seq<Item>)
    requires Ordered(zs) && forall it :: it in zs ==> Before(z, it)
    ensures Ordered([z] + zs)
  {
    var all := [z] + zs;
    forall i, j | 0 <= i < j < |all| ensures Before(all[i], all[j]) {
      assert all[j] == zs[j - 1] && zs[j - 1] in zs;
    }
  }

  lemma {:induction false} HeadBeforeTail(xs: seq<Item>, it: Item)
    requires Ordered(xs) && xs != [] && it in xs[1..]
    ensures Before(xs[0], it)
  {
    var j :| 0 <= j < |xs[1..]| && xs[1..][j] == it;
    assert xs[j + 1] == it;
  }

  lemma {:induction false} InterleaveOrdered(xs: seq<Item>, ys: seq<Item>)
    requires Ordered(xs) && Ordered(ys)
    requires forall x, y :: x in xs && y in ys ==> x.child < y.child
    ensures Ordered(Interleave(xs, ys))
  {
    if xs != [] && ys != [] {
      if Before(xs[0], ys[0]) {
        var zs := Interleave(xs[1..], ys);
        InterleaveOrdered(xs[1..], ys);
        forall it | it in zs ensures Before(xs[0], it) {
          InterleaveHolds(xs[1..], ys, it);
          if it in xs[1..] {
            HeadBeforeTail(xs, it);
          } else if it in ys[1..] {
            HeadBeforeTail(ys, it);
          }
        }
        OrderedCons(xs[0], zs);
      } else {
        var zs := Interleave(xs, ys[1..]);
        InterleaveOrdered(xs, ys[1..]);
        forall it | it in zs ensures Before(ys[0], it) {
          InterleaveHolds(xs, ys[1..], it);
          if it in ys[1..] {
            HeadBeforeTail(ys, it);
          } else if it in xs[1..] {
            HeadBeforeTail(xs, it);
            CompareIsTotalOrder(xs[0].entry.key, ys[0].entry.key);
          }
        }
        OrderedCons(ys[0], zs);
      }
    }
  }

  /** Every collection of sorted children has a merge. */
  lemma {:induction false} MergeExists(flats: seq<seq<Entry>>) returns (merged: seq<Item>)
    requires AllSorted(flats)
    ensures IsMerge(flats, merged)
    decreases |flats|
  {
    if flats == [] {
      merged := [];
    } else {
      var n := |flats| - 1;
      var rest := MergeExists(flats[..n]);
      var last := seq(|flats[n]|, j requires 0 <= j < |flats[n]| => ItemAt(flats, n, j));
      merged := Interleave(rest, last);
      forall it ensures it in merged <==> IsItem(flats, it) {
        InterleaveHolds(rest, last, it);
        if it.child == n && IsItem(flats, it) {
          assert last[it.offset] == it;
        }
      }
      forall x, y | x in rest && y in last ensures x.child < y.child {
        assert IsItem(flats[..n], x);
      }
      InterleaveOrdered(rest, last);
    }
  }

  /** There is only one merge, so a position in it means something. */
  lemma {:induction false} MergeIsUnique(a: seq<Item>, b: seq<Item>)
    requires Ordered(a) && Ordered(b) && forall it :: it in a <==> it in b
    ensures a == b
  {
    if a != [] || b != [] {
      assert a != [] && b != [] by {
        assert a != [] ==> a[0] in b;
        assert b != [] ==> b[0] in a;
      }
      assert a[0] == b[0] by {
        assert a[0] in b && b[0] in a;
        var i :| 0 <= i < |b| && b[i] == a[0];
        var j :| 0 <= j < |a| && a[j] == b[0];
      }
      forall it ensures it in a[1..] <==> it in b[1..] {
        assert it in a[1..] ==> it in a && it != a[0];
        assert it in b[1..] ==> it in b && it != b[0];
        assert a == [a[0]] + a[1..] && b == [b[0]] + b[1..];
      }
      MergeIsUnique(a[1..], b[1..]);
      assert a == [a[0]] + a[1..] && b == [b[0]] + b[1..];
    }
  }

  /** The entries in merged order. */
  ghost function Entries(merged: seq<Item>): (es: seq<Entry>)
    ensures |es| == |merged| && forall i :: 0 <= i < |merged| ==> es[i] == merged[i].entry
  {
    seq(|merged|, i requires 0 <= i < |merged| => merged[i].entry)
  }

  ghost predicate DistinctAcross(flats: seq<seq<Entry>>) {
    forall c, d, i, j :: && 0 <= c < |flats| && 0 <= d < |flats| && c != d
                         && 0 <= i < |flats[c]| && 0 <= j < |flats[d]| ==>
                           flats[c][i].key != flats[d][j].key
  }

  /** When no key occurs in two children, the merge is a sorted sequence of entries, each once. */
  lemma {:induction false} DistinctMergeIsSorted(flats: seq<seq<Entry>>, merged: seq<Item>)
    requires AllSorted(flats) && IsMerge(flats, merged) && DistinctAcross(flats)
    ensures Sorted(Entries(merged))
    ensures forall e :: e in Entries(merged) <==> exists d :: 0 <= d < |flats| && e in flats[d]
  {
    forall i, j | 0 <= i < j < |merged| ensures Less(merged[i].entry.key, merged[j].entry.key) {
      assert merged[i] in merged && merged[j] in merged;
      assert IsItem(flats, merged[i]) && IsItem(flats, merged[j]);
    }
    var es := Entries(merged);
    forall e ensures e in es <==> exists d :: 0 <= d < |flats| && e in flats[d] {
      if e in es {
        var i :| 0 <= i < |es| && es[i] == e;
        assert merged[i] in merged;
        assert e in flats[merged[i].child];
      }
      if d :| 0 <= d < |flats| && e in flats[d] {
        var j :| 0 <= j < |flats[d]| && flats[d][j] == e;
        assert ItemAt(flats, d, j) in merged;
        var i :| 0 <= i < |merged| && merged[i] == ItemAt(flats, d, j);
        assert es[i] == e;
      }
    }
  }

  /** Every child stands just after its items among the first `p` of the merge. */
  ghost predicate AllAfter(flats: seq<seq<Entry>>, merged: seq<Item>, indices: seq<nat>, p: nat)
    requires |indices| == |flats| && p <= |merged|
  {
    forall d, j :: 0 <= d < |flats| && 0 <= j < |flats[d]| ==> (j < indices[d] <==> ItemAt(flats, d, j) in merged[..p])
  }

  /** Every child stands at its last item among the first `p` of the merge, and is invalid if there is none. */
  ghost predicate AllAtLast(flats: seq<seq<Entry>>, merged: seq<Item>, indices: seq<nat>, p: nat)
    requires |indices| == |flats| && p <= |merged|
  {
    forall d, j :: 0 <= d < |flats| && 0 <= j < |flats[d]| ==>
                     (indices[d] < |flats[d]| && j <= indices[d] <==> ItemAt(flats, d, j) in merged[..p])
  }

  lemma {:induction false} InPrefix(merged: seq<Item>, p: nat, it: Item)
    requires Ordered(merged) && p < |merged| && it in merged
    ensures it in merged[..p] <==> Before(it, merged[p])
    ensures it in merged[..p + 1] <==> it == merged[p] || Before(it, merged[p])
  {
    var q :| 0 <= q < |merged| && merged[q] == it;
    assert q < p ==> merged[..p][q] == it;
    assert q < p + 1 ==> merged[..p + 1][q] == it;
    assert q > p ==> Before(merged[p], merged[q]);
  }

  /** The child holding the next item of the merge stands at it, and any other valid child stands later. */
  lemma {:induction false} HeadIsSmallest(flats: seq<seq<Entry>>, merged: seq<Item>, indices: seq<nat>, p: nat)
    requires AllSorted(flats) && IsMerge(flats, merged) && |indices| == |flats| && p <= |merged|
    requires AllAfter(flats, merged, indices, p)
    ensures p < |merged| ==> IsItem(flats, merged[p]) && indices[merged[p].child] == merged[p].offset
    ensures p < |merged| ==> forall d :: 0 <= d < |flats| && d != merged[p].child && indices[d] < |flats[d]| ==>
                                           Before(merged[p], ItemAt(flats, d, indices[d]))
    ensures p == |merged| ==> forall d :: 0 <= d < |flats| ==> indices[d] >= |flats[d]|
  {
    if p < |merged| {
      var it := merged[p];
      assert it in merged;
      InPrefix(merged, p, it);
      var c := it.child;
      assert it == ItemAt(flats, c, it.offset);
      if indices[c] < it.offset {
        var prior := ItemAt(flats, c, indices[c]);
        assert prior in merged;
        InPrefix(merged, p, prior);
      }
      forall d | 0 <= d < |flats| && d != c && indices[d] < |flats[d]|
        ensures Before(it, ItemAt(flats, d, indices[d])) {
        var other := ItemAt(flats, d, indices[d]);
        assert other in merged && other !in merged[..p];
        InPrefix(merged, p, other);
        var q :| 0 <= q < |merged| && merged[q] == other;
      }
    } else {
      assert merged[..p] == merged;
      forall d | 0 <= d < |flats| ensures indices[d] >= |flats[d]| {
        if |flats[d]| > 0 {
          assert ItemAt(flats, d, |flats[d]| - 1) in merged;
        }
      }
    }
  }

  lemma {:induction false} HeadIsLargest(flats: seq<seq<Entry>>, merged: seq<Item>, indices: seq<nat>, p: nat)
    requires AllSorted(flats) && IsMerge(flats, merged) && |indices| == |flats| && p <= |merged|
    requires AllAtLast(flats, merged, indices, p)
    ensures p > 0 ==> IsItem(flats, merged[p - 1]) && indices[merged[p - 1].child] == merged[p - 1].offset
    ensures p > 0 ==> forall d :: 0 <= d < |flats| && d != merged[p - 1].child && indices[d] < |flats[d]| ==>
                                    Before(ItemAt(flats, d, indices[d]), merged[p - 1])
    ensures p == 0 ==> forall d :: 0 <= d < |flats| ==> indices[d] >= |flats[d]|
  {
    if p > 0 {
      var it := merged[p - 1];
      assert it in merged;
      InPrefix(merged, p - 1, it);
      var c := it.child;
      assert it == ItemAt(flats, c, it.offset);
      var later := ItemAt(flats, c, indices[c]);
      assert later in merged;
      InPrefix(merged, p - 1, later);
      forall d | 0 <= d < |flats| && d != c && indices[d] < |flats[d]|
        ensures Before(ItemAt(flats, d, indices[d]), it) {
        var other := ItemAt(flats, d, indices[d]);
        assert other in merged;
        InPrefix(merged, p - 1, other);
      }
    } else {
      forall d | 0 <= d < |flats| ensures indices[d] >= |flats[d]| {
        if |flats[d]| > 0 {
          assert ItemAt(flats, d, 0) !in merged[..p];
        }
      }
    }
  }

  /** Stepping past the current item moves the boundary by one. */
  lemma {:induction false} StepAfter(flats: seq<seq<Entry>>, merged: seq<Item>, indices: seq<nat>, p: nat)
    requires IsMerge(flats, merged) && |indices| == |flats| && p < |merged|
    requires AllAfter(flats, merged, indices, p)
    requires merged[p].child < |flats| && indices[merged[p].child] == merged[p].offset
    ensures AllAfter(flats, merged, indices[merged[p].child := merged[p].offset + 1], p + 1)
  {
    var c := merged[p].child;
    assert merged[p] in merged;
    forall d, j | 0 <= d < |flats| && 0 <= j < |flats[d]|
      ensures j < indices[c := merged[p].offset + 1][d] <==> ItemAt(flats, d, j) in merged[..p + 1]
    {
      assert ItemAt(flats, d, j) in merged;
      InPrefix(merged, p, ItemAt(flats, d, j));
      assert ItemAt(flats, d, j) == merged[p] <==> d == c && j == merged[p].offset;
    }
  }

  lemma {:induction false} StepBack(flats: seq<seq<Entry>>, merged: seq<Item>, indices: seq<nat>, p: nat, back: nat)
    requires IsMerge(flats, merged) && |indices| == |flats| && p < |merged|
    requires AllAtLast(flats, merged, indices, p + 1)
    requires merged[p].child < |flats| && indices[merged[p].child] == merged[p].offset
    requires back == PrevPosition(|flats[merged[p].child]|, merged[p].offset)
    ensures AllAtLast(flats, merged, indices[merged[p].child := back], p)
  {
    var c := merged[p].child;
    assert merged[p] in merged;
    forall d, j | 0 <= d < |flats| && 0 <= j < |flats[d]|
      ensures (indices[c := back][d] < |flats[d]| && j <= indices[c := back][d]) <==> ItemAt(flats, d, j) in merged[..p]
    {
      assert ItemAt(flats, d, j) in merged;
      InPrefix(merged, p, ItemAt(flats, d, j));
      assert ItemAt(flats, d, j) == merged[p] <==> d == c && j == merged[p].offset;
    }
  }

  /** The first position whose key is greater than `k`: past `k` and all its duplicates. */
  ghost predicate IsAfterKey(merged: seq<Item>, k: Key, p: nat) {
    && p <= |merged|
    && (forall i :: 0 <= i < p ==> LessEq(merged[i].entry.key, k))
    && forall i :: p <= i < |merged| ==> Less(k, merged[i].entry.key)
  }

  /** The number of positions whose key is smaller than `k`. */
  ghost predicate IsBeforeKey(merged: seq<Item>, k: Key, p: nat) {
    && p <= |merged|
    && (forall i :: 0 <= i < p ==> Less(merged[i].entry.key, k))
    && forall i :: p <= i < |merged| ==> LessEq(k, merged[i].entry.key)
  }

  lemma {:induction false} BoundariesExist(merged: seq<Item>, k: Key) returns (before: nat, after: nat)
    requires Ordered(merged)
    ensures IsBeforeKey(merged, k, before) && IsAfterKey(merged, k, after)
    ensures SeekPosition(Entries(merged), k) == before
  {
    var es := Entries(merged);
    before := SeekPosition(es, k);
    forall i | before <= i < |merged| ensures LessEq(k, merged[i].entry.key) {
      CompareIsTotalOrder(es[before].key, k);
      assert i == before || Before(merged[before], merged[i]);
    }
    after := before;
    while after < |merged| && merged[after].entry.key == k
      invariant before <= after <= |merged|
      invariant forall i :: 0 <= i < after ==> LessEq(merged[i].entry.key, k)
    {
      after := after + 1;
    }
    forall i | after <= i < |merged| ensures Less(k, merged[i].entry.key) {
      assert i == after || Before(merged[after], merged[i]);
    }
  }

  lemma {:induction false} SeekGivesAllAfter(flats: seq<seq<Entry>>, merged: seq<Item>, indices: seq<nat>, k: Key,
                                             p: nat)
    requires AllSorted(flats) && IsMerge(flats, merged) && |indices| == |flats|
    requires forall d :: 0 <= d < |flats| ==> indices[d] == SeekPosition(flats[d], k)
    requires IsBeforeKey(merged, k, p)
    ensures AllAfter(flats, merged, indices, p)
  {
    forall d, j | 0 <= d < |flats| && 0 <= j < |flats[d]|
      ensures j < indices[d] <==> ItemAt(flats, d, j) in merged[..p] {
      SeekPositionIsUnique(flats[d], k, indices[d]);
      var it := ItemAt(flats, d, j);
      assert it in merged;
      var q :| 0 <= q < |merged| && merged[q] == it;
      assert q < p ==> merged[..p][q] == it;
      if it in merged[..p] {
        var r :| 0 <= r < p && merged[..p][r] == it;
      }
    }
  }

  /** A child just past its entries with key at most `k`. */
  ghost predicate PastKey(flat: seq<Entry>, index: nat, k: Key) {
    forall j :: 0 <= j < |flat| ==> (j < index <==> LessEq(flat[j].key, k))
  }

  /** A child at its last entry with key less than `k`, invalid if it has none. */
  ghost predicate BeforeKey(flat: seq<Entry>, index: nat, k: Key) {
    forall j :: 0 <= j < |flat| ==> ((index < |flat| && j <= index) <==> Less(flat[j].key, k))
  }

  lemma {:induction false} PastKeyGivesAllAfter(flats: seq<seq<Entry>>, merged: seq<Item>, indices: seq<nat>, k: Key,
                                                p: nat)
    requires IsMerge(flats, merged) && |indices| == |flats| && IsAfterKey(merged, k, p)
    requires forall d :: 0 <= d < |flats| ==> PastKey(flats[d], indices[d], k)
    ensures AllAfter(flats, merged, indices, p)
  {
    forall d, j | 0 <= d < |flats| && 0 <= j < |flats[d]|
      ensures j < indices[d] <==> ItemAt(flats, d, j) in merged[..p] {
      var it := ItemAt(flats, d, j);
      assert it in merged && PastKey(flats[d], indices[d], k);
      var q :| 0 <= q < |merged| && merged[q] == it;
      assert q < p ==> merged[..p][q] == it;
      if it in merged[..p] {
        var r :| 0 <= r < p && merged[..p][r] == it;
      }
    }
  }

  lemma {:induction false} BeforeKeyGivesAllAtLast(flats: seq<seq<Entry>>, merged: seq<Item>, indices: seq<nat>,
                                                   k: Key, p: nat)
    requires IsMerge(flats, merged) && |indices| == |flats| && IsBeforeKey(merged, k, p)
    requires forall d :: 0 <= d < |flats| ==> BeforeKey(flats[d], indices[d], k)
    ensures AllAtLast(flats, merged, indices, p)
  {
    forall d, j | 0 <= d < |flats| && 0 <= j < |flats[d]|
      ensures (indices[d] < |flats[d]| && j <= indices[d]) <==> ItemAt(flats, d, j) in merged[..p]
    {
      var it := ItemAt(flats, d, j);
      assert it in merged && BeforeKey(flats[d], indices[d], k);
      var q :| 0 <= q < |merged| && merged[q] == it;
      assert q < p ==> merged[..p][q] == it;
      if it in merged[..p] {
        var r :| 0 <= r < p && merged[..p][r] == it;
      }
    }
  }

  /** With no duplicate of its key, the positions around an item are its neighbours. */
  lemma {:induction false} NoDuplicateNeighbours(merged: seq<Item>, p: nat, before: nat, after: nat)
    requires Ordered(merged) && p < |merged|
    requires IsBeforeKey(merged, merged[p].entry.key, before) && IsAfterKey(merged, merged[p].entry.key, after)
    ensures before <= p < after
    ensures after == p + 1 <==> (p + 1 < |merged| ==> merged[p + 1].entry.key != merged[p].entry.key)
    ensures before == p <==> (p > 0 ==> merged[p - 1].entry.key != merged[p].entry.key)
  {
    assert p + 1 < |merged| ==> Before(merged[p], merged[p + 1]);
    assert p > 0 ==> Before(merged[p - 1], merged[p]);
    if after > p + 1 {
      assert LessEq(merged[p + 1].entry.key, merged[p].entry.key);
    }
    if before < p {
      assert LessEq(merged[p].entry.key, merged[p - 1].entry.key);
    }
  }

  datatype Direction = Forward | Reverse

  class MergingIterator {
    const children: seq<FlatIterator>
    var current: Option<nat>
    var direction: Direction
    ghost const flats: seq<seq<Entry>>
    ghost const merged: seq<Item>
    ghost var position: nat

    constructor (children: seq<FlatIterator>)
      requires forall c, d :: 0 <= c < d < |children| ==> children[c] != children[d]
      requires forall d :: 0 <= d < |children| ==> children[d].WellFormed()
      ensures this.children == children
      ensures Consistent() && position == |merged|
    {
      this.children := children;
      current, direction := None, Forward;
      var fs := seq(|children|, d requires 0 <= d < |children| => children[d].flat);
      flats := fs;
      ghost var m := MergeExists(fs);
      merged := m;
      position := |m|;
    }

    ghost predicate WellFormed()
      reads this, children
    {
      && (forall c, d :: 0 <= c < d < |children| ==> children[c] != children[d])
      && (forall d :: 0 <= d < |children| ==> children[d].WellFormed())
      && |flats| == |children|
      && (forall d :: 0 <= d < |children| ==> flats[d] == children[d].flat)
      && AllSorted(flats)
      && IsMerge(flats, merged)
    }

    ghost function Indices(): (r: seq<nat>)
      reads this, children
      ensures |r| == |children|
      ensures forall d :: 0 <= d < |children| ==> r[d] == children[d].index
    {
      seq(|children|, d requires 0 <= d < |children| reads this, children => children[d].index)
    }

    /** The current child stands at the item of this position, and the others around it as the direction demands. */
    ghost predicate Consistent()
      reads this, children
    {
      && WellFormed()
      && position <= |merged|
      && (current.Some? <==> position < |merged|)
      && (current.Some? ==> AtPosition(current.value))
    }

    ghost predicate AtPosition(c: nat)
      requires WellFormed() && position < |merged|
      reads this, children
    {
      && c < |children|
      && c == merged[position].child && children[c].index == merged[position].offset
      && IsItem(flats, merged[position])
      && (direction == Forward ==> AllAfter(flats, merged, Indices(), position))
      && (direction == Reverse ==> AllAtLast(flats, merged, Indices(), position + 1))
    }

    predicate Valid()
      reads this
    {
      current.Some?
    }

    function Current(): Entry
      requires Consistent() && Valid()
      reads this, children
      ensures Current() == Entries(merged)[position]
    {
      children[current.value].Current()
    }

    /** The valid child with the least key, the first of several. */
    method FindSmallest(ghost p: nat)
      requires WellFormed() && p <= |merged| && AllAfter(flats, merged, Indices(), p)
      modifies this`current, this`position
      ensures position == p
      ensures current.Some? <==> p < |merged|
      ensures current.Some? ==>
                && IsItem(flats, merged[p])
                && current.value == merged[p].child && children[merged[p].child].index == merged[p].offset
    {
      HeadIsSmallest(flats, merged, Indices(), p);
      var smallest: Option<nat> := None;
      for i := 0 to |children|
        invariant smallest.Some? ==> smallest.value < i && children[smallest.value].Valid()
        invariant p < |merged| && merged[p].child < i ==> smallest == Some(merged[p].child)
        invariant p == |merged| ==> smallest.None?
      {
        var child := children[i];
        if child.Valid() {
          if smallest.None? {
            smallest := Some(i);
          } else {
            CompareIsTotalOrder(child.Current().key, children[smallest.value].Current().key);
            if Compare(child.Current().key, children[smallest.value].Current().key) < 0 {
              smallest := Some(i);
            }
          }
        }
      }
      current := smallest;
      position := p;
    }

    /** The valid child with the greatest key, the last of several. */
    method FindLargest(ghost p: nat)
      requires WellFormed() && p <= |merged| && AllAtLast(flats, merged, Indices(), p)
      modifies this`current, this`position
      ensures position == if p > 0 then p - 1 else |merged|
      ensures current.Some? <==> p > 0
      ensures current.Some? ==>
                && IsItem(flats, merged[p - 1])
                && current.value == merged[p - 1].child && children[merged[p - 1].child].index == merged[p - 1].offset
    {
      HeadIsLargest(flats, merged, Indices(), p);
      var largest: Option<nat> := None;
      for i := |children| downto 0
        invariant largest.Some? ==> i <= largest.value < |children| && children[largest.value].Valid()
        invariant p > 0 && merged[p - 1].child >= i ==> largest == Some(merged[p - 1].child)
        invariant p == 0 ==> largest.None?
      {
        var child := children[i];
        if child.Valid() {
          if largest.None? {
            largest := Some(i);
          } else {
            CompareIsTotalOrder(child.Current().key, children[largest.value].Current().key);
            if Compare(child.Current().key, children[largest.value].Current().key) > 0 {
              largest := Some(i);
            }
          }
        }
      }
      current := largest;
      position := if p > 0 then p - 1 else |merged|;
    }

    method SeekToFirst()
      requires WellFormed()
      modifies this, children
      ensures Consistent() && direction == Forward
      ensures position == FirstPosition(|merged|)
    {
      for i := 0 to |children|
        invariant WellFormed()
        invariant forall d :: 0 <= d < i ==> children[d].index == 0
      {
        children[i].SeekToFirst();
      }
      FindSmallest(0);
      direction := Forward;
    }

    method SeekToLast()
      requires WellFormed()
      modifies this, children
      ensures Consistent() && direction == Reverse
      ensures position == LastPosition(|merged|)
    {
      for i := 0 to |children|
        invariant WellFormed()
        invariant forall d :: 0 <= d < i ==> children[d].index == LastPosition(|flats[d]|)
      {
        children[i].SeekToLast();
      }
      forall d, j | 0 <= d < |flats| && 0 <= j < |flats[d]| ensures ItemAt(flats, d, j) in merged[..|merged|] {
        assert merged[..|merged|] == merged;
      }
      FindLargest(|merged|);
      direction := Reverse;
    }

    /** The first item whose key is at or after the target. */
    method Seek(target: Key)
      requires WellFormed()
      modifies this, children
      ensures Consistent() && direction == Forward
      ensures position == SeekPosition(Entries(merged), target)
    {
      for i := 0 to |children|
        invariant WellFormed()
        invariant forall d :: 0 <= d < i ==> children[d].index == SeekPosition(flats[d], target)
      {
        children[i].Seek(target);
      }
      ghost var before, after := BoundariesExist(merged, target);
      SeekGivesAllAfter(flats, merged, Indices(), target, before);
      FindSmallest(before);
      direction := Forward;
    }

    /** A non-current child is placed after the current key. */
    static method PlaceAfter(child: FlatIterator, key: Key)
      requires child.WellFormed()
      modifies child
      ensures child.WellFormed() && PastKey(child.flat, child.index, key)
    {
      child.Seek(key);
      SeekPositionIsUnique(child.flat, key, child.index);
      ghost var flat, i := child.flat, child.index;
      assert forall j :: i < j < |flat| ==> Less(flat[i].key, flat[j].key);
      if child.Valid() {
        CompareIsTotalOrder(key, child.Current().key);
        if Compare(key, child.Current().key) == 0 {
          child.Next();
        }
      }
    }

    /** A non-current child is placed before the current key. */
    static method PlaceBefore(child: FlatIterator, key: Key)
      requires child.WellFormed()
      modifies child
      ensures child.WellFormed() && BeforeKey(child.flat, child.index, key)
    {
      child.Seek(key);
      SeekPositionIsUnique(child.flat, key, child.index);
      if child.Valid() {
        child.Prev();
      } else {
        child.SeekToLast();
      }
    }

    /**
     The next position.  After a backward move this is the first position with a greater key, which skips
     duplicates of the current key, so a change of direction is exact where the key has no duplicate.
     */
    method Next()
      requires Consistent() && Valid()
      modifies this, children
      ensures Consistent() && direction == Forward
      ensures old(direction) == Forward ==> position == NextPosition(|merged|, old(position))
      ensures old(direction) == Reverse ==> IsAfterKey(merged, merged[old(position)].entry.key, position)
    {
      ghost var p, next := position, position + 1;
      var c := current.value;
      if direction != Forward {
        next := TurnForward(c);
      } else {
        StepAfter(flats, merged, Indices(), p);
        ghost var indices := Indices();
        children[c].Next();
        assert Indices() == indices[c := merged[p].offset + 1];
      }
      FindSmallest(next);
    }

    /** Moves every child past the current key. */
    method TurnForward(c: nat) returns (ghost next: nat)
      requires Consistent() && current == Some(c)
      modifies this`direction, children
      ensures WellFormed() && direction == Forward
      ensures IsAfterKey(merged, merged[position].entry.key, next)
      ensures AllAfter(flats, merged, Indices(), next)
    {
      ghost var p, k := position, merged[position].entry.key;
      for i := 0 to |children|
        invariant WellFormed()
        invariant children[c].index == merged[p].offset && IsItem(flats, merged[p])
        invariant forall d :: 0 <= d < i && d != c ==> PastKey(flats[d], children[d].index, k)
      {
        if i != c {
          PlaceAfter(children[i], children[c].Current().key);
        }
      }
      direction := Forward;
      children[c].Next();
      ghost var before, after := BoundariesExist(merged, k);
      forall d | 0 <= d < |flats| ensures PastKey(flats[d], Indices()[d], k) {
        assert d == c ==> PastKey(flats[c], merged[p].offset + 1, k);
      }
      PastKeyGivesAllAfter(flats, merged, Indices(), k, after);
      next := after;
    }

    /**
     The previous position.  After a forward move this is the last position with a smaller key, which skips
     duplicates of the current key.
     */
    method Prev()
      requires Consistent() && Valid()
      modifies this, children
      ensures Consistent() && direction == Reverse
      ensures old(direction) == Reverse ==> position == PrevPosition(|merged|, old(position))
      ensures old(direction) == Forward ==>
                exists before: nat :: IsBeforeKey(merged, merged[old(position)].entry.key, before)
                                 && position == if before > 0 then before - 1 else |merged|
    {
      ghost var p, start := position, position;
      var c := current.value;
      if direction != Reverse {
        start := TurnBack(c);
      } else {
        ghost var indices := Indices();
        children[c].Prev();
        StepBack(flats, merged, indices, p, children[c].index);
        assert Indices() == indices[c := children[c].index];
      }
      FindLargest(start);
    }

    /** Moves every child before the current key. */
    method TurnBack(c: nat) returns (ghost before: nat)
      requires Consistent() && current == Some(c)
      modifies this`direction, children
      ensures WellFormed() && direction == Reverse
      ensures IsBeforeKey(merged, merged[position].entry.key, before)
      ensures AllAtLast(flats, merged, Indices(), before)
    {
      ghost var p, k := position, merged[position].entry.key;
      for i := 0 to |children|
        invariant WellFormed()
        invariant children[c].index == merged[p].offset && IsItem(flats, merged[p])
        invariant forall d :: 0 <= d < i && d != c ==> BeforeKey(flats[d], children[d].index, k)
      {
        if i != c {
          PlaceBefore(children[i], children[c].Current().key);
        }
      }
      direction := Reverse;
      children[c].Prev();
      ghost var after;
      before, after := BoundariesExist(merged, k);
      forall d | 0 <= d < |flats| ensures BeforeKey(flats[d], Indices()[d], k) {
        assert d == c ==> BeforeKey(flats[c], PrevPosition(|flats[c]|, merged[p].offset), k);
      }
      BeforeKeyGivesAllAtLast(flats, merged, Indices(), k, before);
    }
  }
}
