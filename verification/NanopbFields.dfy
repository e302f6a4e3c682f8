/**
 The field iterator that the encoder and the decoder share: it walks the descriptor array and wraps
 around, counting the required fields before its position.
 */
module NanopbFields {
  import opened InternalKeys
  import opened Nanopb
  import opened Coding
  import opened Bloom

  class FieldIter {
    const fields: seq<Field>
    var pos: nat
    var requiredFieldIndex: nat

    constructor (fields: seq<Field>)
      ensures Valid() && this.fields == fields && pos == 0
    {
      this.fields := fields;
      pos, requiredFieldIndex := 0, 0;
    }

    /** Only an empty descriptor stands at its terminator. */
    ghost predicate Valid()
      reads this
    {
      && (if fields == [] then pos == 0 else pos < |fields|)
      && requiredFieldIndex == RequiredBefore(fields, pos)
    }

    method Begin() returns (more: bool)
      modifies this
      ensures Valid() && pos == 0 && more == (fields != [])
    {
      pos, requiredFieldIndex := 0, 0;
      more := fields != [];
    }

    /** Moves to the next field; past the last one, back to the first. */
    method Next() returns (more: bool)
      requires Valid()
      modifies this
      ensures Valid() && more == (old(pos) + 1 < |fields|)
      ensures pos == if old(pos) + 1 < |fields| then old(pos) + 1 else 0
    {
      if fields == [] {
        return false;
      }
      var prev := fields[pos];
      pos := pos + 1;
      if pos == |fields| {
        // Wrapped back to the beginning.
        var again := Begin();
        return false;
      }
      if prev.rule.Required? {
        requiredFieldIndex := requiredFieldIndex + 1;
      }
      more := true;
    }

    /** The position after `k` steps around the array. */
    static function Around(start: nat, k: nat, n: nat): nat {
      if start + k < n then start + k else start + k - n
    }

    /** Looks for a tag from the current position on, around the whole array. */
    method Find(tag: nat) returns (found: bool)
      requires Valid() && fields != []
      modifies this
      ensures Valid()
      ensures found <==> exists i :: 0 <= i < |fields| && fields[i].tag == tag
      ensures found ==> pos < |fields| && fields[pos].tag == tag
      ensures !found ==> pos == old(pos)
    {
      var start := pos;
      ghost var k: nat := 0;
      while true
        invariant Valid() && k < |fields| && pos == Around(start, k, |fields|)
        invariant forall j :: 0 <= j < k ==> fields[Around(start, j, |fields|)].tag != tag
        decreases |fields| - k
      {
        if fields[pos].tag == tag {
          return true;
        }
        var more := Next();
        k := k + 1;
        if pos == start {
          break;
        }
      }
      forall i | 0 <= i < |fields| ensures fields[i].tag != tag {
        var j := if i >= start then i - start else i + |fields| - start;
        assert Around(start, j, |fields|) == i;
      }
      found := false;
    }
  }

  /** With different tags the iterator finds the one field that the descriptor has for a tag, wherever it starts. */
  lemma {:induction false} FoundIsTheField(fields: seq<Field>, tag: nat, pos: nat)
    requires forall i :: 0 <= i < |fields| ==> FieldOk(fields, i)
    requires pos < |fields| && fields[pos].tag == tag
    ensures Nanopb.Find(fields, tag, 0) == Some(pos)
  {
    FindOwn(fields, pos, 0);
  }

  lemma {:induction false} AllOnes(n: nat, b: nat)
    requires b < n
    ensures BitOf(Pow2(n) - 1, b)
  {
    assert (Pow2(n) - 1) / 2 == Pow2(n - 1) - 1;
    if b > 0 {
      AllOnes(n - 1, b - 1);
    }
  }

  predicate LowBitsSet(w: nat, n: nat) {
    forall b :: 0 <= b < n ==> BitOf(w, b)
  }

  lemma {:induction false} AllBitsSet(w: nat, n: nat)
    requires w < Pow2(n)
    ensures w == Pow2(n) - 1 <==> LowBitsSet(w, n)
  {
    if LowBitsSet(w, n) {
      FullIsAllOnes(w, n);
    }
    if w == Pow2(n) - 1 {
      forall b | 0 <= b < n ensures BitOf(w, b) {
        AllOnes(n, b);
      }
    }
  }

  lemma {:induction false} FullIsAllOnes(w: nat, n: nat)
    requires w < Pow2(n) && LowBitsSet(w, n)
    ensures w == Pow2(n) - 1
  {
    if n > 0 {
      forall b | 0 <= b < n - 1 ensures BitOf(w / 2, b) {
        assert BitOf(w, b + 1);
      }
      FullIsAllOnes(w / 2, n - 1);
      assert BitOf(w, 0);
    }
  }

  lemma {:induction false} HighBitsClear(w: nat, r: nat, n: nat)
    requires r <= n && w < Pow2(n) && forall b :: r <= b < n ==> !BitOf(w, b)
    ensures w < Pow2(r)
  {
    if r == 0 {
      if n > 0 {
        forall b | 0 <= b < n - 1 ensures !BitOf(w / 2, b) {
          assert !BitOf(w, b + 1);
        }
        HighBitsClear(w / 2, 0, n - 1);
        assert !BitOf(w, 0);
      }
    } else {
      forall b | r - 1 <= b < n - 1 ensures !BitOf(w / 2, b) {
        assert !BitOf(w, b + 1);
      }
      HighBitsClear(w / 2, r - 1, n - 1);
    }
  }

  /** The bitmap of required fields that were seen: two words of 32 bits. */
  class FieldsSeen {
    var words: seq<nat>
    ghost var seen: set<nat>

    constructor ()
      ensures Valid() && seen == {}
    {
      words := [0, 0];
      seen := {};
      new;
      forall i | 0 <= i < 64 ensures !BitOf(words[i / 32], i % 32) {
        ZeroHasNoBits(i % 32);
      }
    }

    ghost predicate Valid()
      reads this
    {
      && |words| == 2 && words[0] < Pow2(32) && words[1] < Pow2(32)
      && (forall i :: i in seen ==> i < 64)
      && (forall i :: 0 <= i < 64 ==> (BitOf(words[i / 32], i % 32) <==> i in seen))
    }

    method Mark(index: nat)
      requires Valid() && index < MAX_REQUIRED_FIELDS
      modifies this
      ensures Valid() && seen == old(seen) + {index}
    {
      WithBitFits(words[index / 32], index % 32, 32);
      words := words[index / 32 := WithBit(words[index / 32], index % 32)];
      seen := seen + {index};
      forall i | 0 <= i < 64 ensures BitOf(words[i / 32], i % 32) <==> i in seen {
        WithBitHolds(old(words)[i / 32], index % 32, i % 32);
      }
    }

    /** Whole words are compared with all ones, the last one with as many ones as are left. */
    method AllSeen(count: nat) returns (ok: bool)
      requires Valid() && count <= MAX_REQUIRED_FIELDS && forall i :: i in seen ==> i < count
      ensures ok <==> forall i :: 0 <= i < count ==> i in seen
    {
      for w := 0 to count / 32
        invariant forall i :: 0 <= i < 32 * w ==> i in seen
      {
        AllBitsSet(words[w], 32);
        if words[w] != Pow2(32) - 1 {
          ghost var b :| 0 <= b < 32 && !BitOf(words[w], b);
          assert 32 * w + b !in seen by {
            assert (32 * w + b) / 32 == w && (32 * w + b) % 32 == b;
          }
          return false;
        }
        WordSeen(w, 32);
      }
      var r := count % 32;
      if r != 0 {
        var last := count / 32;
        LastWord(last, r);
        if words[last] != Pow2(r) - 1 {
          ghost var b :| 0 <= b < r && !BitOf(words[last], b);
          assert 32 * last + b !in seen by {
            assert (32 * last + b) / 32 == last && (32 * last + b) % 32 == b;
          }
          return false;
        }
        WordSeen(last, r);
      }
      ok := true;
    }

    lemma WordSeen(w: nat, r: nat)
      requires Valid() && w < 2 && r <= 32 && LowBitsSet(words[w], r)
      ensures forall i :: 32 * w <= i < 32 * w + r ==> i in seen
    {
      forall i | 32 * w <= i < 32 * w + r ensures i in seen {
        assert i / 32 == w && i % 32 == i - 32 * w;
        assert BitOf(words[w], i - 32 * w);
      }
    }

    lemma LastWord(w: nat, r: nat)
      requires Valid() && w < 2 && r <= 32 && forall i :: i in seen ==> i < 32 * w + r
      ensures words[w] == Pow2(r) - 1 <==> LowBitsSet(words[w], r)
    {
      forall b | r <= b < 32 ensures !BitOf(words[w], b) {
        assert (32 * w + b) / 32 == w && (32 * w + b) % 32 == b;
        assert 32 * w + b !in seen;
      }
      HighBitsClear(words[w], r, 32);
      AllBitsSet(words[w], r);
    }
  }

  /** The bits of the required fields among those seen. */
  ghost function Ranks(fields: seq<Field>, seen: set<nat>): set<nat> {
    set i | i in seen && i < |fields| && fields[i].rule.Required?
        && RequiredBefore(fields, i) < MAX_REQUIRED_FIELDS :: RequiredBefore(fields, i)
  }

  lemma {:induction false} RanksGrow(fields: seq<Field>, i: nat, j: nat)
    requires i <= j <= |fields|
    ensures RequiredBefore(fields, i) <= RequiredBefore(fields, j)
    ensures i < j && fields[i].rule.Required? ==> RequiredBefore(fields, i) < RequiredBefore(fields, j)
    decreases j
  {
    if i < j {
      RanksGrow(fields, i, j - 1);
    }
  }

  lemma {:induction false} FieldOfRank(fields: seq<Field>, rank: nat, n: nat) returns (i: nat)
    requires n <= |fields| && rank < RequiredBefore(fields, n)
    ensures i < n && fields[i].rule.Required? && RequiredBefore(fields, i) == rank
  {
    if fields[n - 1].rule.Required? && RequiredBefore(fields, n - 1) == rank {
      i := n - 1;
    } else {
      i := FieldOfRank(fields, rank, n - 1);
    }
  }

  /** The bitmap is full up to the number of required fields exactly when every tracked field was seen. */
  lemma {:induction false} BitmapDecides(fields: seq<Field>, seen: set<nat>)
    ensures var count := RequiredBefore(fields, |fields|);
            var checked := if count > MAX_REQUIRED_FIELDS then MAX_REQUIRED_FIELDS else count;
            (forall r :: 0 <= r < checked ==> r in Ranks(fields, seen)) <==> Tracked(fields) <= seen
  {
    var count := RequiredBefore(fields, |fields|);
    var checked := if count > MAX_REQUIRED_FIELDS then MAX_REQUIRED_FIELDS else count;
    if Tracked(fields) <= seen {
      forall r | 0 <= r < checked ensures r in Ranks(fields, seen) {
        var i := FieldOfRank(fields, r, |fields|);
        assert i in Tracked(fields);
      }
    }
    if forall r :: 0 <= r < checked ==> r in Ranks(fields, seen) {
      forall i | i in Tracked(fields) ensures i in seen {
        var r := RequiredBefore(fields, i);
        RanksGrow(fields, i, |fields|);
        assert r in Ranks(fields, seen);
        var j :| j in seen && j < |fields| && fields[j].rule.Required? && RequiredBefore(fields, j) == r;
        if i < j {
          RanksGrow(fields, i, j);
        } else {
          RanksGrow(fields, j, i);
        }
      }
    }
  }
}
