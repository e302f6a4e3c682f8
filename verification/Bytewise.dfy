/**
 The default comparator: byte strings in lexicographic order, with the two operations that make
 short index keys.
 */
module Bytewise {
  import opened InternalKeys

  predicate LexLess(a: Bytes, b: Bytes) {
    if b == [] then false
    else if a == [] then true
    else if a[0] != b[0] then a[0] < b[0]
    else LexLess(a[1..], b[1..])
  }

  /** The place of a byte string in the order, as a number at least 0 and below 1. */
  function Rank(k: Bytes): (r: real)
    ensures 0.0 <= r < 1.0
  {
    RankFrom(k, 0)
  }

  function RankFrom(k: Bytes, i: nat): (r: real)
    requires i <= |k|
    ensures 0.0 <= r < 1.0
    decreases |k| - i
  {
    if i == |k| then 0.0 else (k[i] as real + 1.0 + RankFrom(k, i + 1)) / 257.0
  }

  lemma {:induction false} RankOfTail(k: Bytes, i: nat)
    requires 0 < i <= |k|
    ensures RankFrom(k, i) == RankFrom(k[1..], i - 1)
    decreases |k| - i
  {
    if i < |k| {
      RankOfTail(k, i + 1);
    }
  }

  /** Ranks order byte strings as the comparator does, so a user key may stand for its rank. */
  lemma {:induction false} RankPreservesOrder(a: Bytes, b: Bytes)
    ensures LexLess(a, b) <==> Rank(a) < Rank(b)
    ensures a == b <==> Rank(a) == Rank(b)
  {
    if a != [] && b != [] {
      RankPreservesOrder(a[1..], b[1..]);
      RankOfTail(a, 1);
      RankOfTail(b, 1);
      assert a == [a[0]] + a[1..] && b == [b[0]] + b[1..];
      if a[0] < b[0] {
        assert a[0] as real + 1.0 <= b[0] as real;
      } else if b[0] < a[0] {
        assert b[0] as real + 1.0 <= a[0] as real;
      }
    }
  }

  function CommonPrefix(a: Bytes, b: Bytes): (n: nat)
    ensures n <= |a| && n <= |b|
    ensures a[..n] == b[..n]
    ensures n < |a| && n < |b| ==> a[n] != b[n]
  {
    if a == [] || b == [] || a[0] != b[0] then 0
    else
      var n := CommonPrefix(a[1..], b[1..]);
      assert a[..n + 1] == [a[0]] + a[1..][..n];
      assert b[..n + 1] == [b[0]] + b[1..][..n];
      n + 1
  }

  /** Where two strings first differ decides their order. */
  lemma {:induction false} LexAfterPrefix(a: Bytes, b: Bytes, n: nat)
    requires n <= |a| && n <= |b| && a[..n] == b[..n]
    ensures LexLess(a, b) <==> LexLess(a[n..], b[n..])
  {
    if n > 0 {
      assert a[0] == a[..n][0] == b[..n][0] == b[0];
      assert a[1..][..n - 1] == a[..n][1..] == b[..n][1..] == b[1..][..n - 1];
      LexAfterPrefix(a[1..], b[1..], n - 1);
      assert a[1..][n - 1..] == a[n..] && b[1..][n - 1..] == b[n..];
    }
  }

  function Separator(start: Bytes, limit: Bytes): Bytes {
    var n := CommonPrefix(start, limit);
    if n < |start| && n < |limit| && start[n] < 255 && start[n] + 1 < limit[n]
    then start[..n] + [start[n] + 1]
    else start
  }

  /** Edits `start` into a short string that still separates it from `limit`. */
  method FindShortestSeparator(start: Bytes, limit: Bytes) returns (key: Bytes)
    ensures key == Separator(start, limit)
  {
    key := start;
    var minLength := if |start| < |limit| then |start| else |limit|;
    var diffIndex := 0;
    while diffIndex < minLength && start[diffIndex] == limit[diffIndex]
      invariant diffIndex <= minLength
      invariant start[..diffIndex] == limit[..diffIndex]
    {
      diffIndex := diffIndex + 1;
    }
    PrefixIsCommon(start, limit, diffIndex);
    if diffIndex >= minLength {
      // One string is a prefix of the other: do not shorten.
    } else {
      var diffByte := start[diffIndex];
      if diffByte < 255 && diffByte + 1 < limit[diffIndex] {
        key := key[diffIndex := diffByte + 1];
        key := key[..diffIndex + 1];
      }
    }
  }

  lemma {:induction false} PrefixIsCommon(a: Bytes, b: Bytes, n: nat)
    requires n <= |a| && n <= |b| && a[..n] == b[..n]
    requires n < |a| && n < |b| ==> a[n] != b[n]
    ensures CommonPrefix(a, b) == n
  {
    var m := CommonPrefix(a, b);
    assert forall i :: 0 <= i < n ==> a[i] == a[..n][i] && b[i] == b[..n][i];
    assert forall i :: 0 <= i < m ==> a[i] == a[..m][i] && b[i] == b[..m][i];
  }

  /** A changed separator lies strictly between, and no string strictly between is shorter. */
  lemma {:induction false} SeparatorSeparates(start: Bytes, limit: Bytes)
    ensures |Separator(start, limit)| <= |start|
    ensures Separator(start, limit) != start ==>
            LexLess(start, Separator(start, limit)) && LexLess(Separator(start, limit), limit)
    ensures Separator(start, limit) != start ==>
              forall x :: LexLess(start, x) && LexLess(x, limit) ==> |x| >= |Separator(start, limit)|
  {
    var n, key := CommonPrefix(start, limit), Separator(start, limit);
    if key != start {
      assert key[..n] == start[..n] == limit[..n];
      LexAfterPrefix(start, key, n);
      LexAfterPrefix(key, limit, n);
      forall x | LexLess(start, x) && LexLess(x, limit) ensures |x| > n {
        BetweenSharesPrefix(start, x, limit, n);
      }
    }
  }

  /** What lies between two strings with a common prefix has that prefix, and something after it. */
  lemma {:induction false} BetweenSharesPrefix(a: Bytes, x: Bytes, b: Bytes, n: nat)
    requires n < |a| && n < |b| && a[..n] == b[..n]
    requires LexLess(a, x) && LexLess(x, b)
    ensures |x| > n
  {
    if n > 0 {
      assert a[0] == a[..n][0] == b[..n][0] == b[0];
      assert a[1..][..n - 1] == a[..n][1..] == b[..n][1..] == b[1..][..n - 1];
      BetweenSharesPrefix(a[1..], x[1..], b[1..], n - 1);
    }
  }

  function Successor(key: Bytes): Bytes {
    if key == [] then []
    else if key[0] != 255 then [key[0] + 1]
    else [key[0]] + Successor(key[1..])
  }

  /** Increments the first byte that can be incremented and drops the rest. */
  method FindShortSuccessor(start: Bytes) returns (key: Bytes)
    ensures key == Successor(start)
  {
    key := start;
    for i := 0 to |start|
      invariant Successor(start) == start[..i] + Successor(start[i..])
    {
      var byte := key[i];
      assert start[i..][0] == byte && start[i..][1..] == start[i + 1..];
      if byte != 255 {
        key := key[i := byte + 1];
        key := key[..i + 1];
        return;
      }
    }
    // A run of 255: leave it alone.
    assert start[..|start|] == start && start[|start|..] == [];
  }

  /** A changed successor lies above, and no string above is shorter. */
  lemma {:induction false} SuccessorIsAbove(key: Bytes)
    ensures |Successor(key)| <= |key|
    ensures Successor(key) != key ==> LexLess(key, Successor(key))
    ensures Successor(key) != key ==> forall x :: LexLess(key, x) ==> |x| >= |Successor(key)|
    ensures Successor(key) == key <==> forall i :: 0 <= i < |key| ==> key[i] == 255
  {
    if key != [] {
      SuccessorIsAbove(key[1..]);
      if key[0] == 255 {
        assert key == [key[0]] + key[1..];
        assert Successor(key)[1..] == Successor(key[1..]);
        forall x | Successor(key) != key && LexLess(key, x) ensures |x| >= |Successor(key)| {
          assert LexLess(key[1..], x[1..]);
        }
        assert (forall i :: 0 <= i < |key[1..]| ==> key[1..][i] == 255)
          <==> forall i :: 0 <= i < |key| ==> key[i] == 255 by {
          assert forall i :: 0 <= i < |key[1..]| ==> key[1..][i] == key[i + 1];
          assert forall i :: 1 <= i < |key| ==> key[i] == key[1..][i - 1];
        }
      }
    }
  }
}
