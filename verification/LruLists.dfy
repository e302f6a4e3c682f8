/**
 Intrusive circular lists: every element, the list head included, has a next and a previous element.  An
 element can be taken out without knowing which list it is in.
 */
module LruLists {

  /** The link fields of all elements. */
  datatype Links = Links(next: map<nat, nat>, prev: map<nat, nat>)

  predicate Linked(l: Links, e: nat) {
    e in l.next && e in l.prev
  }

  /** Takes an element out of its list. */
  function Unlink(l: Links, e: nat): Links
    requires Linked(l, e)
  {
    var prev := l.prev[l.next[e] := l.prev[e]];
    Links(l.next[l.prev[e] := l.next[e]], prev)
  }

  /** Makes an element the newest of a list, just before the head. */
  function LinkLast(l: Links, head: nat, e: nat): Links
    requires head in l.prev
  {
    var last := l.prev[head];
    Links(l.next[e := head][last := e], l.prev[e := last][head := e])
  }

  /** The `i`th element of a ring, where the head is both before the first and after the last. */
  function NodeAt(head: nat, s: seq<nat>, i: nat): nat {
    if 0 < i <= |s| then s[i - 1] else head
  }

  ghost predicate LinkedAt(l: Links, head: nat, s: seq<nat>, i: nat) {
    var a, b := NodeAt(head, s, i), NodeAt(head, s, i + 1);
    a in l.next && b in l.prev && l.next[a] == b && l.prev[b] == a
  }

  /** The elements of a list, from the oldest to the newest. */
  ghost predicate Ring(l: Links, head: nat, s: seq<nat>) {
    forall i :: 0 <= i <= |s| ==> LinkedAt(l, head, s, i)
  }

  ghost predicate Distinct(head: nat, s: seq<nat>) {
    && head !in s
    && forall i, j :: 0 <= i < j < |s| ==> s[i] != s[j]
  }

  function Without(s: seq<nat>, k: nat): seq<nat>
    requires k < |s|
  {
    s[..k] + s[k + 1..]
  }

  lemma {:induction false} NodesDiffer(head: nat, s: seq<nat>, i: nat, j: nat)
    requires Distinct(head, s) && i <= |s| && j <= |s|
    ensures NodeAt(head, s, i) == NodeAt(head, s, j) <==> i == j
  {
  }

  lemma {:induction false} ElementLinked(l: Links, head: nat, s: seq<nat>, k: nat)
    requires Ring(l, head, s) && k < |s|
    ensures Linked(l, s[k]) && l.prev[s[k]] == NodeAt(head, s, k) && l.next[s[k]] == NodeAt(head, s, k + 2)
  {
    assert LinkedAt(l, head, s, k) && LinkedAt(l, head, s, k + 1);
    assert NodeAt(head, s, k + 1) == s[k];
  }

  lemma {:induction false} UnlinkShortens(l: Links, head: nat, s: seq<nat>, k: nat)
    requires Ring(l, head, s) && Distinct(head, s) && k < |s|
    ensures Linked(l, s[k]) && Ring(Unlink(l, s[k]), head, Without(s, k)) && Distinct(head, Without(s, k))
  {
    ElementLinked(l, head, s, k);
    var m, t := Unlink(l, s[k]), Without(s, k);
    forall i | 0 <= i <= |t| ensures LinkedAt(m, head, t, i) {
      var j := if i <= k then i else i + 1;
      assert NodeAt(head, t, i) == NodeAt(head, s, j);
      if i < k {
        assert NodeAt(head, t, i + 1) == NodeAt(head, s, i + 1);
      } else {
        assert NodeAt(head, t, i + 1) == NodeAt(head, s, i + 2);
      }
      assert LinkedAt(l, head, s, j);
      NodesDiffer(head, s, j, k);
      NodesDiffer(head, s, if i < k then i + 1 else if i + 2 <= |s| then i + 2 else 0,
                  if k + 2 <= |s| then k + 2 else 0);
      if i == k {
        assert NodeAt(head, s, k + 2) == l.next[s[k]];
      }
    }
  }

  /** A list is not touched by unlinking an element of another one. */
  lemma {:induction false} UnlinkElsewhere(l: Links, head: nat, s: seq<nat>, e: nat)
    requires Ring(l, head, s) && Linked(l, e)
    requires l.next[e] != head && l.prev[e] != head && l.next[e] !in s && l.prev[e] !in s
    ensures Ring(Unlink(l, e), head, s)
  {
    forall i | 0 <= i <= |s| ensures LinkedAt(Unlink(l, e), head, s, i) {
      assert LinkedAt(l, head, s, i);
    }
  }

  lemma {:induction false} LinkLastAppends(l: Links, head: nat, s: seq<nat>, e: nat)
    requires Ring(l, head, s) && Distinct(head, s) && e != head && e !in s
    ensures head in l.prev && Ring(LinkLast(l, head, e), head, s + [e]) && Distinct(head, s + [e])
  {
    assert LinkedAt(l, head, s, |s|);
    var m, t := LinkLast(l, head, e), s + [e];
    forall i | 0 <= i <= |t| ensures LinkedAt(m, head, t, i) {
      if i < |s| {
        assert LinkedAt(l, head, s, i);
        assert NodeAt(head, t, i) == NodeAt(head, s, i) && NodeAt(head, t, i + 1) == NodeAt(head, s, i + 1);
        NodesDiffer(head, s, i, |s|);
      } else if i == |s| {
        assert NodeAt(head, t, i) == NodeAt(head, s, i);
      }
    }
  }

  lemma {:induction false} LinkLastElsewhere(l: Links, head: nat, s: seq<nat>, other: nat, e: nat)
    requires Ring(l, head, s) && other in l.prev
    requires other != head && other !in s && e != head && e !in s && l.prev[other] != head && l.prev[other] !in s
    ensures Ring(LinkLast(l, other, e), head, s)
  {
    forall i | 0 <= i <= |s| ensures LinkedAt(LinkLast(l, other, e), head, s, i) {
      assert LinkedAt(l, head, s, i);
    }
  }

  /** The head tells whether the list is empty, and its oldest element. */
  lemma {:induction false} HeadOfRing(l: Links, head: nat, s: seq<nat>)
    requires Ring(l, head, s) && Distinct(head, s)
    ensures head in l.next && (l.next[head] == head <==> s == []) && (s != [] ==> l.next[head] == s[0])
    ensures head in l.prev && (l.prev[head] == head || l.prev[head] in s)
  {
    assert LinkedAt(l, head, s, 0);
    assert LinkedAt(l, head, s, |s|);
  }
}
