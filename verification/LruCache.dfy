/**
 One shard of the cache: a hash table, a list of the entries that only the cache refers to, in the order of
 their release, a list of the entries that clients use, and reference counts.
 */
module LruCaches {
  import opened InternalKeys
  import opened HandleTables
  import opened LruLists

  datatype Handle = Handle(key: Bytes, hash: nat, charge: nat, inCache: bool, refs: nat)

  /** The list heads; handles are numbered from 2 on in the order of their allocation. */
  const LRU: nat := 0

  const IN_USE: nat := 1

  function Drop(s: seq<nat>, e: nat): seq<nat> {
    if s == [] then [] else if s[0] == e then s[1..] else [s[0]] + Drop(s[1..], e)
  }

  lemma {:induction false} DropAt(head: nat, s: seq<nat>, k: nat)
    requires Distinct(head, s) && k < |s|
    ensures Drop(s, s[k]) == Without(s, k)
  {
    if k > 0 {
      DropAt(head, s[1..], k - 1);
      assert s[1..][k - 1] == s[k];
      assert Without(s, k) == [s[0]] + Without(s[1..], k - 1);
    }
  }

  lemma {:induction false} DropAbsent(s: seq<nat>, e: nat)
    requires e !in s
    ensures Drop(s, e) == s
  {
    if s != [] {
      DropAbsent(s[1..], e);
    }
  }

  lemma {:induction false} DropHolds(head: nat, s: seq<nat>, e: nat)
    requires Distinct(head, s)
    ensures forall x :: x in Drop(s, e) <==> x in s && x != e
  {
    if e in s {
      var k :| 0 <= k < |s| && s[k] == e;
      DropAt(head, s, k);
      forall x | x in s && x != e ensures x in Without(s, k) {
        var j :| 0 <= j < |s| && s[j] == x;
        assert Without(s, k)[if j < k then j else j - 1] == x;
      }
    } else {
      DropAbsent(s, e);
    }
  }

  /** Both lists are well linked and have no element in common. */
  ghost predicate Lists(l: Links, lru: seq<nat>, inUse: seq<nat>) {
    && Ring(l, LRU, lru) && Distinct(LRU, lru)
    && Ring(l, IN_USE, inUse) && Distinct(IN_USE, inUse)
    && (forall e :: e in lru ==> e >= 2 && e !in inUse)
    && (forall e :: e in inUse ==> e >= 2)
  }

  lemma {:induction false} NeighboursInList(l: Links, head: nat, s: seq<nat>, k: nat)
    requires Ring(l, head, s) && k < |s|
    ensures Linked(l, s[k])
    ensures l.next[s[k]] == head || l.next[s[k]] in s
    ensures l.prev[s[k]] == head || l.prev[s[k]] in s
  {
    ElementLinked(l, head, s, k);
  }

  /** Taking an element out of the list that it is in. */
  lemma {:induction false} TakeOut(l: Links, lru: seq<nat>, inUse: seq<nat>, e: nat)
    requires Lists(l, lru, inUse) && (e in lru || e in inUse)
    ensures Linked(l, e) && Lists(Unlink(l, e), Drop(lru, e), Drop(inUse, e))
  {
    if e in lru {
      var k :| 0 <= k < |lru| && lru[k] == e;
      NeighboursInList(l, LRU, lru, k);
      UnlinkShortens(l, LRU, lru, k);
      UnlinkElsewhere(l, IN_USE, inUse, e);
      DropAt(LRU, lru, k);
      DropAbsent(inUse, e);
    } else {
      var k :| 0 <= k < |inUse| && inUse[k] == e;
      NeighboursInList(l, IN_USE, inUse, k);
      UnlinkShortens(l, IN_USE, inUse, k);
      UnlinkElsewhere(l, LRU, lru, e);
      DropAt(IN_USE, inUse, k);
      DropAbsent(lru, e);
    }
    DropHolds(LRU, lru, e);
    DropHolds(IN_USE, inUse, e);
  }

  lemma {:induction false} PutInUse(l: Links, lru: seq<nat>, inUse: seq<nat>, e: nat)
    requires Lists(l, lru, inUse) && e >= 2 && e !in lru && e !in inUse
    ensures IN_USE in l.prev && Lists(LinkLast(l, IN_USE, e), lru, inUse + [e])
  {
    HeadOfRing(l, IN_USE, inUse);
    LinkLastAppends(l, IN_USE, inUse, e);
    LinkLastElsewhere(l, LRU, lru, IN_USE, e);
  }

  lemma {:induction false} PutOnLru(l: Links, lru: seq<nat>, inUse: seq<nat>, e: nat)
    requires Lists(l, lru, inUse) && e >= 2 && e !in lru && e !in inUse
    ensures LRU in l.prev && Lists(LinkLast(l, LRU, e), lru + [e], inUse)
  {
    HeadOfRing(l, LRU, lru);
    LinkLastAppends(l, LRU, lru, e);
    LinkLastElsewhere(l, IN_USE, inUse, LRU, e);
  }

  /** The total charge of the listed handles. */
  function Charges(handles: map<nat, Handle>, s: seq<nat>): nat {
    if s == [] then 0
    else Charges(handles, s[..|s| - 1]) + if s[|s| - 1] in handles then handles[s[|s| - 1]].charge else 0
  }

  lemma {:induction false} ChargesSplit(handles: map<nat, Handle>, a: seq<nat>, b: seq<nat>)
    ensures Charges(handles, a + b) == Charges(handles, a) + Charges(handles, b)
    decreases |b|
  {
    if b == [] {
      assert a + b == a;
    } else {
      ChargesSplit(handles, a, b[..|b| - 1]);
      assert (a + b)[..|a + b| - 1] == a + b[..|b| - 1];
    }
  }

  lemma {:induction false} ChargesStay(a: map<nat, Handle>, b: map<nat, Handle>, s: seq<nat>)
    requires forall e :: e in s ==> e in a && e in b && a[e].charge == b[e].charge
    ensures Charges(a, s) == Charges(b, s)
  {
    if s != [] {
      ChargesStay(a, b, s[..|s| - 1]);
    }
  }

  lemma {:induction false} ChargesDrop(handles: map<nat, Handle>, head: nat, s: seq<nat>, e: nat)
    requires Distinct(head, s) && e in s && e in handles
    ensures Charges(handles, s) == Charges(handles, Drop(s, e)) + handles[e].charge
  {
    var k :| 0 <= k < |s| && s[k] == e;
    DropAt(head, s, k);
    assert s == s[..k] + [e] + s[k + 1..];
    ChargesSplit(handles, s[..k] + [e], s[k + 1..]);
    ChargesSplit(handles, s[..k], [e]);
    ChargesSplit(handles, s[..k], s[k + 1..]);
    ChargesOfOne(handles, e);
  }

  lemma ChargesOfOne(handles: map<nat, Handle>, e: nat)
    requires e in handles
    ensures Charges(handles, [e]) == handles[e].charge
  {
    assert [e][..0] == [];
  }

  /** The cached handles, each on the list that its reference count demands. */
  ghost predicate Placed(handles: map<nat, Handle>, lru: seq<nat>, inUse: seq<nat>) {
    && (forall e :: e in lru <==> e in handles && handles[e].inCache && handles[e].refs == 1)
    && (forall e :: e in inUse <==> e in handles && handles[e].inCache && handles[e].refs >= 2)
  }

  /**
     References come from clients and from the cache; `extra` is a handle with one more, which is about to
     be given up.  What a client holds is live.
   */
  ghost predicate Counted(handles: map<nat, Handle>, held: map<nat, nat>, extra: Option<nat>) {
    && (forall e :: e in handles ==>
                      && e in held
                      && handles[e].refs == held[e] + (if handles[e].inCache then 1 else 0)
                            + (if extra == Some(e) then 1 else 0)
                      && handles[e].refs > 0)
    && (forall e :: e in held && held[e] > 0 ==> e in handles)
  }

  /** The table holds exactly the cached handles. */
  ghost predicate Tabled(handles: map<nat, Handle>, nodes: set<Node>) {
    && (forall n :: n in nodes ==>
                      n.id in handles && handles[n.id].inCache && handles[n.id].key == n.key
                          && handles[n.id].hash == n.hash)
    && (forall e :: e in handles && handles[e].inCache ==> Node(e, handles[e].key, handles[e].hash) in nodes)
  }

  /** Every handle that was allocated is either live or has been deleted, once. */
  ghost predicate Accounted(handles: map<nat, Handle>, nextId: nat, deletions: seq<nat>) {
    && nextId >= 2
    && (forall i, j :: 0 <= i < j < |deletions| ==> deletions[i] != deletions[j])
    && (forall e :: e in handles ==> 2 <= e < nextId)
    && (forall e :: e in deletions <==> 2 <= e < nextId && e !in handles)
  }

  /** The lists, the places of the handles in them, and the total charge. */
  ghost predicate Listed(handles: map<nat, Handle>, l: Links, usage: nat, lru: seq<nat>, inUse: seq<nat>) {
    && Lists(l, lru, inUse)
    && Placed(handles, lru, inUse)
    && usage == Charges(handles, lru) + Charges(handles, inUse)
  }

  function WithRefs(handles: map<nat, Handle>, e: nat, refs: nat): map<nat, Handle>
    requires e in handles
  {
    handles[e := handles[e].(refs := refs)]
  }

  /** The first client reference moves an entry to the list of entries in use. */
  lemma {:induction false} FirstRefMoves(handles: map<nat, Handle>, l: Links, usage: nat, lru: seq<nat>,
                                         inUse: seq<nat>, e: nat)
    requires Listed(handles, l, usage, lru, inUse) && e in lru
    ensures Linked(l, e) && IN_USE in Unlink(l, e).prev
    ensures Listed(WithRefs(handles, e, 2), LinkLast(Unlink(l, e), IN_USE, e), usage, Drop(lru, e), inUse + [e])
  {
    TakeOut(l, lru, inUse, e);
    DropHolds(LRU, lru, e);
    DropAbsent(inUse, e);
    PutInUse(Unlink(l, e), Drop(lru, e), inUse, e);
    ChargesDrop(handles, LRU, lru, e);
    ChargesSplit(handles, inUse, [e]);
    ChargesOfOne(handles, e);
    ChargesStay(handles, WithRefs(handles, e, 2), Drop(lru, e));
    ChargesStay(handles, WithRefs(handles, e, 2), inUse + [e]);
  }

  /** The last client reference moves an entry to the end of the unused ones. */
  lemma {:induction false} LastUnrefMoves(handles: map<nat, Handle>, l: Links, usage: nat, lru: seq<nat>,
                                          inUse: seq<nat>, e: nat)
    requires Listed(handles, l, usage, lru, inUse) && e in inUse
    ensures Linked(l, e) && LRU in Unlink(l, e).prev
    ensures Listed(WithRefs(handles, e, 1), LinkLast(Unlink(l, e), LRU, e), usage, lru + [e], Drop(inUse, e))
  {
    TakeOut(l, lru, inUse, e);
    DropHolds(IN_USE, inUse, e);
    DropAbsent(lru, e);
    PutOnLru(Unlink(l, e), lru, Drop(inUse, e), e);
    ChargesDrop(handles, IN_USE, inUse, e);
    ChargesSplit(handles, lru, [e]);
    ChargesOfOne(handles, e);
    ChargesStay(handles, WithRefs(handles, e, 1), Drop(inUse, e));
    ChargesStay(handles, WithRefs(handles, e, 1), lru + [e]);
  }

  /** Other changes of a count leave an entry where it is. */
  lemma {:induction false} CountStays(handles: map<nat, Handle>, l: Links, usage: nat, lru: seq<nat>, inUse: seq<nat>,
                                      e: nat, refs: nat)
    requires Listed(handles, l, usage, lru, inUse) && e in handles && refs > 0
    requires handles[e].inCache ==> handles[e].refs >= 2 && refs >= 2
    ensures Listed(WithRefs(handles, e, refs), l, usage, lru, inUse)
  {
    ChargesStay(handles, WithRefs(handles, e, refs), lru);
    ChargesStay(handles, WithRefs(handles, e, refs), inUse);
  }

  /** An entry that leaves the cache leaves its list and takes its charge with it. */
  lemma {:induction false} LeavesCache(handles: map<nat, Handle>, l: Links, usage: nat, lru: seq<nat>, inUse: seq<nat>,
                                       e: nat)
    requires Listed(handles, l, usage, lru, inUse) && e in handles && handles[e].inCache && handles[e].refs > 0
    ensures Linked(l, e) && usage >= handles[e].charge
    ensures Listed(handles[e := handles[e].(inCache := false)], Unlink(l, e), usage - handles[e].charge, Drop(lru, e),
            Drop(inUse, e))
  {
    TakeOut(l, lru, inUse, e);
    LeavingCharge(handles, usage, lru, inUse, e);
    LeavingPlaces(handles, lru, inUse, e);
  }

  lemma {:induction false} LeavingCharge(handles: map<nat, Handle>, usage: nat, lru: seq<nat>, inUse: seq<nat>, e: nat)
    requires Distinct(LRU, lru) && Distinct(IN_USE, inUse) && Placed(handles, lru, inUse)
    requires e in handles && handles[e].inCache && handles[e].refs > 0
    requires usage == Charges(handles, lru) + Charges(handles, inUse)
    ensures var after := handles[e := handles[e].(inCache := false)];
            usage == Charges(after, Drop(lru, e)) + Charges(after, Drop(inUse, e)) + handles[e].charge
  {
    var after := handles[e := handles[e].(inCache := false)];
    DropHolds(LRU, lru, e);
    DropHolds(IN_USE, inUse, e);
    if e in lru {
      ChargesDrop(handles, LRU, lru, e);
      DropAbsent(inUse, e);
    } else {
      ChargesDrop(handles, IN_USE, inUse, e);
      DropAbsent(lru, e);
    }
    ChargesStay(handles, after, Drop(lru, e));
    ChargesStay(handles, after, Drop(inUse, e));
  }

  lemma {:induction false} LeavingPlaces(handles: map<nat, Handle>, lru: seq<nat>, inUse: seq<nat>, e: nat)
    requires Distinct(LRU, lru) && Distinct(IN_USE, inUse) && Placed(handles, lru, inUse) && e in handles
    ensures Placed(handles[e := handles[e].(inCache := false)], Drop(lru, e), Drop(inUse, e))
  {
    DropHolds(LRU, lru, e);
    DropHolds(IN_USE, inUse, e);
  }

  /** A handle outside the cache is on no list, so it can be freed. */
  lemma {:induction false} FreedIsUnlisted(handles: map<nat, Handle>, l: Links, usage: nat, lru: seq<nat>,
                                           inUse: seq<nat>, e: nat)
    requires Listed(handles, l, usage, lru, inUse) && e in handles && !handles[e].inCache
    ensures Listed(Removed(handles, e), l, usage, lru, inUse)
  {
    var after := Removed(handles, e);
    ChargesStay(handles, after, lru);
    ChargesStay(handles, after, inUse);
  }

  /** The whole state of a shard but for its table. */
  datatype Shard = Shard(handles: map<nat, Handle>, links: Links, usage: nat, nextId: nat,
                         lru: seq<nat>, inUse: seq<nat>, held: map<nat, nat>, deletions: seq<nat>)

  ghost predicate Sound(c: Shard, extra: Option<nat>) {
    && Listed(c.handles, c.links, c.usage, c.lru, c.inUse)
    && Counted(c.handles, c.held, extra)
    && Accounted(c.handles, c.nextId, c.deletions)
  }

  ghost function AfterRef(c: Shard, e: nat): Shard
    requires e in c.handles && e in c.held
  {
    var d := c.(handles := WithRefs(c.handles, e, c.handles[e].refs + 1), held := c.held[e := c.held[e] + 1]);
    if e in c.lru && Linked(c.links, e) && IN_USE in Unlink(c.links, e).prev then
      d.(links := LinkLast(Unlink(c.links, e), IN_USE, e), lru := Drop(c.lru, e), inUse := c.inUse + [e])
    else d
  }

  lemma {:induction false} RefIsSound(c: Shard, e: nat)
    requires Sound(c, None) && e in c.handles
    ensures e in c.lru <==> c.handles[e].refs == 1 && c.handles[e].inCache
    ensures e in c.lru ==> Linked(c.links, e) && IN_USE in Unlink(c.links, e).prev
    ensures Sound(AfterRef(c, e), None)
  {
    if e in c.lru {
      FirstRefMoves(c.handles, c.links, c.usage, c.lru, c.inUse, e);
    } else {
      CountStays(c.handles, c.links, c.usage, c.lru, c.inUse, e, c.handles[e].refs + 1);
    }
  }

  /** One list is the other without `e`; the rest keeps its order. */
  ghost predicate TakenOut(s: seq<nat>, t: seq<nat>, e: nat) {
    if e in s then exists k :: 0 <= k < |s| && s[k] == e && t == s[..k] + s[k + 1..] else t == s
  }

  /** A client has one reference more to `e`, and a cached entry is in use now; nothing else has changed. */
  ghost predicate Referenced(c: Shard, d: Shard, e: nat) {
    && e in c.handles && e in c.held
    && d.handles == c.handles[e := c.handles[e].(refs := c.handles[e].refs + 1)]
    && d.held == c.held[e := c.held[e] + 1]
    && e !in d.lru && (e in d.inUse <==> c.handles[e].inCache)
    && TakenOut(c.lru, d.lru, e)
    && d.inUse == (if e in c.lru then c.inUse + [e] else c.inUse)
    && d.usage == c.usage && d.nextId == c.nextId && d.deletions == c.deletions
  }

  /**
     A client has one reference less to `e`.  The last one of a handle outside the cache deletes it; the last
     one of a cached entry makes it the newest unused one.  Nothing else has changed.
   */
  ghost predicate Released(c: Shard, d: Shard, e: nat) {
    && e in c.handles && e in c.held && c.held[e] > 0
    && d.held == c.held[e := c.held[e] - 1]
    && d.usage == c.usage && d.nextId == c.nextId
    && (if c.held[e] == 1 && !c.handles[e].inCache then
          && e !in d.handles && (forall x :: x in d.handles <==> x in c.handles && x != e)
          && (forall x :: x in d.handles ==> d.handles[x] == c.handles[x])
          && d.deletions == c.deletions + [e] && d.lru == c.lru && d.inUse == c.inUse
        else
          && c.handles[e].refs > 0 && d.handles == c.handles[e := c.handles[e].(refs := c.handles[e].refs - 1)]
          && d.deletions == c.deletions
          && if c.held[e] == 1 then d.lru == c.lru + [e] && TakenOut(c.inUse, d.inUse, e)
             else d.lru == c.lru && d.inUse == c.inUse)
  }

  lemma {:induction false} DropTakesOut(head: nat, s: seq<nat>, e: nat)
    requires Distinct(head, s)
    ensures TakenOut(s, Drop(s, e), e) && e !in Drop(s, e)
  {
    DropHolds(head, s, e);
    if e in s {
      var k :| 0 <= k < |s| && s[k] == e;
      DropAt(head, s, k);
    } else {
      DropAbsent(s, e);
    }
  }

  /** A reference does what it should. */
  lemma {:induction false} RefReferences(c: Shard, e: nat)
    requires Sound(c, None) && e in c.handles
    ensures Referenced(c, AfterRef(c, e), e)
  {
    RefIsSound(c, e);
    DropTakesOut(LRU, c.lru, e);
  }

  /** Giving up a client's reference does what it should. */
  lemma {:induction false} UnrefReleases(c: Shard, e: nat)
    requires Sound(c, None) && e in c.handles && c.held[e] > 0
    ensures var given := c.(held := c.held[e := c.held[e] - 1]);
            Sound(given, Some(e)) && c.handles[e].refs > 0 && Released(c, AfterUnref(given, e), e)
  {
    var given := c.(held := c.held[e := c.held[e] - 1]);
    GivenUp(c, e);
    UnrefPlace(given, e);
    DropTakesOut(IN_USE, c.inUse, e);
    if c.handles[e].refs == 1 {
      assert forall x :: x in Removed(c.handles, e) <==> x in c.handles && x != e;
    }
  }

  lemma GivenUp(c: Shard, e: nat)
    requires Sound(c, None) && e in c.handles && c.held[e] > 0
    ensures Sound(c.(held := c.held[e := c.held[e] - 1]), Some(e))
    ensures c.handles[e].refs == c.held[e] + if c.handles[e].inCache then 1 else 0
  {
  }

  /** What a client holds is there, and was not deleted. */
  ghost predicate HeldLives(c: Shard) {
    forall x :: x in c.held && c.held[x] > 0 ==> x in c.handles && x !in c.deletions
  }

  /** The handles that clients hold before are still there, as they were. */
  ghost predicate HeldSurvive(c: Shard, d: Shard) {
    forall x :: x in c.held && c.held[x] > 0 ==>
                  && x in d.handles && x !in d.deletions && x in d.held && d.held[x] == c.held[x]
                  && x in c.handles && d.handles[x].key == c.handles[x].key
  }

  lemma SoundHeldLives(c: Shard)
    requires Sound(c, None)
    ensures HeldLives(c)
  {
  }

  lemma EvictionSparesHeld(c: Shard, d: Shard, k: nat)
    requires Sound(c, None) && Sound(d, None) && Evicted(c, d, k)
    ensures HeldSurvive(c, d)
  {
    SoundHeldLives(d);
  }

  lemma EraseSparesHeld(c: Shard, d: Shard, e: nat)
    requires Sound(c, None) && Sound(d, None) && Erased(c, d, e)
    ensures HeldSurvive(c, d)
  {
    SoundHeldLives(d);
  }

  lemma SurviveTwice(a: Shard, b: Shard, c: Shard)
    requires HeldSurvive(a, b) && HeldSurvive(b, c)
    ensures HeldSurvive(a, c)
  {
  }

  function Removed(handles: map<nat, Handle>, e: nat): map<nat, Handle> {
    map x | x in handles && x != e :: handles[x]
  }

  ghost function AfterUnref(c: Shard, e: nat): Shard
    requires e in c.handles && c.handles[e].refs > 0
  {
    var h := c.handles[e];
    if h.refs == 1 then c.(handles := Removed(c.handles, e), deletions := c.deletions + [e])
    else
      var d := c.(handles := WithRefs(c.handles, e, h.refs - 1));
      if e in c.inUse && h.refs == 2 && Linked(c.links, e) && LRU in Unlink(c.links, e).prev then
        d.(links := LinkLast(Unlink(c.links, e), LRU, e), lru := c.lru + [e], inUse := Drop(c.inUse, e))
      else d
  }

  lemma {:induction false} UnrefPlace(c: Shard, e: nat)
    requires Sound(c, Some(e)) && e in c.handles
    ensures c.handles[e].refs > 0
    ensures e in c.inUse <==> c.handles[e].inCache && c.handles[e].refs >= 2
    ensures e in c.inUse ==> Linked(c.links, e) && LRU in Unlink(c.links, e).prev
    ensures c.handles[e].refs == 1 ==> !c.handles[e].inCache
  {
    if e in c.inUse {
      LastUnrefMoves(c.handles, c.links, c.usage, c.lru, c.inUse, e);
    }
  }

  lemma {:induction false} UnrefDeletes(c: Shard, e: nat)
    requires Sound(c, Some(e)) && e in c.handles && c.handles[e].refs == 1 && !c.handles[e].inCache
    ensures Sound(AfterUnref(c, e), None)
  {
    FreedIsUnlisted(c.handles, c.links, c.usage, c.lru, c.inUse, e);
    FreedIsAccounted(c.handles, c.held, c.nextId, c.deletions, e);
  }

  lemma {:induction false} UnrefMoves(c: Shard, e: nat)
    requires Sound(c, Some(e)) && e in c.inUse && e in c.handles && c.handles[e].refs == 2
    ensures Sound(AfterUnref(c, e), None)
  {
    LastUnrefMoves(c.handles, c.links, c.usage, c.lru, c.inUse, e);
    UnrefIsCounted(c.handles, c.held, c.nextId, c.deletions, e);
  }

  lemma {:induction false} UnrefCounts(c: Shard, e: nat)
    requires Sound(c, Some(e)) && e in c.handles && c.handles[e].refs > 1 && !(e in c.inUse && c.handles[e].refs == 2)
    ensures Sound(AfterUnref(c, e), None)
  {
    CountStays(c.handles, c.links, c.usage, c.lru, c.inUse, e, c.handles[e].refs - 1);
    UnrefIsCounted(c.handles, c.held, c.nextId, c.deletions, e);
  }

  lemma {:induction false} UnrefIsSound(c: Shard, e: nat)
    requires Sound(c, Some(e)) && e in c.handles && c.handles[e].refs > 0
    ensures Sound(AfterUnref(c, e), None)
  {
    UnrefPlace(c, e);
    if c.handles[e].refs == 1 {
      UnrefDeletes(c, e);
    } else if e in c.inUse && c.handles[e].refs == 2 {
      UnrefMoves(c, e);
    } else {
      UnrefCounts(c, e);
    }
  }

  lemma FreedIsAccounted(handles: map<nat, Handle>, held: map<nat, nat>, nextId: nat, deletions: seq<nat>, e: nat)
    requires Counted(handles, held, Some(e)) && Accounted(handles, nextId, deletions) && e in handles
            && handles[e].refs == 1
    ensures Counted(Removed(handles, e), held, None) && Accounted(Removed(handles, e), nextId, deletions + [e])
  {
  }

  lemma UnrefIsCounted(handles: map<nat, Handle>, held: map<nat, nat>, nextId: nat, deletions: seq<nat>, e: nat)
    requires Counted(handles, held, Some(e)) && Accounted(handles, nextId, deletions) && e in handles
            && handles[e].refs > 1
    ensures Counted(WithRefs(handles, e, handles[e].refs - 1), held, None)
    ensures Accounted(WithRefs(handles, e, handles[e].refs - 1), nextId, deletions)
  {
  }

  /** An entry that leaves the cache, before the reference of the cache is given up. */
  ghost function AfterLeaving(c: Shard, e: nat): Shard
    requires e in c.handles && Linked(c.links, e) && c.usage >= c.handles[e].charge
  {
    c.(handles := c.handles[e := c.handles[e].(inCache := false)], links := Unlink(c.links, e),
       usage := c.usage - c.handles[e].charge, lru := Drop(c.lru, e), inUse := Drop(c.inUse, e))
  }

  lemma {:induction false} LeavingIsSound(c: Shard, e: nat)
    requires Sound(c, None) && e in c.handles && c.handles[e].inCache
    ensures Linked(c.links, e) && c.usage >= c.handles[e].charge
    ensures Sound(AfterLeaving(c, e), Some(e))
  {
    LeavesCache(c.handles, c.links, c.usage, c.lru, c.inUse, e);
  }

  /** What erasing an entry comes to: a handle that clients still hold lives on outside the cache. */
  ghost predicate Erased(c: Shard, d: Shard, e: nat) {
    && e in c.handles
    && d.handles == (if c.handles[e].refs == 1 then Removed(c.handles, e)
                     else
                       var refs: nat := if c.handles[e].refs > 0 then c.handles[e].refs - 1 else 0;
                       c.handles[e := c.handles[e].(inCache := false, refs := refs)])
    && d.deletions == (if c.handles[e].refs == 1 then c.deletions + [e] else c.deletions)
    && d.lru == Drop(c.lru, e) && d.inUse == Drop(c.inUse, e)
    && d.held == c.held && d.nextId == c.nextId && d.usage + c.handles[e].charge == c.usage
  }

  /** What has changed when the oldest `k` unused entries were evicted. */
  ghost predicate Evicted(before: Shard, now: Shard, k: nat) {
    && k <= |before.lru| && now.lru == before.lru[k..] && now.deletions == before.deletions + before.lru[..k]
    && now.inUse == before.inUse && now.held == before.held && now.nextId == before.nextId
    && (forall x :: x in now.handles <==> x in before.handles && x !in before.lru[..k])
    && (forall x :: x in now.handles ==> now.handles[x] == before.handles[x])
    && (k > 0 ==> before.lru[k - 1] in before.handles)
  }

  lemma EvictedNothing(c: Shard)
    ensures Evicted(c, c, 0)
  {
  }

  lemma {:induction false} EvictedNext(before: Shard, was: Shard, now: Shard, k: nat)
    requires Evicted(before, was, k) && was.lru != [] && was.lru[0] in was.handles
    requires now.lru == was.lru[1..] && now.deletions == was.deletions + [was.lru[0]]
            && now.handles == Removed(was.handles, was.lru[0])
    requires now.inUse == was.inUse && now.held == was.held && now.nextId == was.nextId
    ensures Evicted(before, now, k + 1) && before.lru[k] == was.lru[0]
  {
    assert before.lru[..k + 1] == before.lru[..k] + [before.lru[k]];
    assert was.lru[0] in before.lru[..k + 1];
  }

  /** The table holds every cached handle but this one. */
  ghost predicate TabledBut(handles: map<nat, Handle>, nodes: set<Node>, e: nat) {
    && (forall n :: n in nodes ==>
                      n.id != e && n.id in handles && handles[n.id].inCache && handles[n.id].key == n.key
                          && handles[n.id].hash == n.hash)
    && (forall x :: x in handles && handles[x].inCache && x != e ==> Node(x, handles[x].key, handles[x].hash) in nodes)
  }

  /** Removing a key from the table finds its cached handle. */
  lemma RemovedFromTable(handles: map<nat, Handle>, nodes: set<Node>, n: Node)
    requires Tabled(handles, nodes) && OnePerKey(nodes) && n in nodes
    ensures n.id in handles && handles[n.id].inCache && handles[n.id].key == n.key && handles[n.id].hash == n.hash
    ensures TabledBut(handles, nodes - {n}, n.id)
  {
  }

  lemma {:induction false} EraseFacts(c: Shard, d: Shard, e: nat, nodes: set<Node>)
    requires Sound(c, None) && e in c.handles && c.handles[e].inCache && TabledBut(c.handles, nodes, e)
    requires Linked(c.links, e) && c.usage >= c.handles[e].charge && d == AfterUnref(AfterLeaving(c, e), e)
    ensures Erased(c, d, e) && Tabled(d.handles, nodes)
  {
    DropHolds(IN_USE, c.inUse, e);
    var was := AfterLeaving(c, e).handles;
    assert Removed(was, e) == Removed(c.handles, e);
  }

  /** After a new handle, not in the cache yet. */
  ghost function AfterNew(c: Shard, key: Bytes, hash: nat, charge: nat): Shard {
    c.(handles := c.handles[c.nextId := Handle(key, hash, charge, false, 1)], held := c.held[c.nextId := 1],
        nextId := c.nextId + 1)
  }

  lemma {:induction false} NewIsSound(c: Shard, key: Bytes, hash: nat, charge: nat)
    requires Sound(c, None)
    ensures c.nextId !in c.handles && Sound(AfterNew(c, key, hash, charge), None)
  {
    var d := AfterNew(c, key, hash, charge);
    ChargesStay(c.handles, d.handles, c.lru);
    ChargesStay(c.handles, d.handles, c.inUse);
  }

  /** The cache takes a reference of its own to an entry that a client holds. */
  ghost function AfterCaching(c: Shard, e: nat): Shard
    requires e in c.handles && IN_USE in c.links.prev
  {
    c.(handles := c.handles[e := c.handles[e].(inCache := true, refs := 2)], links := LinkLast(c.links, IN_USE, e),
       usage := c.usage + c.handles[e].charge, inUse := c.inUse + [e])
  }

  lemma {:induction false} CachingIsSound(c: Shard, e: nat)
    requires Sound(c, None) && e in c.handles && !c.handles[e].inCache && c.handles[e].refs == 1
    ensures IN_USE in c.links.prev && Sound(AfterCaching(c, e), None)
  {
    var after := c.handles[e := c.handles[e].(inCache := true, refs := 2)];
    PutInUse(c.links, c.lru, c.inUse, e);
    ChargesSplit(after, c.inUse, [e]);
    ChargesOfOne(after, e);
    ChargesStay(c.handles, after, c.lru);
    ChargesStay(c.handles, after, c.inUse);
  }

  /** A cached entry with this key. */
  ghost predicate HasKey(c: Shard, e: nat, key: Bytes, hash: nat) {
    e in c.handles && c.handles[e].inCache && c.handles[e].key == key && c.handles[e].hash == hash
  }

  ghost predicate IsCached(c: Shard, key: Bytes, hash: nat) {
    exists e :: HasKey(c, e, key, hash)
  }

  /** The new entry is cached, and of the others only one with its key is erased. */
  ghost predicate Replaced(c: Shard, d: Shard, e: nat, previous: Option<nat>) {
    && e in c.handles && IN_USE in c.links.prev
    && match previous
       case None => d == AfterCaching(c, e) && !IsCached(c, c.handles[e].key, c.handles[e].hash)
       case Some(p) => HasKey(c, p, c.handles[e].key, c.handles[e].hash) && Erased(AfterCaching(c, e), d, p)
  }

  lemma NewSparesHeld(c: Shard, key: Bytes, hash: nat, charge: nat)
    requires Sound(c, None)
    ensures HeldSurvive(c, AfterNew(c, key, hash, charge))
  {
    NewIsSound(c, key, hash, charge);
    SoundHeldLives(c);
  }

  lemma FillingSparesHeld(c: Shard, d: Shard, e: nat, previous: Option<nat>, capacity: nat)
    requires Sound(c, None) && Sound(d, None) && if capacity > 0 then Replaced(c, d, e, previous) else d == c
    ensures HeldSurvive(c, d)
  {
    SoundHeldLives(c);
    SoundHeldLives(d);
  }

  class LRUCache {
    const capacity: nat
    const table: HandleTable
    var usage: nat
    var handles: map<nat, Handle>
    var links: Links
    var nextId: nat
    ghost var lru: seq<nat>
    ghost var inUse: seq<nat>
    /** How many references clients hold. */
    ghost var held: map<nat, nat>
    /** The handles passed to their deleters. */
    ghost var deletions: seq<nat>

    constructor (capacity: nat)
      ensures Valid() && fresh(table) && this.capacity == capacity
      ensures lru == [] && inUse == [] && deletions == [] && handles == map[] && table.nodes == {}
    {
      this.capacity := capacity;
      table := new HandleTable();
      usage, handles, nextId := 0, map[], 2;
      links := Links(map[LRU := LRU, IN_USE := IN_USE], map[LRU := LRU, IN_USE := IN_USE]);
      lru, inUse, held, deletions := [], [], map[], [];
    }

    ghost function State(): Shard
      reads this
    {
      Shard(handles, links, usage, nextId, lru, inUse, held, deletions)
    }

    ghost predicate Valid()
      reads this, table
    {
      Sound(State(), None) && table.Valid() && Tabled(handles, table.nodes)
    }

    method RemoveFromList(e: nat)
      requires Linked(links, e)
      modifies this`links
      ensures links == Unlink(old(links), e)
    {
      var l := links;
      l := l.(prev := l.prev[l.next[e] := l.prev[e]]);
      l := l.(next := l.next[links.prev[e] := l.next[e]]);
      links := l;
    }

    method AppendToList(list: nat, e: nat)
      requires list in links.prev
      modifies this`links
      ensures links == LinkLast(old(links), list, e)
    {
      var last := links.prev[list];
      links := links.(next := links.next[e := list], prev := links.prev[e := last]);
      links := links.(next := links.next[last := e]);
      links := links.(prev := links.prev[list := e]);
    }

    method MoveToInUse(e: nat)
      requires Linked(links, e) && IN_USE in Unlink(links, e).prev
      modifies this`links, this`lru, this`inUse
      ensures links == LinkLast(Unlink(old(links), e), IN_USE, e)
      ensures lru == Drop(old(lru), e) && inUse == old(inUse) + [e]
    {
      RemoveFromList(e);
      AppendToList(IN_USE, e);
      lru := Drop(lru, e);
      inUse := inUse + [e];
    }

    /** Adds a reference; an unused entry moves to the list of entries in use. */
    method Ref(e: nat)
      requires Sound(State(), None) && e in handles
      modifies this
      ensures Sound(State(), None)
      ensures State() == AfterRef(old(State()), e)
    {
      RefIsSound(State(), e);
      AddReference(e);
    }

    method AddReference(e: nat)
      requires e in handles && e in held
      requires e in lru <==> handles[e].refs == 1 && handles[e].inCache
      requires e in lru ==> Linked(links, e) && IN_USE in Unlink(links, e).prev
      modifies this
      ensures State() == AfterRef(old(State()), e)
    {
      if handles[e].refs == 1 && handles[e].inCache {
        MoveToInUse(e);
      }
      handles := WithRefs(handles, e, handles[e].refs + 1);
      held := held[e := held[e] + 1];
    }

    method MoveToLru(e: nat)
      requires Linked(links, e) && LRU in Unlink(links, e).prev
      modifies this`links, this`lru, this`inUse
      ensures links == LinkLast(Unlink(old(links), e), LRU, e)
      ensures lru == old(lru) + [e] && inUse == Drop(old(inUse), e)
    {
      RemoveFromList(e);
      AppendToList(LRU, e);
      lru := lru + [e];
      inUse := Drop(inUse, e);
    }

    /**
       Gives up the extra reference; the last one deletes the handle, the last client's makes it the newest
       unused one.
     */
    method Unref(e: nat)
      requires Sound(State(), Some(e)) && e in handles
      modifies this
      ensures Sound(State(), None)
      ensures State() == AfterUnref(old(State()), e)
    {
      UnrefPlace(State(), e);
      UnrefIsSound(State(), e);
      DropReference(e);
    }

    method DropReference(e: nat)
      requires e in handles && handles[e].refs > 0
      requires e in inUse <==> handles[e].inCache && handles[e].refs >= 2
      requires e in inUse ==> Linked(links, e) && LRU in Unlink(links, e).prev
      modifies this
      ensures State() == AfterUnref(old(State()), e)
    {
      var refs := handles[e].refs - 1;
      if refs == 0 {
        // Deallocate.
        deletions := deletions + [e];
        handles := Removed(handles, e);
      } else {
        handles := WithRefs(handles, e, refs);
        if handles[e].inCache && refs == 1 {
          MoveToLru(e);
        }
      }
    }

    /** Finishes removing an entry that is no longer in the table. */
    method FinishErase(e: nat)
      requires Sound(State(), None) && e in handles && handles[e].inCache
      requires table.Valid() && TabledBut(handles, table.nodes, e)
      modifies this
      ensures Valid() && Erased(old(State()), State(), e)
    {
      ghost var before := State();
      LeavingIsSound(before, e);
      Leave(e);
      Unref(e);
      EraseFacts(before, State(), e, table.nodes);
    }

    method Leave(e: nat)
      requires e in handles && Linked(links, e) && usage >= handles[e].charge
      modifies this
      ensures State() == AfterLeaving(old(State()), e)
    {
      RemoveFromList(e);
      lru, inUse := Drop(lru, e), Drop(inUse, e);
      usage := usage - handles[e].charge;
      handles := handles[e := handles[e].(inCache := false)];
    }

    /** Finds a cached entry and adds a reference for the client. */
    method Lookup(key: Bytes, hash: nat) returns (r: Option<nat>)
      requires Valid()
      modifies this
      ensures Valid()
      ensures r.Some? ==> HasKey(old(State()), r.value, key, hash) && Referenced(old(State()), State(), r.value)
      ensures r.None? ==> State() == old(State())
                          && forall x :: x in handles && handles[x].inCache ==>
                                handles[x].key != key || handles[x].hash != hash
    {
      var n := table.Lookup(key, hash);
      if n.None? {
        return None;
      }
      r := Some(n.value.id);
      RefReferences(State(), n.value.id);
      CountKeepsTabled(handles, table.nodes, n.value.id, handles[n.value.id].refs + 1);
      Ref(n.value.id);
    }

    /** A client gives up one of its references. */
    method Release(e: nat)
      requires Valid() && e in handles && held[e] > 0
      modifies this
      ensures Valid() && Released(old(State()), State(), e) && HeldLives(State())
    {
      UnrefReleases(State(), e);
      CountKeepsTabled(handles, table.nodes, e, handles[e].refs - 1);
      held := held[e := held[e] - 1];
      Unref(e);
      SoundHeldLives(State());
    }

    /** Removes the entry with this key and nothing else. */
    method Erase(key: Bytes, hash: nat) returns (ghost found: Option<nat>)
      requires Valid()
      modifies this, table
      ensures Valid() && !IsCached(State(), key, hash)
      ensures found.None? ==> State() == old(State())
      ensures found.Some? ==> HasKey(old(State()), found.value, key, hash) && Erased(old(State()), State(), found.value)
      ensures HeldSurvive(old(State()), State())
    {
      ghost var before, nodes := State(), table.nodes;
      SoundHeldLives(before);
      var n := table.Remove(key, hash);
      found := None;
      if n.Some? {
        RemovedFromTable(handles, nodes, n.value);
        FinishErase(n.value.id);
        found := Some(n.value.id);
        EraseSparesHeld(before, State(), n.value.id);
      }
    }

    /** Whether some entry is referred to by the cache only. */
    predicate HasUnused()
      requires Valid()
      reads this, table
      ensures HasUnused() <==> lru != []
    {
      HeadOfRing(links, LRU, lru);
      links.next[LRU] != LRU
    }

    /** Removes the oldest entry that only the cache refers to. */
    method EvictOldest()
      requires Valid() && lru != []
      modifies this, table
      ensures Valid() && lru == old(lru)[1..] && inUse == old(inUse) && held == old(held) && nextId == old(nextId)
      ensures deletions == old(deletions) + [old(lru)[0]]
      ensures handles == Removed(old(handles), old(lru)[0])
      ensures old(lru)[0] in old(handles) && usage == old(usage) - old(handles)[old(lru)[0]].charge
    {
      HeadOfRing(links, LRU, lru);
      var e := links.next[LRU];
      ghost var nodes := table.nodes;
      assert lru[0] in lru && Node(e, handles[e].key, handles[e].hash) in nodes;
      var n := table.Remove(handles[e].key, handles[e].hash);
      RemovedFromTable(handles, nodes, Node(e, handles[e].key, handles[e].hash));
      DropAbsent(inUse, e);
      FinishErase(e);
    }

    /** The last eviction was needed to come below the capacity. */
    ghost predicate Needed(before: Shard, k: nat)
      reads this
    {
      0 < k <= |before.lru| && before.lru[k - 1] in before.handles ==>
          usage + before.handles[before.lru[k - 1]].charge > capacity
    }

    method EvictNext(ghost before: Shard, ghost k: nat)
      requires Valid() && lru != [] && Evicted(before, State(), k)
      modifies this, table
      ensures Valid() && Evicted(before, State(), k + 1)
      ensures old(usage) > capacity ==> Needed(before, k + 1)
      ensures |lru| < |old(lru)|
    {
      ghost var was := State();
      EvictOldest();
      EvictedNext(before, was, State(), k);
    }

    /** Evicts the oldest unused entries, no more than needed. */
    method EvictOverCapacity() returns (ghost k: nat)
      requires Valid()
      modifies this, table
      ensures Valid() && Evicted(old(State()), State(), k)
      ensures usage <= capacity || lru == []
      ensures Needed(old(State()), k)
    {
      ghost var before: Shard := State();
      EvictedNothing(before);
      k := 0;
      while usage > capacity && HasUnused()
        invariant Valid() && Evicted(before, State(), k) && Needed(before, k)
        decreases |lru|
      {
        EvictNext(before, k);
        k := k + 1;
      }
    }

    /** Drops every entry that no client uses. */
    method Prune()
      requires Valid()
      modifies this, table
      ensures Valid() && lru == [] && Evicted(old(State()), State(), |old(lru)|)
      ensures HeldSurvive(old(State()), State())
    {
      ghost var before: Shard, k: nat := State(), 0;
      EvictedNothing(before);
      while HasUnused()
        invariant Valid() && Evicted(before, State(), k)
        decreases |lru|
      {
        EvictNext(before, k);
        k := k + 1;
      }
      assert k == |before.lru|;
      EvictionSparesHeld(before, State(), k);
    }

    /**
       Makes an entry for the client and caches it in place of one with its key; then evicts the `k` oldest
       unused entries, no more than it takes to come below the capacity.
     */
    method Insert(key: Bytes, hash: nat, charge: nat)
      returns (e: nat, ghost previous: Option<nat>, ghost filled: Shard, ghost k: nat)
      requires Valid()
      modifies this, table
      ensures Valid() && e == old(nextId) && e in handles && held == old(held)[e := 1]
      ensures handles[e].key == key && handles[e].hash == hash && handles[e].charge == charge
      ensures handles[e].inCache <==> capacity > 0
      ensures capacity == 0 ==> filled == AfterNew(old(State()), key, hash, charge)
      ensures capacity > 0 ==> Replaced(AfterNew(old(State()), key, hash, charge), filled, e, previous)
      ensures Evicted(filled, State(), k) && Needed(filled, k)
      ensures usage <= capacity || lru == []
      ensures HeldSurvive(old(State()), State())
    {
      ghost var before := State();
      e := NewHandle(key, hash, charge);
      ghost var made := State();
      NewSparesHeld(before, key, hash, charge);
      previous := None;
      if capacity > 0 {
        previous := Cache(e);
      }
      filled := State();
      FillingSparesHeld(made, filled, e, previous, capacity);
      k := EvictOverCapacity();
      EvictionSparesHeld(filled, State(), k);
      SurviveTwice(before, made, filled);
      SurviveTwice(before, filled, State());
    }

    method NewHandle(key: Bytes, hash: nat, charge: nat) returns (e: nat)
      requires Valid()
      modifies this
      ensures Valid() && e == old(nextId) && State() == AfterNew(old(State()), key, hash, charge)
    {
      e := nextId;
      NewIsSound(State(), key, hash, charge);
      handles := handles[e := Handle(key, hash, charge, false, 1)];
      held := held[e := 1];
      nextId := nextId + 1;
    }

    method Cache(e: nat) returns (ghost replaced: Option<nat>)
      requires Valid() && e in handles && !handles[e].inCache && handles[e].refs == 1 && held[e] == 1
      modifies this, table
      ensures Valid() && held == old(held) && nextId == old(nextId)
      ensures e in handles && handles[e] == old(handles)[e].(inCache := true, refs := 2)
      ensures e !in lru && Replaced(old(State()), State(), e, replaced)
    {
      ghost var nodes, before := table.nodes, handles;
      replaced := None;
      AddToLists(e);
      var previous := table.Insert(Node(e, handles[e].key, handles[e].hash));
      NewInTable(before, handles, nodes, e);
      if previous.Some? {
        ReplacedInTable(before, handles, nodes, e, previous.value);
        FinishErase(previous.value.id);
        replaced := Some(previous.value.id);
      }
    }

    method AddToLists(e: nat)
      requires Sound(State(), None) && e in handles && !handles[e].inCache && handles[e].refs == 1
      modifies this
      ensures Sound(State(), None) && IN_USE in old(links).prev && State() == AfterCaching(old(State()), e)
    {
      CachingIsSound(State(), e);
      var charge := handles[e].charge;
      handles := handles[e := handles[e].(inCache := true, refs := 2)];
      AppendToList(IN_USE, e);
      inUse := inUse + [e];
      usage := usage + charge;
    }
  }

  lemma CountKeepsTabled(handles: map<nat, Handle>, nodes: set<Node>, e: nat, refs: nat)
    requires Tabled(handles, nodes) && e in handles
    ensures Tabled(WithRefs(handles, e, refs), nodes)
  {
  }

  lemma NewInTable(before: map<nat, Handle>, handles: map<nat, Handle>, nodes: set<Node>, e: nat)
    requires Tabled(before, nodes) && e in before && !before[e].inCache
    requires handles == before[e := before[e].(inCache := true, refs := 2)]
    ensures Tabled(handles, nodes + {Node(e, handles[e].key, handles[e].hash)})
  {
  }

  lemma ReplacedInTable(before: map<nat, Handle>, handles: map<nat, Handle>, nodes: set<Node>, e: nat, previous: Node)
    requires Tabled(before, nodes) && OnePerKey(nodes) && e in before && !before[e].inCache && previous in nodes
    requires handles == before[e := before[e].(inCache := true, refs := 2)]
    ensures previous.id != e && previous.id in handles && handles[previous.id].inCache
    ensures TabledBut(handles, nodes - {previous} + {Node(e, handles[e].key, handles[e].hash)}, previous.id)
  {
  }
}
