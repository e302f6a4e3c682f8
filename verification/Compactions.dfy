/**
 The compaction loop: which entries of the merged inputs survive, and what that does to reads.
 */
module Compactions {
  import opened InternalKeys
  import opened Reads
  import opened Files
  import opened Versions

  /** No file two or more levels below the compaction can hold the user key. */
  ghost predicate IsBaseLevel(v: Version, level: nat, user: UserKey)
    requires Versions.Valid(v)
  {
    forall l, f :: level + 2 <= l < NUM_LEVELS && f in v.files[l] ==> !RangeContains(f, user)
  }

  /** Rule (A): a newer entry of the user key precedes, and no snapshot needs anything older. */
  predicate Hidden(m: seq<Entry>, i: nat, smallestSnapshot: nat)
    requires i < |m|
  {
    i > 0 && m[i - 1].key.user == m[i].key.user && m[i - 1].key.sequence <= smallestSnapshot
  }

  ghost predicate ObsoleteTombstone(v: Version, level: nat, e: Entry, smallestSnapshot: nat)
    requires Versions.Valid(v)
  {
    e.key.kind.Deletion? && e.key.sequence <= smallestSnapshot && IsBaseLevel(v, level, e.key.user)
  }

  /** The first `n` merged entries without the dropped ones. */
  ghost function Kept(v: Version, level: nat, m: seq<Entry>, n: nat, smallestSnapshot: nat): seq<Entry>
    requires Versions.Valid(v) && n <= |m|
  {
    if n == 0 then []
    else if Hidden(m, n - 1, smallestSnapshot) || ObsoleteTombstone(v, level, m[n - 1], smallestSnapshot) then
      Kept(v, level, m, n - 1, smallestSnapshot)
    else
      Kept(v, level, m, n - 1, smallestSnapshot) + [m[n - 1]]
  }

  /** What may stay of a set of inputs: what some snapshot still tells apart, and the newest entry below all of them. */
  ghost predicate Survives(v: Version, level: nat, inputs: set<Entry>, smallestSnapshot: nat, e: Entry)
    requires Versions.Valid(v)
  {
    && e in inputs
    && (e.key.sequence <= smallestSnapshot ==>
          && IsNewest(inputs, e.key.user, smallestSnapshot, e)
          && !ObsoleteTombstone(v, level, e, smallestSnapshot))
  }

  /** An entry is hidden exactly when a newer entry of its user key is at or below the smallest snapshot. */
  lemma HiddenExactly(m: seq<Entry>, i: nat, smallestSnapshot: nat)
    requires Sorted(m) && UniqueSequences(EntrySet(m)) && i < |m|
    ensures Hidden(m, i, smallestSnapshot) <==>
              exists j :: 0 <= j < |m| && m[j].key.user == m[i].key.user &&
                          m[i].key.sequence < m[j].key.sequence <= smallestSnapshot
  {
    if Hidden(m, i, smallestSnapshot) {
      assert Less(m[i - 1].key, m[i].key);
      assert m[i - 1] in EntrySet(m) && m[i] in EntrySet(m);
    }
    if j :| 0 <= j < |m| && m[j].key.user == m[i].key.user &&
            m[i].key.sequence < m[j].key.sequence <= smallestSnapshot {
      assert Less(m[i - 1].key, m[i].key);
      assert j == i - 1 || Less(m[j].key, m[i - 1].key);
    }
  }

  /** The scan with its one-entry memory keeps exactly the surviving set, in order. */
  lemma {:induction false} KeptExactly(v: Version, level: nat, m: seq<Entry>, n: nat, smallestSnapshot: nat)
    requires Versions.Valid(v) && Sorted(m) && UniqueSequences(EntrySet(m)) && n <= |m|
    ensures forall e :: e in Kept(v, level, m, n, smallestSnapshot) <==>
                          e in m[..n] && Survives(v, level, EntrySet(m), smallestSnapshot, e)
    ensures Sorted(Kept(v, level, m, n, smallestSnapshot))
  {
    if n > 0 {
      KeptExactly(v, level, m, n - 1, smallestSnapshot);
      var e := m[n - 1];
      assert m[..n] == m[..n - 1] + [e];
      SurvivesExactly(v, level, m, n - 1, smallestSnapshot);
      var before := Kept(v, level, m, n - 1, smallestSnapshot);
      forall x | x in before ensures Less(x.key, e.key) {
        var j :| 0 <= j < n - 1 && m[..n - 1][j] == x;
        assert m[j] == x;
      }
      forall i, j | 0 <= i < j < |before + [e]| ensures Less((before + [e])[i].key, (before + [e])[j].key) {
        assert before[i] in before;
      }
    }
  }

  lemma SurvivesExactly(v: Version, level: nat, m: seq<Entry>, i: nat, smallestSnapshot: nat)
    requires Versions.Valid(v) && Sorted(m) && UniqueSequences(EntrySet(m)) && i < |m|
    ensures Survives(v, level, EntrySet(m), smallestSnapshot, m[i]) <==>
              !Hidden(m, i, smallestSnapshot) && !ObsoleteTombstone(v, level, m[i], smallestSnapshot)
  {
    HiddenExactly(m, i, smallestSnapshot);
    var e := m[i];
    if e.key.sequence <= smallestSnapshot && !IsNewest(EntrySet(m), e.key.user, smallestSnapshot, e) {
      var f :| f in EntrySet(m) && Visible(f, e.key.user, smallestSnapshot) && f.key.sequence > e.key.sequence;
      var j :| 0 <= j < |m| && m[j] == f;
    }
  }

  /**
   The tombstone that hides the key at the smallest snapshot is an input and would be dropped, while
   a value stays behind outside of the inputs.
   */
  ghost predicate Resurrected(v: Version, level: nat, rest: set<Entry>, inputs: set<Entry>, smallestSnapshot: nat,
                              user: UserKey)
    requires Versions.Valid(v)
  {
    var top := Lookup(rest + inputs, user, smallestSnapshot);
    && top.Some?
    && top.value in inputs
    && ObsoleteTombstone(v, level, top.value, smallestSnapshot)
    && Answer(rest, user, smallestSnapshot).Some?
  }

  ghost predicate ReadsUnchanged(before: set<Entry>, after: set<Entry>, smallestSnapshot: nat) {
    forall user, snapshot :: snapshot >= smallestSnapshot ==>
        Answer(after, user, snapshot) == Answer(before, user, snapshot)
  }

  /** The surviving set of inputs. */
  ghost function Survivors(v: Version, level: nat, inputs: set<Entry>, smallestSnapshot: nat): set<Entry>
    requires Versions.Valid(v)
  {
    set e | e in inputs && Survives(v, level, inputs, smallestSnapshot, e)
  }

  /** The drop rule preserves every live snapshot's reads if and only if no key is resurrected. */
  lemma {:induction false} DropPreservesReadsExactly(v: Version, level: nat, rest: set<Entry>, inputs: set<Entry>,
                                                     smallestSnapshot: nat)
    requires Versions.Valid(v)
    requires UniqueSequences(rest + inputs)
    ensures ReadsUnchanged(rest + inputs, rest + Survivors(v, level, inputs, smallestSnapshot), smallestSnapshot) <==>
              forall user :: !Resurrected(v, level, rest, inputs, smallestSnapshot, user)
  {
    forall user | Resurrected(v, level, rest, inputs, smallestSnapshot, user)
      ensures Answer(rest + Survivors(v, level, inputs, smallestSnapshot), user, smallestSnapshot) !=
              Answer(rest + inputs, user, smallestSnapshot)
    {
      ResurrectionShows(v, level, rest, inputs, smallestSnapshot, user);
    }
    if forall user :: !Resurrected(v, level, rest, inputs, smallestSnapshot, user) {
      forall user, snapshot | snapshot >= smallestSnapshot
        ensures Answer(rest + Survivors(v, level, inputs, smallestSnapshot), user, snapshot) ==
                Answer(rest + inputs, user, snapshot)
      {
        DropPreservesOneRead(v, level, rest, inputs, smallestSnapshot, user, snapshot);
      }
    }
  }

  lemma ResurrectionShows(v: Version, level: nat, rest: set<Entry>, inputs: set<Entry>, smallestSnapshot: nat,
                          user: UserKey)
    requires Versions.Valid(v)
    requires UniqueSequences(rest + inputs)
    requires Resurrected(v, level, rest, inputs, smallestSnapshot, user)
    ensures Answer(rest + inputs, user, smallestSnapshot).None?
    ensures Answer(rest + Survivors(v, level, inputs, smallestSnapshot), user, smallestSnapshot).Some?
  {
    var after := rest + Survivors(v, level, inputs, smallestSnapshot);
    LookupCharacterized(rest + inputs, user, smallestSnapshot);
    LookupCharacterized(rest, user, smallestSnapshot);
    var top := Lookup(rest + inputs, user, smallestSnapshot).value;
    var left := Lookup(rest, user, smallestSnapshot).value;
    assert IsNewest(inputs, user, smallestSnapshot, top);
    SurvivorsBelow(v, level, inputs, smallestSnapshot, user, top);
    assert IsNewest(after, user, smallestSnapshot, left);
  }

  /** Below the smallest snapshot a user key keeps at most its newest input entry. */
  lemma SurvivorsBelow(v: Version, level: nat, inputs: set<Entry>, smallestSnapshot: nat, user: UserKey, top: Entry)
    requires Versions.Valid(v) && UniqueSequences(inputs)
    requires IsNewest(inputs, user, smallestSnapshot, top)
    ensures forall e :: e in Survivors(v, level, inputs, smallestSnapshot) && Visible(e, user, smallestSnapshot) ==>
                          e == top && !ObsoleteTombstone(v, level, top, smallestSnapshot)
  {
  }

  lemma DropPreservesOneRead(v: Version, level: nat, rest: set<Entry>, inputs: set<Entry>, smallestSnapshot: nat,
                             user: UserKey, snapshot: nat)
    requires Versions.Valid(v)
    requires UniqueSequences(rest + inputs)
    requires snapshot >= smallestSnapshot
    requires !Resurrected(v, level, rest, inputs, smallestSnapshot, user)
    ensures Answer(rest + Survivors(v, level, inputs, smallestSnapshot), user, snapshot) ==
            Answer(rest + inputs, user, snapshot)
  {
    var before := rest + inputs;
    var survivors := Survivors(v, level, inputs, smallestSnapshot);
    var after := rest + survivors;
    LookupCharacterized(before, user, snapshot);
    LookupCharacterized(after, user, snapshot);
    var top := Lookup(before, user, snapshot);
    if top.Some? && top.value in after {
      assert IsNewest(after, user, snapshot, top.value);
    } else if top.Some? {
      // The newest visible entry was dropped: it is the tombstone below all snapshots.
      var e := top.value;
      assert IsNewest(inputs, user, smallestSnapshot, e);
      assert IsNewest(before, user, smallestSnapshot, e);
      LookupIs(before, user, smallestSnapshot, e);
      LookupCharacterized(rest, user, smallestSnapshot);
      var n := Lookup(after, user, snapshot);
      if n.Some? {
        assert n.value.key.sequence <= e.key.sequence;
        SurvivorsBelow(v, level, inputs, smallestSnapshot, user, e);
        assert n.value in rest;
        assert IsNewest(rest, user, smallestSnapshot, n.value);
      }
    }
  }
}
