/**
 What a read means: the newest entry of a user key visible at a snapshot, over a plain set of
 entries.  This is the simple form that the level-by-level reads, the iterators and the
 compactions are measured against.
 */
module Reads {
  import opened InternalKeys

  ghost predicate Visible(e: Entry, user: UserKey, snapshot: nat) {
    e.key.user == user && e.key.sequence <= snapshot
  }

  /** Sequence numbers are handed out once, so a user key and a sequence number name one entry. */
  ghost predicate UniqueSequences(S: set<Entry>) {
    forall e, f :: e in S && f in S && e.key.user == f.key.user && e.key.sequence == f.key.sequence ==> e == f
  }

  ghost predicate IsNewest(S: set<Entry>, user: UserKey, snapshot: nat, e: Entry) {
    && e in S
    && Visible(e, user, snapshot)
    && forall f :: f in S && Visible(f, user, snapshot) ==> f.key.sequence <= e.key.sequence
  }

  /** The newest visible entry, tombstones included. */
  ghost function Lookup(S: set<Entry>, user: UserKey, snapshot: nat): Option<Entry> {
    if exists e :: IsNewest(S, user, snapshot, e) then
      var e :| IsNewest(S, user, snapshot, e);
      Some(e)
    else
      None
  }

  /** The value a reader gets, where a tombstone and an absent key look the same. */
  ghost function Answer(S: set<Entry>, user: UserKey, snapshot: nat): Option<Bytes> {
    match Lookup(S, user, snapshot)
    case Some(e) => if e.key.kind.Value? then Some(e.value) else None
    case None => None
  }

  lemma {:induction false} VisibleHasNewest(S: set<Entry>, user: UserKey, snapshot: nat, e: Entry)
    requires e in S && Visible(e, user, snapshot)
    ensures exists m :: IsNewest(S, user, snapshot, m)
    decreases S
  {
    if m :| m in S && Visible(m, user, snapshot) && m.key.sequence > e.key.sequence {
      VisibleHasNewest(S - {e}, user, snapshot, m);
      var n :| IsNewest(S - {e}, user, snapshot, n);
      assert IsNewest(S, user, snapshot, n);
    } else {
      assert IsNewest(S, user, snapshot, e);
    }
  }

  lemma LookupIs(S: set<Entry>, user: UserKey, snapshot: nat, e: Entry)
    requires UniqueSequences(S)
    requires IsNewest(S, user, snapshot, e)
    ensures Lookup(S, user, snapshot) == Some(e)
  {
  }

  /** Lookup finds something exactly when something is visible. */
  lemma {:induction false} LookupCharacterized(S: set<Entry>, user: UserKey, snapshot: nat)
    ensures Lookup(S, user, snapshot).None? <==> forall e :: e in S ==> !Visible(e, user, snapshot)
    ensures Lookup(S, user, snapshot).Some? ==> IsNewest(S, user, snapshot, Lookup(S, user, snapshot).value)
  {
    if e :| e in S && Visible(e, user, snapshot) {
      VisibleHasNewest(S, user, snapshot, e);
    }
  }

  /** Every entry of A is newer than every entry of B with the same user key. */
  ghost predicate Shadows(A: set<Entry>, B: set<Entry>) {
    forall e, f :: e in A && f in B && e.key.user == f.key.user ==> e.key.sequence > f.key.sequence
  }

  /** A reader that finds a visible entry in the newer source need not open the older one. */
  lemma {:induction false} ShadowedLookup(A: set<Entry>, B: set<Entry>, user: UserKey, snapshot: nat)
    requires UniqueSequences(A + B) && Shadows(A, B)
    ensures Lookup(A, user, snapshot).Some? ==> Lookup(A + B, user, snapshot) == Lookup(A, user, snapshot)
    ensures Lookup(A, user, snapshot).None? ==> Lookup(A + B, user, snapshot) == Lookup(B, user, snapshot)
  {
    LookupCharacterized(A, user, snapshot);
    LookupCharacterized(B, user, snapshot);
    LookupCharacterized(A + B, user, snapshot);
    var a := Lookup(A, user, snapshot);
    if a.Some? {
      assert IsNewest(A + B, user, snapshot, a.value);
    } else {
      var b := Lookup(B, user, snapshot);
      if b.Some? {
        assert IsNewest(A + B, user, snapshot, b.value);
      }
    }
  }

  /** The set of entries of a sequence. */
  ghost function EntrySet(es: seq<Entry>): set<Entry> {
    set e | e in es
  }
}
