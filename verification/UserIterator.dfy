/**
 The iterator a client sees: over entries of all versions of all keys it moves like a cursor over the
 ascending list of user keys that are live at its snapshot, in both directions and through every switch.
 */
module UserIterator {
  import opened InternalKeys
  import opened Reads
  import opened Cursors

  predicate Seen(flat: seq<Entry>, snapshot: nat, p: nat)
    requires p < |flat|
  {
    flat[p].key.sequence <= snapshot
  }

  /** The newest entry of its user key that the snapshot sees. */
  ghost predicate FirstSeen(flat: seq<Entry>, snapshot: nat, p: nat)
    requires p < |flat|
  {
    Seen(flat, snapshot, p) && forall q :: 0 <= q < p && flat[q].key.user == flat[p].key.user ==>
        !Seen(flat, snapshot, q)
  }

  /** A position that a client stops at: the newest seen entry of its user key, and not a tombstone. */
  ghost predicate Live(flat: seq<Entry>, snapshot: nat, p: nat)
    requires p < |flat|
  {
    FirstSeen(flat, snapshot, p) && flat[p].key.kind.Value?
  }

  /** The live positions ascend strictly by user key. */
  lemma {:induction false} LiveKeysAscend(flat: seq<Entry>, snapshot: nat, p: nat, q: nat)
    requires Sorted(flat) && p < q < |flat| && Live(flat, snapshot, p) && Live(flat, snapshot, q)
    ensures flat[p].key.user < flat[q].key.user
  {
    assert Less(flat[p].key, flat[q].key);
  }

  /** A user key has a live position exactly when a read at the snapshot finds a value, and there it is. */
  lemma {:induction false} LiveIsAnswer(flat: seq<Entry>, snapshot: nat, user: UserKey)
    requires Sorted(flat) && UniqueSequences(EntrySet(flat))
    ensures Answer(EntrySet(flat), user, snapshot).Some? <==>
              exists p :: 0 <= p < |flat| && flat[p].key.user == user && Live(flat, snapshot, p)
    ensures forall p :: 0 <= p < |flat| && flat[p].key.user == user && Live(flat, snapshot, p) ==>
                          Answer(EntrySet(flat), user, snapshot) == Some(flat[p].value)
  {
    var S := EntrySet(flat);
    LookupCharacterized(S, user, snapshot);
    forall p | 0 <= p < |flat| && flat[p].key.user == user && FirstSeen(flat, snapshot, p)
      ensures Lookup(S, user, snapshot) == Some(flat[p])
    {
      forall e | e in S && Visible(e, user, snapshot) ensures e.key.sequence <= flat[p].key.sequence {
        var q :| 0 <= q < |flat| && flat[q] == e;
        assert q >= p;
        assert q == p || Less(flat[p].key, flat[q].key);
      }
      assert IsNewest(S, user, snapshot, flat[p]);
    }
    var top := Lookup(S, user, snapshot);
    if top.Some? {
      var p :| 0 <= p < |flat| && flat[p] == top.value;
      forall q | 0 <= q < p && flat[q].key.user == user ensures !Seen(flat, snapshot, q) {
        assert Less(flat[q].key, flat[p].key);
        assert flat[q] in S && flat[p] in S;
      }
      assert FirstSeen(flat, snapshot, p);
    }
  }

  /** The first live position at or after `from`; the length if there is none. */
  ghost predicate IsNextLive(flat: seq<Entry>, snapshot: nat, from: nat, p: nat) {
    && p <= |flat|
    && (p < |flat| ==> p >= from && Live(flat, snapshot, p))
    && forall q :: from <= q < p && q < |flat| ==> !Live(flat, snapshot, q)
  }

  /** The last live position before `to`; the length if there is none. */
  ghost predicate IsPrevLive(flat: seq<Entry>, snapshot: nat, to: nat, p: nat) {
    && p <= |flat|
    && (p < |flat| ==> p < to && Live(flat, snapshot, p))
    && forall q :: 0 <= q < to && q < |flat| && (p < |flat| ==> q > p) ==> !Live(flat, snapshot, q)
  }

  datatype Direction = Forward | Reverse

  class DBIter {
    const iter: FlatIterator
    const sequence: nat
    /** The current key when moving backwards; also what a forward scan skips. */
    var savedKey: Option<UserKey>
    /** The current value when moving backwards. */
    var savedValue: Bytes
    var direction: Direction
    var valid: bool
    /** The live position this iterator stands at. */
    ghost var position: nat

    constructor (iter: FlatIterator, sequence: nat)
      requires iter.WellFormed()
      ensures this.iter == iter && this.sequence == sequence
      ensures Consistent() && !valid
    {
      this.iter := iter;
      this.sequence := sequence;
      savedKey, savedValue := None, [];
      direction, valid := Forward, false;
      position := |iter.flat|;
    }

    /** Where the internal iterator stands, relative to the position that the client sees. */
    ghost predicate Consistent()
      reads this, iter
    {
      && iter.WellFormed()
      && valid == (position < |iter.flat|)
      && position <= |iter.flat|
      && (valid ==> Live(iter.flat, sequence, position))
      && (valid && direction == Forward ==> iter.index == position)
      && (valid && direction == Reverse ==>
            && savedKey == Some(iter.flat[position].key.user)
            && savedValue == iter.flat[position].value
            && JustBefore(iter.flat, sequence, iter.index, position))
    }

    /** Moving backwards: before the entries of the key, with nothing seen in between. */
    static ghost predicate JustBefore(flat: seq<Entry>, snapshot: nat, index: nat, position: nat)
      requires position < |flat| && index <= |flat|
    {
      var user := flat[position].key.user;
      && (index < |flat| ==> flat[index].key.user < user)
      && forall q :: 0 <= q < |flat| && (index < |flat| ==> q > index) && flat[q].key.user < user ==>
            !Seen(flat, snapshot, q)
    }

    function CurrentKey(): UserKey
      requires Consistent() && valid
      reads this, iter
      ensures CurrentKey() == iter.flat[position].key.user
    {
      if direction == Forward then iter.Current().key.user else savedKey.value
    }

    function CurrentValue(): Bytes
      requires Consistent() && valid
      reads this, iter
      ensures CurrentValue() == iter.flat[position].value
    {
      if direction == Forward then iter.Current().value else savedValue
    }

    /**
     A forward scan that skips `skip` hides exactly what it should: positions before `from`, and entries
     whose user key has a seen entry before both the scan and `from`.
     */
    static ghost predicate SkipsRight(flat: seq<Entry>, snapshot: nat, index: nat, from: nat, skipping: bool,
                                      skip: Option<UserKey>) {
      && (skipping ==> skip.Some?)
      && forall p :: index <= p < |flat| && Seen(flat, snapshot, p) ==>
                       ((skipping && flat[p].key.user <= skip.value) <==> HasSeenBefore(flat, snapshot, index, from, p))
    }

    static ghost predicate HasSeenBefore(flat: seq<Entry>, snapshot: nat, index: nat, from: nat, p: nat)
      requires p < |flat|
    {
      || p < from
      || exists q :: && 0 <= q < |flat| && (q < index || q < from)
                     && Seen(flat, snapshot, q) && flat[q].key.user == flat[p].key.user
    }

    /** All that is seen between the scan and `from` belongs to one user key. */
    static ghost predicate OneUserBefore(flat: seq<Entry>, snapshot: nat, index: nat, from: nat) {
      forall p, q :: index <= p < q < from && q < |flat| && Seen(flat, snapshot, p) && Seen(flat, snapshot, q) ==>
                       flat[p].key.user == flat[q].key.user
    }

    /** The state of a forward scan at `index` that looks for the first live position at or after `from`. */
    static ghost predicate ScanningForward(flat: seq<Entry>, snapshot: nat, index: nat, from: nat, skipping: bool,
                                           skip: Option<UserKey>) {
      && from <= |flat|
      && SkipsRight(flat, snapshot, index, from, skipping, skip)
      && OneUserBefore(flat, snapshot, index, from)
      && forall q :: from <= q < index && q < |flat| ==> !Live(flat, snapshot, q)
    }

    /** Scans forward to the first acceptable entry at or after `from`. */
    method FindNextUserEntry(skipping0: bool, skip0: Option<UserKey>, ghost from: nat)
      requires iter.WellFormed() && iter.Valid() && direction == Forward
      requires ScanningForward(iter.flat, sequence, iter.index, from, skipping0, skip0)
      modifies this, iter
      ensures Consistent() && direction == Forward
      ensures IsNextLive(iter.flat, sequence, from, position)
    {
      var skipping, skip := skipping0, skip0;
      while true
        invariant iter.WellFormed() && iter.Valid() && direction == Forward
        invariant ScanningForward(iter.flat, sequence, iter.index, from, skipping, skip)
        decreases |iter.flat| - iter.index
      {
        var e := iter.Current();
        ScanStep(iter.flat, sequence, iter.index, from, skipping, skip);
        if e.key.sequence <= sequence {
          match e.key.kind {
            case Deletion =>
              // All upcoming entries for this key are hidden by this deletion.
              skip := Some(e.key.user);
              skipping := true;
            case Value =>
              if skipping && e.key.user <= skip.value {
                // Entry hidden.
              } else {
                valid := true;
                savedKey := None;
                position := iter.index;
                return;
              }
          }
        }
        iter.Next();
        if !iter.Valid() {
          break;
        }
      }
      savedKey := None;
      valid := false;
      position := |iter.flat|;
    }

    /** What the scan does with one entry is right. */
    static lemma ScanStep(flat: seq<Entry>, snapshot: nat, i: nat, from: nat, skipping: bool, skip: Option<UserKey>)
      requires Sorted(flat) && i < |flat|
      requires ScanningForward(flat, snapshot, i, from, skipping, skip)
      ensures var e := flat[i];
              if !Seen(flat, snapshot, i) || (e.key.kind.Value? && skipping && e.key.user <= skip.value) then
                ScanningForward(flat, snapshot, i + 1, from, skipping, skip)
              else if e.key.kind.Deletion? then
                ScanningForward(flat, snapshot, i + 1, from, true, Some(e.key.user))
              else
                i >= from && Live(flat, snapshot, i)
    {
      var e := flat[i];
      if !Seen(flat, snapshot, i) {
        UnseenSkips(flat, snapshot, i, from, skipping, skip);
      } else if e.key.kind.Deletion? {
        DeletionSkips(flat, snapshot, i, from, skipping, skip);
      } else if skipping && e.key.user <= skip.value {
        HiddenSkips(flat, snapshot, i, from, skipping, skip);
      } else {
        assert !HasSeenBefore(flat, snapshot, i, from, i);
      }
    }

    static lemma UnseenSkips(flat: seq<Entry>, snapshot: nat, i: nat, from: nat, skipping: bool, skip: Option<UserKey>)
      requires Sorted(flat) && i < |flat| && !Seen(flat, snapshot, i)
      requires SkipsRight(flat, snapshot, i, from, skipping, skip)
      ensures SkipsRight(flat, snapshot, i + 1, from, skipping, skip)
    {
      forall p | i + 1 <= p < |flat| && Seen(flat, snapshot, p)
        ensures HasSeenBefore(flat, snapshot, i + 1, from, p) <==> HasSeenBefore(flat, snapshot, i, from, p)
      {
      }
    }

    static lemma HiddenSkips(flat: seq<Entry>, snapshot: nat, i: nat, from: nat, skipping: bool, skip: Option<UserKey>)
      requires Sorted(flat) && i < |flat| && Seen(flat, snapshot, i)
      requires SkipsRight(flat, snapshot, i, from, skipping, skip)
      requires skipping && flat[i].key.user <= skip.value
      ensures SkipsRight(flat, snapshot, i + 1, from, skipping, skip)
      ensures i >= from ==> !Live(flat, snapshot, i)
    {
      assert HasSeenBefore(flat, snapshot, i, from, i);
      forall p | i + 1 <= p < |flat| && Seen(flat, snapshot, p)
        ensures HasSeenBefore(flat, snapshot, i + 1, from, p) <==> flat[p].key.user <= skip.value
      {
        assert HasSeenBefore(flat, snapshot, i, from, p) <==> flat[p].key.user <= skip.value;
      }
    }

    static lemma DeletionSkips(flat: seq<Entry>, snapshot: nat, i: nat, from: nat, skipping: bool,
                               skip: Option<UserKey>)
      requires Sorted(flat) && i < |flat| && Seen(flat, snapshot, i)
      requires SkipsRight(flat, snapshot, i, from, skipping, skip)
      requires OneUserBefore(flat, snapshot, i, from)
      ensures SkipsRight(flat, snapshot, i + 1, from, true, Some(flat[i].key.user))
    {
      forall p | i + 1 <= p < |flat| && Seen(flat, snapshot, p)
        ensures HasSeenBefore(flat, snapshot, i + 1, from, p) <==> flat[p].key.user <= flat[i].key.user
      {
        assert Less(flat[i].key, flat[p].key);
      }
    }

    /** The first live key at or after the target. */
    method Seek(target: UserKey)
      requires iter.WellFormed()
      modifies this, iter
      ensures Consistent() && direction == Forward
      ensures IsNextLive(iter.flat, sequence, SeekPosition(iter.flat, LookupKey(target, sequence)), position)
    {
      direction := Forward;
      savedValue := [];
      savedKey := None;
      iter.Seek(LookupKey(target, sequence));
      if iter.Valid() {
        SeekSkips(iter.flat, sequence, target);
        FindNextUserEntry(false, None, iter.index);
      } else {
        valid := false;
        position := |iter.flat|;
      }
    }

    static lemma SeekSkips(flat: seq<Entry>, snapshot: nat, target: UserKey)
      requires Sorted(flat)
      ensures var i := SeekPosition(flat, LookupKey(target, snapshot));
              SkipsRight(flat, snapshot, i, i, false, None)
    {
      var i := SeekPosition(flat, LookupKey(target, snapshot));
      forall p | i <= p < |flat| ensures !HasSeenBefore(flat, snapshot, i, i, p) {
        SeekPositionIsUnique(flat, LookupKey(target, snapshot), i);
        LookupKeyDividesVersions(flat[p].key, target, snapshot);
      }
    }

    method SeekToFirst()
      requires iter.WellFormed()
      modifies this, iter
      ensures Consistent() && direction == Forward
      ensures IsNextLive(iter.flat, sequence, 0, position)
    {
      direction := Forward;
      savedValue := [];
      iter.SeekToFirst();
      if iter.Valid() {
        FindNextUserEntry(false, None, 0);
      } else {
        valid := false;
        position := |iter.flat|;
      }
    }

    /** The next live key, whichever way the iterator was moving. */
    method Next()
      requires Consistent() && valid
      modifies this, iter
      ensures Consistent() && direction == Forward
      ensures IsNextLive(iter.flat, sequence, old(position) + 1, position)
    {
      ghost var current := position;
      if direction == Reverse {
        direction := Forward;
        // The internal iterator stands just before the entries of the current key.
        if !iter.Valid() {
          iter.SeekToFirst();
        } else {
          iter.Next();
        }
        if !iter.Valid() {
          // The current key still lies ahead, so this never happens.
          assert false;
        }
      } else {
        savedKey := Some(iter.Current().key.user);
      }
      NextSkips(iter.flat, sequence, iter.index, current);
      FindNextUserEntry(true, savedKey, current + 1);
    }

    /** Starting no later than the current position, with nothing of earlier keys seen. */
    static lemma NextSkips(flat: seq<Entry>, snapshot: nat, index: nat, current: nat)
      requires Sorted(flat) && current < |flat| && index <= current && Live(flat, snapshot, current)
      requires forall q :: index <= q < current && flat[q].key.user < flat[current].key.user ==>
              !Seen(flat, snapshot, q)
      ensures SkipsRight(flat, snapshot, index, current + 1, true, Some(flat[current].key.user))
      ensures OneUserBefore(flat, snapshot, index, current + 1)
    {
      forall p | index <= p < |flat| && Seen(flat, snapshot, p)
        ensures HasSeenBefore(flat, snapshot, index, current + 1, p) <==> flat[p].key.user <= flat[current].key.user
        ensures p <= current ==> flat[p].key.user == flat[current].key.user
      {
        assert p == current || Less(flat[p].key, flat[current].key) || Less(flat[current].key, flat[p].key);
      }
    }

    method SeekToLast()
      requires iter.WellFormed()
      modifies this, iter
      ensures Consistent()
      ensures IsPrevLive(iter.flat, sequence, |iter.flat|, position)
    {
      direction := Reverse;
      savedValue := [];
      iter.SeekToLast();
      FindPrevUserEntry(|iter.flat|);
    }

    /** The previous live key, whichever way the iterator was moving. */
    method Prev()
      requires Consistent() && valid
      modifies this, iter
      ensures Consistent()
      ensures IsPrevLive(iter.flat, sequence, old(position), position)
    {
      ghost var current := position;
      ghost var flat := iter.flat;
      if direction == Forward {
        // Scan backwards until the key changes.
        savedKey := Some(iter.Current().key.user);
        while true
          invariant iter.WellFormed() && iter.Valid() && iter.index <= current
          invariant flat[iter.index].key.user == flat[current].key.user
          invariant savedKey == Some(flat[current].key.user) && direction == Forward
          decreases iter.index
        {
          iter.Prev();
          if !iter.Valid() {
            valid := false;
            savedKey := None;
            savedValue := [];
            position := |flat|;
            FirstOfItsKey(flat, sequence, 0, current);
            return;
          }
          if iter.Current().key.user < savedKey.value {
            break;
          }
          assert Less(flat[iter.index].key, flat[current].key);
        }
        FirstOfItsKey(flat, sequence, iter.index + 1, current);
        direction := Reverse;
      } else {
        NothingSeenBetween(flat, sequence, iter.index, current);
      }
      FindPrevUserEntry(current);
    }

    /** Between the start of a key's entries and its live position nothing is seen. */
    static lemma FirstOfItsKey(flat: seq<Entry>, snapshot: nat, start: nat, current: nat)
      requires Sorted(flat) && start <= current < |flat| && Live(flat, snapshot, current)
      requires flat[start].key.user == flat[current].key.user
      ensures forall q :: start <= q < current ==> !Seen(flat, snapshot, q)
    {
      forall q | start <= q < current ensures flat[q].key.user == flat[current].key.user {
        assert Less(flat[q].key, flat[current].key);
        assert q == start || Less(flat[start].key, flat[q].key);
      }
    }

    static lemma NothingSeenBetween(flat: seq<Entry>, snapshot: nat, index: nat, current: nat)
      requires Sorted(flat) && current < |flat| && index <= |flat| && Live(flat, snapshot, current)
      requires JustBefore(flat, snapshot, index, current)
      ensures forall q :: 0 <= q < current && (index < |flat| ==> q > index) ==> !Seen(flat, snapshot, q)
      ensures index < |flat| ==> index < current
    {
      forall q | 0 <= q < |flat|
        ensures q < current ==> flat[q].key.user <= flat[current].key.user
        ensures q > current ==> flat[q].key.user >= flat[current].key.user
      {
        assert q == current || Less(flat[q].key, flat[current].key) || Less(flat[current].key, flat[q].key);
      }
    }

    /**
     Scans backwards from where the internal iterator stands.  Everything after that and before `to`
     is known not to be seen.
     */
    method FindPrevUserEntry(ghost to: nat)
      requires iter.WellFormed() && direction == Reverse
      requires to <= |iter.flat| && (iter.Valid() ==> iter.index < to)
      requires forall q :: 0 <= q < to && (iter.Valid() ==> q > iter.index) ==> !Seen(iter.flat, sequence, q)
      modifies this, iter
      ensures Consistent()
      ensures IsPrevLive(iter.flat, sequence, to, position)
    {
      ghost var flat := iter.flat;
      var valueType := ValueType.Deletion;
      ghost var last: nat, reached: nat := |flat|, 0;
      if iter.Valid() {
        valueType, last, reached := ScanBack(to);
      }
      if valueType == Deletion {
        valid := false;
        savedKey := None;
        savedValue := [];
        direction := Forward;
        position := |flat|;
      } else {
        valid := true;
        position := last;
        LastIsLive(flat, sequence, iter.index, reached, to, last, valueType, savedKey, savedValue);
      }
    }

    /** Moves back to before the entries of the key that is saved, or to the start. */
    method ScanBack(ghost to: nat) returns (valueType: ValueType, ghost last: nat, ghost reached: nat)
      requires iter.WellFormed() && direction == Reverse
      requires iter.Valid() && iter.index < to <= |iter.flat|
      requires forall q :: iter.index < q < to ==> !Seen(iter.flat, sequence, q)
      modifies this`savedKey, this`savedValue, iter
      ensures iter.WellFormed()
      ensures ScannedBack(iter.flat, sequence, reached, to, last, valueType, savedKey, savedValue)
      ensures reached == if iter.Valid() then iter.index + 1 else 0
      ensures iter.Valid() ==> valueType == Value && iter.Current().key.user < savedKey.value
    {
      ghost var flat := iter.flat;
      valueType := ValueType.Deletion;
      last, reached := |flat|, 0;
      while true
        invariant iter.WellFormed() && iter.Valid() && iter.index < to
        invariant ScannedBack(flat, sequence, iter.index + 1, to, last, valueType, savedKey, savedValue)
        decreases iter.index
      {
        var e := iter.Current();
        ghost var i := iter.index;
        if e.key.sequence <= sequence {
          if valueType != Deletion && e.key.user < savedKey.value {
            // A seen entry of an earlier key: what was saved is the newest of its key.
            reached := i + 1;
            return;
          }
          SeenBackward(flat, sequence, i, to, last, valueType, savedKey, savedValue);
          last := i;
          valueType := e.key.kind;
          Save(e);
        }
        iter.Prev();
        if !iter.Valid() {
          return;
        }
      }
    }

    /**
     After scanning back to position `i`: the lowest seen position is `last`, saved unless it is a tombstone,
     and nothing above it is live.
     */
    static ghost predicate ScannedBack(flat: seq<Entry>, snapshot: nat, i: nat, to: nat, last: nat,
                                       valueType: ValueType, savedKey: Option<UserKey>, savedValue: Bytes)
    {
      && i <= to <= |flat| && last <= |flat|
      && (last < |flat| ==>
            && i <= last < to && Seen(flat, snapshot, last) && flat[last].key.kind == valueType
            && (valueType == Value ==> savedKey == Some(flat[last].key.user) && savedValue == flat[last].value))
      && (last == |flat| ==> valueType == ValueType.Deletion)
      && (forall q :: i <= q < to && (last < |flat| ==> q < last) ==> !Seen(flat, snapshot, q))
      && (forall q :: i <= q < to && (last < |flat| ==> q > last) ==> !Live(flat, snapshot, q))
    }

    /** A tombstone forgets what was saved. */
    method Save(e: Entry)
      modifies this`savedKey, this`savedValue
      ensures e.key.kind == Deletion ==> savedKey == None && savedValue == []
      ensures e.key.kind == Value ==> savedKey == Some(e.key.user) && savedValue == e.value
    {
      if e.key.kind == Deletion {
        savedKey := None;
        savedValue := [];
      } else {
        savedKey := Some(e.key.user);
        savedValue := e.value;
      }
    }

    static lemma SeenBackward(flat: seq<Entry>, snapshot: nat, i: nat, to: nat, last: nat,
                              valueType: ValueType, savedKey: Option<UserKey>, savedValue: Bytes)
      requires Sorted(flat) && i < |flat| && Seen(flat, snapshot, i)
      requires ScannedBack(flat, snapshot, i + 1, to, last, valueType, savedKey, savedValue)
      requires valueType != ValueType.Deletion ==> flat[i].key.user >= savedKey.value
      ensures forall q :: i < q < to ==> !Live(flat, snapshot, q)
    {
      if last < |flat| {
        assert Less(flat[i].key, flat[last].key);
      }
    }

    /** The saved entry is live, and the internal iterator stands just before the entries of its key. */
    static lemma LastIsLive(flat: seq<Entry>, snapshot: nat, index: nat, reached: nat, to: nat, last: nat,
                            valueType: ValueType, savedKey: Option<UserKey>, savedValue: Bytes)
      requires Sorted(flat) && index <= |flat|
      requires ScannedBack(flat, snapshot, reached, to, last, valueType, savedKey, savedValue) && valueType == Value
      requires reached == if index < |flat| then index + 1 else 0
      requires index < |flat| ==> flat[index].key.user < savedKey.value
      ensures last < to && Live(flat, snapshot, last) && JustBefore(flat, snapshot, index, last)
      ensures IsPrevLive(flat, snapshot, to, last)
    {
      forall q | 0 <= q < last && flat[q].key.user == flat[last].key.user ensures q >= reached {
        assert q == index || index >= |flat| || q > index || Less(flat[q].key, flat[index].key);
      }
      forall q | last <= q < |flat| ensures flat[q].key.user >= flat[last].key.user {
        assert q == last || Less(flat[last].key, flat[q].key);
      }
    }
  }
}
