/**
 A version: the files of every level, and the point read that searches level by level.
 */
module Versions {
  import opened InternalKeys
  import opened Reads
  import opened Files
  import Cursors

  datatype Version = Version(files: seq<seq<File>>)

  ghost predicate UniqueNumbers(v: Version) {
    forall l, m, i, j | 0 <= l < |v.files| && 0 <= m < |v.files| && 0 <= i < |v.files[l]| && 0 <= j < |v.files[m]| ::
      v.files[l][i].number == v.files[m][j].number ==> l == m && i == j
  }

  /** A level-zero file with a higher number holds newer entries. */
  ghost predicate NewerByNumber(fs: seq<File>) {
    forall f, g :: f in fs && g in fs && f.number > g.number ==> Shadows(EntrySet(f.entries), EntrySet(g.entries))
  }

  ghost predicate ShallowerIsNewer(v: Version) {
    forall l, m :: 0 <= l < m < |v.files| ==> Shadows(EntriesOf(v.files[l]), EntriesOf(v.files[m]))
  }

  /** The invariant that every flush, move and compaction keeps. */
  ghost predicate Valid(v: Version) {
    && |v.files| == NUM_LEVELS
    && (forall l :: 0 <= l < NUM_LEVELS ==> AllWellFormed(v.files[l]))
    && (forall l :: 1 <= l < NUM_LEVELS ==> Disjoint(v.files[l]))
    && SortedBySmallest(v.files[0])
    && UniqueNumbers(v)
    && NewerByNumber(v.files[0])
    && ShallowerIsNewer(v)
    && UniqueSequences(EntriesFrom(v, 0))
  }

  /** The entries of all levels from `level` down. */
  ghost function EntriesFrom(v: Version, level: nat): set<Entry> {
    set l, e | level <= l < |v.files| && e in EntriesOf(v.files[l]) :: e
  }

  lemma EntriesFromStep(v: Version, level: nat)
    requires level < |v.files|
    ensures EntriesFrom(v, level) == EntriesOf(v.files[level]) + EntriesFrom(v, level + 1)
  {
  }

  /** Binary search for the earliest file whose largest key is at or after `key`. */
  method FindFile(files: seq<File>, key: Key) returns (right: nat)
    requires AllWellFormed(files) && Disjoint(files)
    ensures right <= |files|
    ensures forall i :: 0 <= i < right ==> Less(Largest(files[i]), key)
    ensures forall i :: right <= i < |files| ==> LessEq(key, Largest(files[i]))
  {
    var left := 0;
    right := |files|;
    while left < right
      invariant 0 <= left <= right <= |files|
      invariant forall i :: 0 <= i < left ==> Less(Largest(files[i]), key)
      invariant forall i :: right <= i < |files| ==> LessEq(key, Largest(files[i]))
    {
      var mid := (left + right) / 2;
      CompareIsTotalOrder(Largest(files[mid]), key);
      BoundsHold(files[mid], files[mid].entries[0]);
      if Compare(Largest(files[mid]), key) < 0 {
        forall i | 0 <= i < mid ensures Less(Largest(files[i]), key) {
          assert Less(Largest(files[i]), Smallest(files[mid]));
        }
        left := mid + 1;
      } else {
        forall i | mid < i < |files| ensures LessEq(key, Largest(files[i])) {
          BoundsHold(files[i], files[i].entries[0]);
          assert Less(Largest(files[mid]), Smallest(files[i]));
        }
        right := mid;
      }
    }
  }

  datatype SaverState = NotFound | Found(value: Bytes) | Deleted

  ghost function StateOf(e: Option<Entry>): SaverState {
    match e
    case None => NotFound
    case Some(e) => if e.key.kind.Value? then Found(e.value) else Deleted
  }

  /** Looks in one table: the callback accepts the first entry at or after the lookup key if it has the user key. */
  method TableGet(f: File, user: UserKey, snapshot: nat) returns (state: SaverState)
    requires WellFormed(f) && UniqueSequences(EntrySet(f.entries))
    ensures state == StateOf(Lookup(EntrySet(f.entries), user, snapshot))
  {
    var key := LookupKey(user, snapshot);
    var p := Cursors.SeekPosition(f.entries, key);
    SeekFindsNewest(f.entries, user, snapshot);
    state := NotFound;
    if p < |f.entries| && f.entries[p].key.user == user {
      state := if f.entries[p].key.kind.Value? then Found(f.entries[p].value) else Deleted;
    }
  }

  /** In a sorted run the seek for the lookup key lands on the newest visible entry, if there is one. */
  lemma {:induction false} SeekFindsNewest(es: seq<Entry>, user: UserKey, snapshot: nat)
    requires Sorted(es) && UniqueSequences(EntrySet(es))
    ensures var p := Cursors.SeekPosition(es, LookupKey(user, snapshot));
            Lookup(EntrySet(es), user, snapshot) ==
              if p < |es| && es[p].key.user == user then Some(es[p]) else None
  {
    var key := LookupKey(user, snapshot);
    var p := Cursors.SeekPosition(es, key);
    var S := EntrySet(es);
    LookupCharacterized(S, user, snapshot);
    forall e | e in S && Visible(e, user, snapshot)
      ensures p < |es| && es[p].key.user == user && e.key.sequence <= es[p].key.sequence
    {
      var i :| 0 <= i < |es| && es[i] == e;
      LookupKeyDividesVersions(e.key, user, snapshot);
      assert i >= p;
    }
    if p < |es| && es[p].key.user == user {
      LookupKeyDividesVersions(es[p].key, user, snapshot);
      assert IsNewest(S, user, snapshot, es[p]);
    }
  }

  /** Level-zero files in the order a reader opens them. */
  ghost predicate NewestFirst(fs: seq<File>) {
    forall i, j :: 0 <= i < j < |fs| ==> fs[i].number > fs[j].number
  }

  /** The level-zero files whose range holds the user key, newest first. */
  method OverlappingNewestFirst(files: seq<File>, user: UserKey) returns (tmp: seq<File>)
    requires AllWellFormed(files)
    requires forall i, j :: 0 <= i < j < |files| ==> files[i].number != files[j].number
    ensures forall f :: f in tmp <==> f in files && RangeContains(f, user)
    ensures AllWellFormed(tmp) && NewestFirst(tmp)
  {
    tmp := [];
    for i := 0 to |files|
      invariant forall f :: f in tmp <==> f in files[..i] && RangeContains(f, user)
      invariant AllWellFormed(tmp) && NewestFirst(tmp)
    {
      var f := files[i];
      assert files[..i + 1] == files[..i] + [f];
      if user >= Smallest(f).user && user <= Largest(f).user {
        tmp := InsertByNumber(tmp, f);
      }
    }
    assert files[..|files|] == files;
  }

  /** One step of the sort by descending file number. */
  method InsertByNumber(sorted: seq<File>, f: File) returns (r: seq<File>)
    requires NewestFirst(sorted) && AllWellFormed(sorted) && WellFormed(f)
    requires forall g :: g in sorted ==> g.number != f.number
    ensures NewestFirst(r) && AllWellFormed(r)
    ensures forall g :: g in r <==> g in sorted || g == f
  {
    var p := 0;
    while p < |sorted| && sorted[p].number > f.number
      invariant 0 <= p <= |sorted|
      invariant forall i :: 0 <= i < p ==> sorted[i].number > f.number
    {
      p := p + 1;
    }
    r := sorted[..p] + [f] + sorted[p..];
  }

  lemma NewestFirstShadows(files: seq<File>, tmp: seq<File>)
    requires NewerByNumber(files) && NewestFirst(tmp) && |tmp| > 0
    requires forall f :: f in tmp ==> f in files
    ensures EntriesOf(tmp) == EntrySet(tmp[0].entries) + EntriesOf(tmp[1..])
    ensures Shadows(EntrySet(tmp[0].entries), EntriesOf(tmp[1..]))
  {
    forall e | e in EntriesOf(tmp) ensures e in EntrySet(tmp[0].entries) + EntriesOf(tmp[1..]) {
      var f :| f in tmp && e in f.entries;
      assert f == tmp[0] || f in tmp[1..];
    }
    forall e, f | e in EntrySet(tmp[0].entries) && f in EntriesOf(tmp[1..]) && e.key.user == f.key.user
      ensures e.key.sequence > f.key.sequence
    {
      var g :| g in tmp[1..] && f in g.entries;
      var k :| 0 <= k < |tmp[1..]| && tmp[1..][k] == g;
      assert tmp[0].number > tmp[k + 1].number;
      assert Shadows(EntrySet(tmp[0].entries), EntrySet(g.entries));
    }
  }

  /** Files whose range misses the user key cannot change what is found. */
  lemma {:induction false} RangeFilterKeepsLookup(files: seq<File>, tmp: seq<File>, user: UserKey, snapshot: nat)
    requires AllWellFormed(files) && UniqueSequences(EntriesOf(files))
    requires forall f :: f in tmp <==> f in files && RangeContains(f, user)
    ensures Lookup(EntriesOf(tmp), user, snapshot) == Lookup(EntriesOf(files), user, snapshot)
  {
    forall e | e in EntriesOf(files) && e.key.user == user ensures e in EntriesOf(tmp) {
      var f :| f in files && e in f.entries;
      BoundsHold(f, e);
    }
    LookupCharacterized(EntriesOf(tmp), user, snapshot);
    LookupCharacterized(EntriesOf(files), user, snapshot);
    var r := Lookup(EntriesOf(files), user, snapshot);
    if r.Some? {
      assert IsNewest(EntriesOf(tmp), user, snapshot, r.value);
    }
  }

  /** Reading file `i` of the newest-first list, when the ones before it had nothing. */
  lemma {:induction false} LevelZeroStep(files: seq<File>, tmp: seq<File>, i: nat, user: UserKey, snapshot: nat)
    requires NewerByNumber(files) && UniqueSequences(EntriesOf(files))
    requires NewestFirst(tmp) && i < |tmp|
    requires forall f :: f in tmp ==> f in files
    ensures UniqueSequences(EntrySet(tmp[i].entries))
    ensures var first := Lookup(EntrySet(tmp[i].entries), user, snapshot);
            Lookup(EntriesOf(tmp[i..]), user, snapshot) ==
              if first.Some? then first else Lookup(EntriesOf(tmp[i + 1..]), user, snapshot)
  {
    var rest := tmp[i..];
    assert rest[0] == tmp[i] && rest[1..] == tmp[i + 1..];
    NewestFirstShadows(files, rest);
    assert EntriesOf(rest) <= EntriesOf(files);
    ShadowedLookup(EntrySet(rest[0].entries), EntriesOf(rest[1..]), user, snapshot);
  }

  /** Searches the level-zero files newest first and stops at the first hit. */
  method GetLevelZero(files: seq<File>, user: UserKey, snapshot: nat) returns (state: SaverState)
    requires AllWellFormed(files) && NewerByNumber(files) && UniqueSequences(EntriesOf(files))
    requires forall i, j :: 0 <= i < j < |files| ==> files[i].number != files[j].number
    ensures state == StateOf(Lookup(EntriesOf(files), user, snapshot))
  {
    var tmp := OverlappingNewestFirst(files, user);
    RangeFilterKeepsLookup(files, tmp, user, snapshot);
    ghost var answer := Lookup(EntriesOf(files), user, snapshot);
    assert tmp[0..] == tmp;
    state := NotFound;
    var i := 0;
    while i < |tmp|
      invariant 0 <= i <= |tmp|
      invariant state == NotFound
      invariant Lookup(EntriesOf(tmp[i..]), user, snapshot) == answer
    {
      LevelZeroStep(files, tmp, i, user, snapshot);
      state := TableGet(tmp[i], user, snapshot);
      if state != NotFound {
        return;
      }
      i := i + 1;
    }
    NothingToFind(tmp[i..], user, snapshot);
  }

  lemma NothingToFind(fs: seq<File>, user: UserKey, snapshot: nat)
    requires fs == []
    ensures Lookup(EntriesOf(fs), user, snapshot) == None
  {
    LookupCharacterized(EntriesOf(fs), user, snapshot);
  }

  /** In a disjoint level only the file found by the binary search can hold the newest visible entry. */
  lemma {:induction false} OnlyFoundFileMatters(files: seq<File>, index: nat, user: UserKey, snapshot: nat)
    requires AllWellFormed(files) && Disjoint(files) && UniqueSequences(EntriesOf(files))
    requires index <= |files|
    requires forall i :: 0 <= i < index ==> Less(Largest(files[i]), LookupKey(user, snapshot))
    requires index < |files| ==> LessEq(LookupKey(user, snapshot), Largest(files[index]))
    ensures Lookup(EntriesOf(files), user, snapshot) ==
              if index < |files| && user >= Smallest(files[index]).user
              then Lookup(EntrySet(files[index].entries), user, snapshot) else None
  {
    LookupCharacterized(EntriesOf(files), user, snapshot);
    forall e | e in EntriesOf(files) && Visible(e, user, snapshot)
      ensures index < |files| && user >= Smallest(files[index]).user
      ensures exists m :: m in files[index].entries && Visible(m, user, snapshot) && m.key.sequence >= e.key.sequence
    {
      VisibleEntryIsFound(files, index, user, snapshot, e);
    }
    if index < |files| {
      var S := EntrySet(files[index].entries);
      assert S <= EntriesOf(files);
      LookupCharacterized(S, user, snapshot);
      var r := Lookup(S, user, snapshot);
      if r.Some? {
        assert IsNewest(EntriesOf(files), user, snapshot, r.value);
        BoundsHold(files[index], r.value);
      }
    }
  }

  lemma VisibleEntryIsFound(files: seq<File>, index: nat, user: UserKey, snapshot: nat, e: Entry)
    requires AllWellFormed(files) && Disjoint(files)
    requires index <= |files|
    requires forall i :: 0 <= i < index ==> Less(Largest(files[i]), LookupKey(user, snapshot))
    requires index < |files| ==> LessEq(LookupKey(user, snapshot), Largest(files[index]))
    requires e in EntriesOf(files) && Visible(e, user, snapshot)
    ensures index < |files| && user >= Smallest(files[index]).user
    ensures exists m :: m in files[index].entries && Visible(m, user, snapshot) && m.key.sequence >= e.key.sequence
  {
    var f :| f in files && e in f.entries;
    var i :| 0 <= i < |files| && files[i] == f;
    BoundsHold(f, e);
    LookupKeyDividesVersions(e.key, user, snapshot);
    if i > index {
      var m := files[index].entries[|files[index].entries| - 1];
      assert Less(Largest(files[index]), Smallest(f));
      LookupKeyDividesVersions(m.key, user, snapshot);
      BoundsHold(files[index], m);
      assert Visible(m, user, snapshot);
    }
  }

  /** Searches one level above zero: at most one file. */
  method GetDisjointLevel(files: seq<File>, user: UserKey, snapshot: nat) returns (state: SaverState)
    requires AllWellFormed(files) && Disjoint(files) && UniqueSequences(EntriesOf(files))
    ensures state == StateOf(Lookup(EntriesOf(files), user, snapshot))
  {
    var index := FindFile(files, LookupKey(user, snapshot));
    OnlyFoundFileMatters(files, index, user, snapshot);
    state := NotFound;
    if index < |files| {
      if user < Smallest(files[index]).user {
        // All of the file is past any data for the user key.
      } else {
        assert EntrySet(files[index].entries) <= EntriesOf(files);
        state := TableGet(files[index], user, snapshot);
      }
    }
  }

  /** The point read of a version agrees with the newest visible entry over all of its levels. */
  method Get(v: Version, user: UserKey, snapshot: nat) returns (value: Option<Bytes>)
    requires Valid(v)
    ensures value == Answer(EntriesFrom(v, 0), user, snapshot)
  {
    var level := 0;
    while level < NUM_LEVELS
      invariant 0 <= level <= NUM_LEVELS
      invariant Lookup(EntriesFrom(v, level), user, snapshot) == Lookup(EntriesFrom(v, 0), user, snapshot)
    {
      LevelStep(v, level, user, snapshot);
      var state := GetLevel(v, level, user, snapshot);
      match state {
        case NotFound =>
        case Found(found) => return Some(found);
        case Deleted => return None;
      }
      level := level + 1;
    }
    LookupCharacterized(EntriesFrom(v, NUM_LEVELS), user, snapshot);
    return None;
  }

  /** Level zero may overlap itself; deeper levels do not. */
  method GetLevel(v: Version, level: nat, user: UserKey, snapshot: nat) returns (state: SaverState)
    requires Valid(v) && level < NUM_LEVELS
    ensures state == StateOf(Lookup(EntriesOf(v.files[level]), user, snapshot))
  {
    LevelShadowsRest(v, level);
    if level == 0 {
      state := GetLevelZero(v.files[0], user, snapshot);
    } else {
      state := GetDisjointLevel(v.files[level], user, snapshot);
    }
  }

  /** What a level has is newer than anything below it. */
  lemma LevelStep(v: Version, level: nat, user: UserKey, snapshot: nat)
    requires Valid(v) && level < NUM_LEVELS
    ensures var found := Lookup(EntriesOf(v.files[level]), user, snapshot);
            Lookup(EntriesFrom(v, level), user, snapshot) ==
              if found.Some? then found else Lookup(EntriesFrom(v, level + 1), user, snapshot)
  {
    EntriesFromStep(v, level);
    LevelShadowsRest(v, level);
    ShadowedLookup(EntriesOf(v.files[level]), EntriesFrom(v, level + 1), user, snapshot);
  }

  lemma LevelShadowsRest(v: Version, level: nat)
    requires Valid(v) && level < NUM_LEVELS
    ensures Shadows(EntriesOf(v.files[level]), EntriesFrom(v, level + 1))
    ensures UniqueSequences(EntriesOf(v.files[level]) + EntriesFrom(v, level + 1))
    ensures UniqueSequences(EntriesOf(v.files[level]))
  {
    assert EntriesFrom(v, level) <= EntriesFrom(v, 0);
    EntriesFromStep(v, level);
    forall e, f | e in EntriesOf(v.files[level]) && f in EntriesFrom(v, level + 1) && e.key.user == f.key.user
      ensures e.key.sequence > f.key.sequence
    {
      var m :| level + 1 <= m < |v.files| && f in EntriesOf(v.files[m]);
      assert Shadows(EntriesOf(v.files[level]), EntriesOf(v.files[m]));
    }
  }
}
