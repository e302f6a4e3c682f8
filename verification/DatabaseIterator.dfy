/**
 The iterator over a whole database: its children are the memtables, the level-zero files and one
 concatenation per deeper level.  What it sees is what point reads see.
 */
module DatabaseIterators {
  import opened InternalKeys
  import opened Reads
  import opened Files
  import opened Versions
  import opened Cursors
  import opened Compactions
  import opened Database
  import opened MergingIterators
  import opened UserIterator

  /** One child for every level from `level` down that has files. */
  function LevelChildren(v: Version, level: nat): seq<seq<Entry>>
    decreases if level < |v.files| then |v.files| - level else 0
  {
    if level >= |v.files| then []
    else if v.files[level] == [] then LevelChildren(v, level + 1)
    else [Flatten(v.files[level])] + LevelChildren(v, level + 1)
  }

  function VersionChildren(v: Version): seq<seq<Entry>>
    requires |v.files| > 0
  {
    EntriesPerFile(v.files[0]) + LevelChildren(v, 1)
  }

  function MemtableChildren(s: State): seq<seq<Entry>> {
    [s.mem] + (if s.imm.Some? then [s.imm.value] else [])
  }

  /** The children of the merging iterator. */
  function Children(s: State): seq<seq<Entry>>
    requires |s.version.files| > 0
  {
    MemtableChildren(s) + VersionChildren(s.version)
  }

  /** Sorted children, no key twice, and together they hold `S`. */
  ghost predicate Cover(flats: seq<seq<Entry>>, S: set<Entry>) {
    && AllSorted(flats) && DistinctAcross(flats)
    && forall e :: e in S <==> exists d :: 0 <= d < |flats| && e in flats[d]
  }

  lemma InCover(flats: seq<seq<Entry>>, S: set<Entry>, d: nat, i: nat)
    requires Cover(flats, S) && d < |flats| && i < |flats[d]|
    ensures flats[d][i] in S
  {
    assert flats[d][i] in flats[d];
  }

  /** Children of a newer part and of an older part. */
  lemma CoverConcat(xs: seq<seq<Entry>>, X: set<Entry>, ys: seq<seq<Entry>>, Y: set<Entry>)
    requires Cover(xs, X) && Cover(ys, Y) && Shadows(X, Y)
    ensures Cover(xs + ys, X + Y)
  {
    var all: seq<seq<Entry>> := xs + ys;
    forall c: nat, d: nat, i: nat, j: nat | c < d < |all| && i < |all[c]| && j < |all[d]|
      ensures all[c][i].key != all[d][j].key
    {
      if c < |xs| && d >= |xs| {
        InCover(xs, X, c, i);
        InCover(ys, Y, d - |xs|, j);
      }
    }
    forall e ensures e in X + Y <==> exists d :: 0 <= d < |all| && e in all[d] {
      if e in X {
        var d :| 0 <= d < |xs| && e in xs[d];
        assert e in all[d];
      } else if e in Y {
        var d :| 0 <= d < |ys| && e in ys[d];
        assert e in all[|xs| + d];
      }
      if d :| 0 <= d < |all| && e in all[d] {
        assert d >= |xs| ==> e in ys[d - |xs|];
      }
    }
  }

  lemma CoverOne(es: seq<Entry>)
    requires Sorted(es)
    ensures Cover([es], EntrySet(es))
  {
    assert forall e :: e in es ==> e in [es][0];
  }

  lemma CoverNone()
    ensures Cover([], {})
  {
  }

  lemma ZeroCovered(v: Version)
    requires Versions.Valid(v)
    ensures Cover(EntriesPerFile(v.files[0]), EntriesOf(v.files[0]))
  {
    var fs := v.files[0];
    var flats: seq<seq<Entry>> := EntriesPerFile(fs);
    forall c: nat, d: nat, i: nat, j: nat | c < |fs| && d < |fs| && c != d && i < |flats[c]| && j < |flats[d]|
      ensures flats[c][i].key != flats[d][j].key
    {
      ZeroFilesDiffer(v, c, flats[c][i], d, flats[d][j]);
    }
    InSomeFile(fs);
  }

  lemma InSomeFile(fs: seq<File>)
    requires AllWellFormed(fs)
    ensures AllSorted(EntriesPerFile(fs))
    ensures forall e :: e in EntriesOf(fs) <==> exists d :: 0 <= d < |fs| && e in EntriesPerFile(fs)[d]
  {
    var flats := EntriesPerFile(fs);
    forall e ensures e in EntriesOf(fs) <==> exists d :: 0 <= d < |fs| && e in flats[d] {
      if e in EntriesOf(fs) {
        var f :| f in fs && e in f.entries;
        var d :| 0 <= d < |fs| && fs[d] == f;
        assert e in flats[d];
      }
    }
  }

  lemma ZeroFilesDiffer(v: Version, c: nat, a: Entry, d: nat, b: Entry)
    requires Versions.Valid(v) && c < |v.files[0]| && d < |v.files[0]| && c != d
    requires a in v.files[0][c].entries && b in v.files[0][d].entries
    ensures a.key != b.key
  {
    var f, g := v.files[0][c], v.files[0][d];
    if f.number > g.number {
      assert Shadows(EntrySet(f.entries), EntrySet(g.entries));
    } else {
      assert Shadows(EntrySet(g.entries), EntrySet(f.entries));
    }
    assert a in EntrySet(f.entries) && b in EntrySet(g.entries);
  }

  lemma {:induction false} LevelsCovered(v: Version, level: nat)
    requires Versions.Valid(v) && 1 <= level <= NUM_LEVELS
    ensures Cover(LevelChildren(v, level), EntriesFrom(v, level))
    decreases NUM_LEVELS - level
  {
    if level == NUM_LEVELS {
      CoverNone();
      assert EntriesFrom(v, level) == {};
    } else {
      var fs := v.files[level];
      LevelsCovered(v, level + 1);
      EntriesFromStep(v, level);
      LevelShadowsRest(v, level);
      FlattenIs(fs);
      if fs == [] {
        assert EntriesOf(fs) == {};
      } else {
        FlattenSorted(fs);
        CoverOne(Flatten(fs));
        CoverConcat([Flatten(fs)], EntriesOf(fs), LevelChildren(v, level + 1), EntriesFrom(v, level + 1));
      }
    }
  }

  lemma FlattenIs(fs: seq<File>)
    ensures EntrySet(Flatten(fs)) == EntriesOf(fs)
  {
    forall e ensures e in EntrySet(Flatten(fs)) <==> e in EntriesOf(fs) {
      FlattenHolds(fs, e);
    }
  }

  /** The children hold everything that is stored, each entry once. */
  lemma {:induction false} ChildrenCover(s: State)
    requires Inv(s)
    ensures Cover(Children(s), Stored(s))
  {
    var v := s.version;
    ZeroCovered(v);
    LevelsCovered(v, 1);
    EntriesFromStep(v, 0);
    LevelShadowsRest(v, 0);
    CoverConcat(EntriesPerFile(v.files[0]), EntriesOf(v.files[0]), LevelChildren(v, 1), EntriesFrom(v, 1));
    MemtablesCover(s);
    CoverConcat(MemtableChildren(s), EntrySet(s.mem) + ImmEntries(s), VersionChildren(v), EntriesFrom(v, 0));
    assert EntrySet(s.mem) + ImmEntries(s) + EntriesFrom(v, 0) == Stored(s);
  }

  lemma MemtablesCover(s: State)
    requires Inv(s)
    ensures Cover(MemtableChildren(s), EntrySet(s.mem) + ImmEntries(s))
  {
    CoverOne(s.mem);
    if s.imm.Some? {
      CoverOne(s.imm.value);
      CoverConcat([s.mem], EntrySet(s.mem), [s.imm.value], ImmEntries(s));
    } else {
      assert [s.mem] + [] == [s.mem];
    }
  }

  /** Merged, they are one sorted sequence of what is stored. */
  lemma {:induction false} MergeIsStored(s: State, merged: seq<Item>)
    requires Inv(s) && IsMerge(Children(s), merged)
    ensures Sorted(Entries(merged)) && EntrySet(Entries(merged)) == Stored(s)
    ensures DistinctAcross(Children(s))
  {
    ChildrenCover(s);
    DistinctMergeIsSorted(Children(s), merged);
  }

  /** Where a seek for a user key leads, and what a point read finds for it. */
  lemma {:induction false} SeekFindsAnswer(flat: seq<Entry>, user: UserKey, snapshot: nat, p: nat)
    requires Sorted(flat) && UniqueSequences(EntrySet(flat))
    requires IsNextLive(flat, snapshot, SeekPosition(flat, LookupKey(user, snapshot)), p)
    ensures Answer(EntrySet(flat), user, snapshot) ==
              if p < |flat| && flat[p].key.user == user then Some(flat[p].value) else None
  {
    LiveIsAnswer(flat, snapshot, user);
    var from := SeekPosition(flat, LookupKey(user, snapshot));
    if q :| 0 <= q < |flat| && flat[q].key.user == user && Live(flat, snapshot, q) {
      LookupKeyDividesVersions(flat[q].key, user, snapshot);
      assert from <= q && p <= q;
      SeekPositionIsUnique(flat, LookupKey(user, snapshot), from);
      LookupKeyDividesVersions(flat[p].key, user, snapshot);
    }
  }

  /** A seek of the iterator and a point read at the same snapshot find the same value, or that there is none. */
  method SeekAndGet(s: State, iter: FlatIterator, user: UserKey, snapshot: nat)
    returns (sought: Option<Bytes>, got: Option<Bytes>)
    requires Inv(s) && iter.WellFormed() && EntrySet(iter.flat) == Stored(s)
    modifies iter
    ensures sought == got == Answer(Stored(s), user, snapshot)
  {
    var it := new DBIter(iter, snapshot);
    it.Seek(user);
    StoredUnique(s);
    SeekFindsAnswer(iter.flat, user, snapshot, it.position);
    sought := None;
    if it.valid && it.CurrentKey() == user {
      sought := Some(it.CurrentValue());
    }
    got := Database.Get(s, user, snapshot);
  }

  lemma StoredUnique(s: State)
    requires Inv(s)
    ensures UniqueSequences(Stored(s))
  {
  }

  /** At a live snapshot the keys that the iterator stops at are those that the history of writes gives a value. */
  lemma {:induction false} ScanFollowsHistory(s: State, merged: seq<Item>, user: UserKey, snapshot: nat)
    requires Inv(s) && IsMerge(Children(s), merged) && snapshot >= SmallestSnapshot(s)
    ensures Answer(s.history, user, snapshot).Some? <==>
              exists p :: 0 <= p < |merged| && merged[p].entry.key.user == user && Live(Entries(merged), snapshot, p)
    ensures forall p :: 0 <= p < |merged| && Live(Entries(merged), snapshot, p) && merged[p].entry.key.user == user ==>
                          Answer(s.history, user, snapshot) == Some(merged[p].entry.value)
  {
    MergeIsStored(s, merged);
    StoredUnique(s);
    LiveIsAnswer(Entries(merged), snapshot, user);
    assert ReadsUnchanged(s.history, Stored(s), SmallestSnapshot(s));
  }
}
