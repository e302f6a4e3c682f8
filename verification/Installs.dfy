/**
 How the version changes: a flushed memtable, a file moved one level down, a compaction.  Each is
 an edit installed by the version builder, and each keeps the version valid.
 */
module Installs {
  import opened InternalKeys
  import opened Reads
  import opened Files
  import opened Versions
  import VB = VersionBuilder

  /** The builder's order on files. */
  function Order(): VB.FileOrder<File> {
    VB.FileOrder((f: File) => f.number,
                 (f: File, g: File) => |f.entries| > 0 && |g.entries| > 0 && BySmallestKey(f, g))
  }

  /** `after` is what installing one edit makes of `before`. */
  ghost predicate Installed(before: Version, edit: VB.Edit<File>, after: Version) {
    VB.ListsAfter(Order(), before.files, [edit], after.files)
  }

  ghost function Deleted(edit: VB.Edit<File>, level: nat): set<nat> {
    VB.DeletedAt(edit, level) - VB.NumbersOf(Order(), VB.AddedAt(edit, level))
  }

  /** The files of a level after the install. */
  lemma InstalledFiles(before: Version, edit: VB.Edit<File>, after: Version, level: nat)
    requires Installed(before, edit, after) && level < |before.files|
    ensures |after.files| == |before.files|
    ensures forall f :: f in after.files[level] <==>
                          && (f in before.files[level] || (level, f) in edit.newFiles)
                          && f.number !in Deleted(edit, level)
  {
    assert [edit][..0] == [];
    var base := VB.Elements(before.files[level]);
    assert VB.OneAtATime(Order(), base, [edit], level) ==
           VB.Remaining(Order(), base + VB.AddedAt(edit, level), Deleted(edit, level));
    AddedExactly(edit, level);
    forall f ensures f in after.files[level] <==> f in VB.Elements(after.files[level]) {}
  }

  /** Sorted lists with the files that the edit leaves are what installing it makes. */
  lemma InstalledIf(before: Version, edit: VB.Edit<File>, after: Version)
    requires |after.files| == |before.files|
    requires forall l :: 0 <= l < |before.files| ==> VB.SortedBy(Order(), after.files[l])
    requires forall l, f :: 0 <= l < |before.files| ==>
               (f in after.files[l] <==> && (f in before.files[l] || (l, f) in edit.newFiles)
                                         && f.number !in Deleted(edit, l))
    ensures Installed(before, edit, after)
  {
    assert [edit][..0] == [];
    forall l | 0 <= l < |before.files|
      ensures VB.Elements(after.files[l]) == VB.OneAtATime(Order(), VB.Elements(before.files[l]), [edit], l)
    {
      var base := VB.Elements(before.files[l]);
      assert VB.OneAtATime(Order(), base, [edit], l) ==
          VB.Remaining(Order(), base + VB.AddedAt(edit, l), Deleted(edit, l));
      AddedExactly(edit, l);
    }
  }

  lemma AddedExactly(edit: VB.Edit<File>, level: nat)
    ensures forall f :: f in VB.AddedAt(edit, level) <==> (level, f) in edit.newFiles
  {
    forall f ensures f in VB.AddedAt(edit, level) <==> (level, f) in edit.newFiles {
      if f in VB.AddedAt(edit, level) {
        var a :| a in edit.newFiles && a.0 == level && a.1 == f;
        assert a == (level, f);
      }
    }
  }

  /** Files sorted by smallest key whose ranges are pairwise disjoint are laid out disjointly. */
  lemma SortedAndApart(fs: seq<File>)
    requires AllWellFormed(fs) && VB.SortedBy(Order(), fs)
    requires forall f, g :: f in fs && g in fs && f != g ==> Apart(f, g)
    ensures Disjoint(fs)
  {
    forall i, j | 0 <= i < j < |fs| ensures Less(Largest(fs[i]), Smallest(fs[j])) {
      var f, g := fs[i], fs[j];
      assert Order().before(f, g);
      assert BySmallestKey(f, g);
      BoundsHold(f, f.entries[0]);
      BoundsHold(g, g.entries[0]);
      assert Apart(f, g);
    }
  }

  ghost predicate Apart(f: File, g: File)
    requires WellFormed(f) && WellFormed(g)
  {
    Less(Largest(f), Smallest(g)) || Less(Largest(g), Smallest(f))
  }

  lemma DisjointAreApart(fs: seq<File>, f: File, g: File)
    requires AllWellFormed(fs) && Disjoint(fs) && f in fs && g in fs && f != g
    ensures Apart(f, g)
  {
    var i :| 0 <= i < |fs| && fs[i] == f;
    var j :| 0 <= j < |fs| && fs[j] == g;
    assert i < j || j < i;
  }

  /** An entry sits in one file only. */
  lemma EntryInOneFile(v: Version, l: nat, f: File, m: nat, g: File, e: Entry)
    requires Versions.Valid(v) && l < NUM_LEVELS && m < NUM_LEVELS
    requires f in v.files[l] && g in v.files[m] && (l != m || f != g)
    requires e in f.entries
    ensures e !in g.entries
  {
    assert e in EntriesOf(v.files[l]);
    if l < m {
      assert Shadows(EntriesOf(v.files[l]), EntriesOf(v.files[m]));
      assert e !in EntriesOf(v.files[m]);
    } else if m < l {
      assert Shadows(EntriesOf(v.files[m]), EntriesOf(v.files[l]));
      assert e !in EntriesOf(v.files[m]);
    } else if l == 0 {
      NumbersDiffer(v, 0, f, g);
      assert e in EntrySet(f.entries);
      assert e !in EntrySet(g.entries);
    } else {
      DisjointAreApart(v.files[l], f, g);
      BoundsHold(f, e);
      BoundsHold(f, f.entries[0]);
      forall x | x in g.entries ensures x.key != e.key {
        BoundsHold(g, x);
      }
    }
  }

  lemma NumbersDiffer(v: Version, l: nat, f: File, g: File)
    requires UniqueNumbers(v) && l < |v.files|
    requires f in v.files[l] && g in v.files[l] && f != g
    ensures f.number != g.number
  {
    var i :| 0 <= i < |v.files[l]| && v.files[l][i] == f;
    var j :| 0 <= j < |v.files[l]| && v.files[l][j] == g;
  }

  lemma SortedAreDistinct(fs: seq<File>)
    requires VB.SortedBy(Order(), fs)
    ensures forall i, j :: 0 <= i < |fs| && 0 <= j < |fs| && fs[i] == fs[j] ==> i == j
  {
    forall i, j | 0 <= i < j < |fs| ensures fs[i] != fs[j] {
      assert Order().before(fs[i], fs[j]);
      assert !Order().before(fs[j], fs[j]);
    }
  }

  ghost predicate PairwiseApart(fs: seq<File>)
    requires AllWellFormed(fs)
  {
    forall f, g :: f in fs && g in fs && f != g ==> Apart(f, g)
  }

  ghost predicate NumbersApart(v: Version) {
    forall l, m, f, g | 0 <= l < |v.files| && 0 <= m < |v.files| && f in v.files[l] && g in v.files[m] ::
      f.number == g.number ==> l == m && f == g
  }

  /** Facts about single files and pairs of files that together make a version valid. */
  lemma ValidFromParts(after: Version)
    requires |after.files| == NUM_LEVELS
    requires forall l :: 0 <= l < NUM_LEVELS ==> AllWellFormed(after.files[l]) && VB.SortedBy(Order(), after.files[l])
    requires forall l :: 1 <= l < NUM_LEVELS ==> PairwiseApart(after.files[l])
    requires NumbersApart(after)
    requires NewerByNumber(after.files[0])
    requires ShallowerIsNewer(after)
    requires UniqueSequences(EntriesFrom(after, 0))
    ensures Versions.Valid(after)
  {
    forall l | 1 <= l < NUM_LEVELS ensures Disjoint(after.files[l]) {
      SortedAndApart(after.files[l]);
    }
    forall i, j | 0 <= i < j < |after.files[0]| ensures BySmallestKey(after.files[0][i], after.files[0][j]) {
      assert Order().before(after.files[0][i], after.files[0][j]);
    }
    forall l, m, i, j | 0 <= l < NUM_LEVELS && 0 <= m < NUM_LEVELS && 0 <= i < |after.files[l]|
        && 0 <= j < |after.files[m]| &&
                        after.files[l][i].number == after.files[m][j].number
      ensures l == m && i == j
    {
      SortedAreDistinct(after.files[l]);
    }
  }

  lemma NumberUnique(v: Version, l: nat, f: File, m: nat, g: File)
    requires Versions.Valid(v) && l < NUM_LEVELS && m < NUM_LEVELS
    requires f in v.files[l] && g in v.files[m] && f.number == g.number
    ensures l == m && f == g
  {
    var i :| 0 <= i < |v.files[l]| && v.files[l][i] == f;
    var j :| 0 <= j < |v.files[m]| && v.files[m][j] == g;
  }

  lemma PartsFromValid(v: Version)
    requires Versions.Valid(v)
    ensures NumbersApart(v)
    ensures forall l :: 1 <= l < NUM_LEVELS ==> PairwiseApart(v.files[l])
  {
    forall l | 1 <= l < NUM_LEVELS ensures PairwiseApart(v.files[l]) {
      forall f, g | f in v.files[l] && g in v.files[l] && f != g ensures Apart(f, g) {
        DisjointAreApart(v.files[l], f, g);
      }
    }
    forall l, m, f, g | 0 <= l < |v.files| && 0 <= m < |v.files| && f in v.files[l] && g in v.files[m]
        && f.number == g.number
      ensures l == m && f == g
    {
      var i :| 0 <= i < |v.files[l]| && v.files[l][i] == f;
      var j :| 0 <= j < |v.files[m]| && v.files[m][j] == g;
    }
  }

  /** The files a compaction reads: some of `level`, and what they overlap one level down. */
  datatype Inputs = Inputs(level: nat, upper: set<File>, lower: set<File>, smallest: Key, largest: Key)

  ghost predicate OverlapsUsers(f: File, smallest: UserKey, largest: UserKey)
    requires WellFormed(f)
  {
    Largest(f).user >= smallest && Smallest(f).user <= largest
  }

  /**
   What input selection promises: the bounds cover the upper files; a file of the level that is left out
   ends before the bounds, or starts after them with another user key (or, at level zero, shares no user
   key with them at all); the lower files are all that overlap the bounds.
   */
  ghost predicate GoodInputs(v: Version, c: Inputs)
    requires Versions.Valid(v)
  {
    && c.level + 1 < NUM_LEVELS
    && (forall f :: f in c.upper ==>
                      f in v.files[c.level] && LessEq(c.smallest, Smallest(f)) && LessEq(Largest(f), c.largest))
    && (forall g :: g in v.files[c.level] && g !in c.upper ==>
                      || c.largest.user < Smallest(g).user
                      || (if c.level == 0 then Largest(g).user < c.smallest.user else Less(Largest(g), c.smallest)))
    && (forall g :: g in c.lower <==> g in v.files[c.level + 1] && OverlapsUsers(g, c.smallest.user, c.largest.user))
  }

  ghost function InputEntries(c: Inputs): set<Entry> {
    set f, e | f in c.upper + c.lower && e in f.entries :: e
  }

  /** A file of the version that the compaction leaves alone. */
  ghost predicate Remains(v: Version, c: Inputs, level: nat, f: File)
    requires level < |v.files|
  {
    && f in v.files[level]
    && !(level == c.level && f in c.upper)
    && !(level == c.level + 1 && f in c.lower)
  }

  ghost function RemainingEntries(v: Version, c: Inputs): set<Entry> {
    set l, f, e | 0 <= l < |v.files| && f in v.files[l] && Remains(v, c, l, f) && e in f.entries :: e
  }

  function NewFiles(level: nat, outputs: seq<File>): seq<(nat, File)> {
    seq(|outputs|, i requires 0 <= i < |outputs| => (level, outputs[i]))
  }

  /** Deletes the inputs and adds the outputs one level down. */
  function CompactionEdit(c: Inputs, outputs: seq<File>): VB.Edit<File> {
    VB.Edit((set f | f in c.upper :: (c.level, f.number)) + (set f | f in c.lower :: (c.level + 1, f.number)),
            NewFiles(c.level + 1, outputs))
  }

  /** The outputs hold only input entries, and their numbers are new or belong to an upper input that is moved. */
  ghost predicate GoodOutputs(v: Version, c: Inputs, outputs: seq<File>)
    requires Versions.Valid(v)
  {
    && AllWellFormed(outputs) && PairwiseApart(outputs)
    && EntriesOf(outputs) <= InputEntries(c)
    && (forall o, p :: o in outputs && p in outputs && o.number == p.number ==> o == p)
    && (forall o, l, g :: o in outputs && 0 <= l < NUM_LEVELS && g in v.files[l] && g.number == o.number ==>
                            l == c.level && g in c.upper)
  }

  lemma CompactedLevel(v: Version, c: Inputs, outputs: seq<File>, after: Version, l: nat)
    requires Versions.Valid(v) && GoodInputs(v, c) && GoodOutputs(v, c, outputs)
    requires Installed(v, CompactionEdit(c, outputs), after) && l < NUM_LEVELS
    ensures |after.files| == NUM_LEVELS
    ensures forall f :: f in after.files[l] <==> Remains(v, c, l, f) || (l == c.level + 1 && f in outputs)
  {
    var edit := CompactionEdit(c, outputs);
    InstalledFiles(v, edit, after, l);
    forall f ensures (l, f) in edit.newFiles <==> l == c.level + 1 && f in outputs {
      if l == c.level + 1 && f in outputs {
        var i :| 0 <= i < |outputs| && outputs[i] == f;
        assert edit.newFiles[i] == (l, f);
      }
    }
    forall f | f in v.files[l] ensures f.number in Deleted(edit, l) <==> !Remains(v, c, l, f) {
      DeletedNumber(v, c, outputs, l, f);
    }
    forall f | l == c.level + 1 && f in outputs ensures f.number !in Deleted(edit, l) {
      assert f in VB.AddedAt(edit, l) by {
        assert (l, f) in edit.newFiles;
        assert (l, f).0 == l;
      }
      assert Order().number(f) in VB.NumbersOf(Order(), VB.AddedAt(edit, l));
    }
  }

  lemma DeletedNumber(v: Version, c: Inputs, outputs: seq<File>, l: nat, f: File)
    requires Versions.Valid(v) && GoodInputs(v, c) && GoodOutputs(v, c, outputs)
    requires l < NUM_LEVELS && f in v.files[l]
    ensures f.number in Deleted(CompactionEdit(c, outputs), l) <==> !Remains(v, c, l, f)
  {
    var edit := CompactionEdit(c, outputs);
    PartsFromValid(v);
    forall n ensures n in VB.DeletedAt(edit, l) <==> (l, n) in edit.deletedFiles {
      if (l, n) in edit.deletedFiles {
        assert (l, n).0 == l && (l, n).1 == n;
      }
    }
    forall g | g in VB.AddedAt(edit, l) ensures l == c.level + 1 && g in outputs {
      var a :| a in edit.newFiles && a.0 == l && a.1 == g;
    }
    forall o | o in outputs ensures Order().number(o) != f.number || l == c.level {}
    if !Remains(v, c, l, f) {
      assert (l, f.number) in edit.deletedFiles;
    }
  }

  /** Entries of remaining files, output files and input files, as levels. */
  lemma RemainingEntry(v: Version, c: Inputs, l: nat, f: File, e: Entry)
    requires l < |v.files| && Remains(v, c, l, f) && e in f.entries
    ensures e in RemainingEntries(v, c)
  {
  }

  lemma OldEntries(v: Version, c: Inputs)
    requires Versions.Valid(v) && GoodInputs(v, c)
    ensures EntriesFrom(v, 0) == RemainingEntries(v, c) + InputEntries(c)
  {
    forall e | e in EntriesFrom(v, 0) ensures e in RemainingEntries(v, c) + InputEntries(c) {
      var l :| 0 <= l < |v.files| && e in EntriesOf(v.files[l]);
      var f :| f in v.files[l] && e in f.entries;
      if !Remains(v, c, l, f) {
        assert f in c.upper + c.lower;
      }
    }
    forall e | e in RemainingEntries(v, c) ensures e in EntriesFrom(v, 0) {
      var l, f :| 0 <= l < |v.files| && f in v.files[l] && Remains(v, c, l, f) && e in f.entries;
      assert e in EntriesOf(v.files[l]);
    }
    forall e | e in InputEntries(c) ensures e in EntriesFrom(v, 0) {
      var f :| f in c.upper + c.lower && e in f.entries;
      var l := if f in c.upper then c.level else c.level + 1;
      assert f in v.files[l];
      assert e in EntriesOf(v.files[l]);
    }
  }

  lemma NewEntry(v: Version, c: Inputs, outputs: seq<File>, after: Version, l: nat, e: Entry)
    requires Versions.Valid(v) && GoodInputs(v, c) && GoodOutputs(v, c, outputs)
    requires Installed(v, CompactionEdit(c, outputs), after)
    requires l < |after.files| && e in EntriesOf(after.files[l])
    ensures e in RemainingEntries(v, c) || e in EntriesOf(outputs)
  {
    CompactedLevel(v, c, outputs, after, 0);
    CompactedLevel(v, c, outputs, after, l);
    var f :| f in after.files[l] && e in f.entries;
    if Remains(v, c, l, f) {
      RemainingEntry(v, c, l, f, e);
    }
  }

  /** The new version holds the remaining entries and the outputs. */
  lemma CompactedEntries(v: Version, c: Inputs, outputs: seq<File>, after: Version)
    requires Versions.Valid(v) && GoodInputs(v, c) && GoodOutputs(v, c, outputs)
    requires Installed(v, CompactionEdit(c, outputs), after)
    ensures EntriesFrom(after, 0) == RemainingEntries(v, c) + EntriesOf(outputs)
  {
    forall e | e in EntriesFrom(after, 0) ensures e in RemainingEntries(v, c) + EntriesOf(outputs) {
      var l :| 0 <= l < |after.files| && e in EntriesOf(after.files[l]);
      NewEntry(v, c, outputs, after, l, e);
    }
    forall e | e in RemainingEntries(v, c) ensures e in EntriesFrom(after, 0) {
      var l, f :| 0 <= l < |v.files| && f in v.files[l] && Remains(v, c, l, f) && e in f.entries;
      CompactedLevel(v, c, outputs, after, l);
      assert e in EntriesOf(after.files[l]);
    }
    forall e | e in EntriesOf(outputs) ensures e in EntriesFrom(after, 0) {
      CompactedLevel(v, c, outputs, after, c.level + 1);
      assert e in EntriesOf(after.files[c.level + 1]);
    }
  }

  /** A lower-level file that is left out lies wholly before or wholly after all input entries. */
  lemma LowerFileApart(v: Version, c: Inputs, g: File, e: Entry)
    requires Versions.Valid(v) && GoodInputs(v, c)
    requires g in v.files[c.level + 1] && g !in c.lower && e in InputEntries(c)
    ensures Less(Largest(g), e.key) || Less(e.key, Smallest(g))
    ensures Largest(g).user < c.smallest.user ==> Less(Largest(g), e.key)
    ensures Largest(g).user >= c.smallest.user ==> Less(e.key, Smallest(g))
  {
    var f :| f in c.upper + c.lower && e in f.entries;
    if f in c.lower {
      LowerFilesApart(v, c, c.level + 1, g, f, e);
    } else {
      UpperInputApart(v, c, c.level + 1, g, f, e);
    }
  }

  lemma UpperInputApart(v: Version, c: Inputs, l: nat, g: File, f: File, e: Entry)
    requires Versions.Valid(v) && GoodInputs(v, c) && l == c.level + 1
    requires g in v.files[l] && g !in c.lower && f in c.upper && e in f.entries
    ensures Less(Largest(g), e.key) || Less(e.key, Smallest(g))
    ensures Largest(g).user < c.smallest.user ==> Less(Largest(g), e.key)
    ensures Largest(g).user >= c.smallest.user ==> Less(e.key, Smallest(g))
  {
    assert f in v.files[c.level] && !OverlapsUsers(g, c.smallest.user, c.largest.user);
    BoundsHold(f, e);
    BoundsHold(g, g.entries[0]);
  }

  lemma LowerFilesApart(v: Version, c: Inputs, l: nat, g: File, f: File, e: Entry)
    requires Versions.Valid(v) && GoodInputs(v, c) && l == c.level + 1
    requires g in v.files[l] && g !in c.lower && f in c.lower && e in f.entries
    ensures Less(Largest(g), e.key) || Less(e.key, Smallest(g))
    ensures Largest(g).user < c.smallest.user ==> Less(Largest(g), e.key)
    ensures Largest(g).user >= c.smallest.user ==> Less(e.key, Smallest(g))
  {
    assert f in v.files[l];
    BoundsHold(f, e);
    BoundsHold(f, f.entries[0]);
    BoundsHold(g, g.entries[0]);
    DisjointAreApart(v.files[l], f, g);
  }

  /** An entry of a file of the upper level that is left out is newer than every upper input entry of its user key. */
  lemma UpperFileNewer(v: Version, c: Inputs, g: File, a: Entry, f: File, b: Entry)
    requires Versions.Valid(v) && GoodInputs(v, c)
    requires g in v.files[c.level] && g !in c.upper && a in g.entries
    requires f in c.upper && b in f.entries && a.key.user == b.key.user
    ensures a.key.sequence > b.key.sequence
  {
    BoundsHold(g, a);
    BoundsHold(f, b);
    BoundsHold(f, f.entries[0]);
    DifferentSequences(v, c.level, g, a, f, b);
  }

  lemma DifferentSequences(v: Version, l: nat, g: File, a: Entry, f: File, b: Entry)
    requires Versions.Valid(v) && l < NUM_LEVELS && g in v.files[l] && f in v.files[l] && f != g
    requires a in g.entries && b in f.entries && a.key.user == b.key.user
    ensures a.key.sequence != b.key.sequence
  {
    assert a in EntriesOf(v.files[l]) && b in EntriesOf(v.files[l]);
    assert a in EntriesFrom(v, 0) && b in EntriesFrom(v, 0);
    EntryInOneFile(v, l, g, l, f, a);
  }

  /** Outputs and remaining files: newer entries stay in shallower levels. */
  lemma CompactionKeepsShallowerNewer(v: Version, c: Inputs, outputs: seq<File>, after: Version)
    requires Versions.Valid(v) && GoodInputs(v, c) && GoodOutputs(v, c, outputs)
    requires Installed(v, CompactionEdit(c, outputs), after)
    ensures |after.files| == NUM_LEVELS && ShallowerIsNewer(after)
  {
    CompactedLevel(v, c, outputs, after, 0);
    forall l, m, a, b | 0 <= l < m < NUM_LEVELS && a in EntriesOf(after.files[l]) && b in EntriesOf(after.files[m]) &&
                        a.key.user == b.key.user
      ensures a.key.sequence > b.key.sequence
    {
      var f :| f in after.files[l] && a in f.entries;
      var g :| g in after.files[m] && b in g.entries;
      CompactedLevel(v, c, outputs, after, l);
      CompactedLevel(v, c, outputs, after, m);
      NewerAcrossLevels(v, c, outputs, l, f, a, m, g, b);
    }
  }

  lemma NewerAcrossLevels(v: Version, c: Inputs, outputs: seq<File>, l: nat, f: File, a: Entry, m: nat, g: File,
                          b: Entry)
    requires Versions.Valid(v) && GoodInputs(v, c) && GoodOutputs(v, c, outputs)
    requires l < m < NUM_LEVELS && a in f.entries && b in g.entries && a.key.user == b.key.user
    requires Remains(v, c, l, f) || (l == c.level + 1 && f in outputs)
    requires Remains(v, c, m, g) || (m == c.level + 1 && g in outputs)
    ensures a.key.sequence > b.key.sequence
  {
    if Remains(v, c, l, f) && Remains(v, c, m, g) {
      OldLevelsShadow(v, l, f, a, m, g, b);
    } else if Remains(v, c, l, f) {
      assert b in EntriesOf(outputs);
      NewerThanInput(v, c, l, f, a, b);
    } else {
      assert a in EntriesOf(outputs);
      var h :| h in c.upper + c.lower && a in h.entries;
      OldLevelsShadow(v, if h in c.lower then l else c.level, h, a, m, g, b);
    }
  }

  /** An entry of a remaining file above the lower level is newer than every input entry of its user key. */
  lemma NewerThanInput(v: Version, c: Inputs, l: nat, f: File, a: Entry, b: Entry)
    requires Versions.Valid(v) && GoodInputs(v, c) && l <= c.level && Remains(v, c, l, f) && a in f.entries
    requires b in InputEntries(c) && a.key.user == b.key.user
    ensures a.key.sequence > b.key.sequence
  {
    var h :| h in c.upper + c.lower && b in h.entries;
    if h in c.lower {
      NewerThanLower(v, c, l, f, a, h, b);
    } else {
      NewerThanUpper(v, c, l, f, a, h, b);
    }
  }

  lemma NewerThanLower(v: Version, c: Inputs, l: nat, f: File, a: Entry, h: File, b: Entry)
    requires Versions.Valid(v) && GoodInputs(v, c) && l <= c.level && Remains(v, c, l, f) && a in f.entries
    requires h in c.lower && b in h.entries && a.key.user == b.key.user
    ensures a.key.sequence > b.key.sequence
  {
    OldLevelsShadow(v, l, f, a, c.level + 1, h, b);
  }

  lemma NewerThanUpper(v: Version, c: Inputs, l: nat, f: File, a: Entry, h: File, b: Entry)
    requires Versions.Valid(v) && GoodInputs(v, c) && l <= c.level && Remains(v, c, l, f) && a in f.entries
    requires h in c.upper && b in h.entries && a.key.user == b.key.user
    ensures a.key.sequence > b.key.sequence
  {
    if l == c.level {
      UpperFileNewer(v, c, f, a, h, b);
    } else {
      OldLevelsShadow(v, l, f, a, c.level, h, b);
    }
  }

  lemma OldLevelsShadow(v: Version, l: nat, f: File, a: Entry, m: nat, g: File, b: Entry)
    requires Versions.Valid(v) && l < m < NUM_LEVELS
    requires f in v.files[l] && a in f.entries && g in v.files[m] && b in g.entries && a.key.user == b.key.user
    ensures a.key.sequence > b.key.sequence
  {
    assert a in EntriesOf(v.files[l]) && b in EntriesOf(v.files[m]);
    assert Shadows(EntriesOf(v.files[l]), EntriesOf(v.files[m]));
  }

  /** Installing the outputs of a compaction, or moving one file, keeps the version valid. */
  lemma CompactionKeepsValid(v: Version, c: Inputs, outputs: seq<File>, after: Version)
    requires Versions.Valid(v) && GoodInputs(v, c) && GoodOutputs(v, c, outputs)
    requires Installed(v, CompactionEdit(c, outputs), after)
    ensures Versions.Valid(after)
  {
    CompactionKeepsShallowerNewer(v, c, outputs, after);
    CompactedSequences(v, c, outputs, after);
    forall l | 0 <= l < NUM_LEVELS ensures AllWellFormed(after.files[l]) && VB.SortedBy(Order(), after.files[l]) {
      CompactedLevelWellFormed(v, c, outputs, after, l);
    }
    forall l | 1 <= l < NUM_LEVELS ensures PairwiseApart(after.files[l]) {
      CompactedLevelApart(v, c, outputs, after, l);
    }
    CompactedNumbersApart(v, c, outputs, after);
    CompactedLevelZero(v, c, outputs, after);
    ValidFromParts(after);
  }

  lemma CompactedLevelWellFormed(v: Version, c: Inputs, outputs: seq<File>, after: Version, l: nat)
    requires Versions.Valid(v) && GoodInputs(v, c) && GoodOutputs(v, c, outputs)
    requires Installed(v, CompactionEdit(c, outputs), after) && l < NUM_LEVELS
    ensures |after.files| == NUM_LEVELS && AllWellFormed(after.files[l]) && VB.SortedBy(Order(), after.files[l])
  {
    CompactedLevel(v, c, outputs, after, l);
    forall i | 0 <= i < |after.files[l]| ensures WellFormed(after.files[l][i]) {
      assert after.files[l][i] in after.files[l];
    }
  }

  lemma OutputNumberIsNew(v: Version, c: Inputs, outputs: seq<File>, o: File, l: nat, g: File)
    requires Versions.Valid(v) && GoodInputs(v, c) && GoodOutputs(v, c, outputs)
    requires o in outputs && l < NUM_LEVELS && Remains(v, c, l, g)
    ensures o.number != g.number
  {
  }

  lemma CompactedPairNumbers(v: Version, c: Inputs, outputs: seq<File>, l: nat, f: File, m: nat, g: File)
    requires Versions.Valid(v) && GoodInputs(v, c) && GoodOutputs(v, c, outputs)
    requires l < NUM_LEVELS && m < NUM_LEVELS && f.number == g.number
    requires Remains(v, c, l, f) || (l == c.level + 1 && f in outputs)
    requires Remains(v, c, m, g) || (m == c.level + 1 && g in outputs)
    ensures l == m && f == g
  {
    if Remains(v, c, l, f) {
      if Remains(v, c, m, g) {
        NumberUnique(v, l, f, m, g);
      } else {
        OutputNumberIsNew(v, c, outputs, g, l, f);
      }
    } else if Remains(v, c, m, g) {
      OutputNumberIsNew(v, c, outputs, f, m, g);
    }
  }

  lemma CompactedNumbersApart(v: Version, c: Inputs, outputs: seq<File>, after: Version)
    requires Versions.Valid(v) && GoodInputs(v, c) && GoodOutputs(v, c, outputs)
    requires Installed(v, CompactionEdit(c, outputs), after)
    ensures NumbersApart(after)
  {
    CompactedLevel(v, c, outputs, after, 0);
    forall l, m, f, g | 0 <= l < |after.files| && 0 <= m < |after.files| && f in after.files[l] && g in after.files[m]
        && f.number == g.number
      ensures l == m && f == g
    {
      CompactedLevel(v, c, outputs, after, l);
      CompactedLevel(v, c, outputs, after, m);
      CompactedPairNumbers(v, c, outputs, l, f, m, g);
    }
  }

  lemma CompactedLevelZero(v: Version, c: Inputs, outputs: seq<File>, after: Version)
    requires Versions.Valid(v) && GoodInputs(v, c) && GoodOutputs(v, c, outputs)
    requires Installed(v, CompactionEdit(c, outputs), after)
    ensures |after.files| == NUM_LEVELS && NewerByNumber(after.files[0])
  {
    CompactedLevel(v, c, outputs, after, 0);
  }

  lemma CompactedSequences(v: Version, c: Inputs, outputs: seq<File>, after: Version)
    requires Versions.Valid(v) && GoodInputs(v, c) && GoodOutputs(v, c, outputs)
    requires Installed(v, CompactionEdit(c, outputs), after)
    ensures UniqueSequences(EntriesFrom(after, 0))
  {
    CompactedEntries(v, c, outputs, after);
    OldEntries(v, c);
    assert EntriesFrom(after, 0) <= EntriesFrom(v, 0);
  }

  lemma CompactedLevelApart(v: Version, c: Inputs, outputs: seq<File>, after: Version, l: nat)
    requires Versions.Valid(v) && GoodInputs(v, c) && GoodOutputs(v, c, outputs)
    requires Installed(v, CompactionEdit(c, outputs), after) && 1 <= l < NUM_LEVELS
    requires |after.files| == NUM_LEVELS && AllWellFormed(after.files[l])
    ensures PairwiseApart(after.files[l])
  {
    CompactedLevel(v, c, outputs, after, l);
    PartsFromValid(v);
    forall f, g | f in after.files[l] && g in after.files[l] && f != g ensures Apart(f, g) {
      CompactedPairApart(v, c, outputs, l, f, g);
    }
  }

  lemma CompactedPairApart(v: Version, c: Inputs, outputs: seq<File>, l: nat, f: File, g: File)
    requires Versions.Valid(v) && GoodInputs(v, c) && GoodOutputs(v, c, outputs)
    requires 1 <= l < NUM_LEVELS && f != g && PairwiseApart(v.files[l])
    requires Remains(v, c, l, f) || (l == c.level + 1 && f in outputs)
    requires Remains(v, c, l, g) || (l == c.level + 1 && g in outputs)
    ensures Apart(f, g)
  {
    if Remains(v, c, l, f) && !Remains(v, c, l, g) {
      OutputApart(v, c, outputs, f, g);
    } else if Remains(v, c, l, g) && !Remains(v, c, l, f) {
      OutputApart(v, c, outputs, g, f);
    }
  }

  lemma OutputApart(v: Version, c: Inputs, outputs: seq<File>, g: File, o: File)
    requires Versions.Valid(v) && GoodInputs(v, c) && GoodOutputs(v, c, outputs)
    requires g in v.files[c.level + 1] && g !in c.lower && o in outputs
    ensures WellFormed(o) && Apart(g, o)
  {
    var first, last := o.entries[0], o.entries[|o.entries| - 1];
    assert first in o.entries && last in o.entries;
    assert first in EntriesOf(outputs) && last in EntriesOf(outputs);
    LowerFileApart(v, c, g, first);
    LowerFileApart(v, c, g, last);
  }

  /** A flushed memtable becomes one file of level `level`. */
  function FlushEdit(level: nat, f: File): VB.Edit<File> {
    VB.Edit({}, [(level, f)])
  }

  /** The file is newer than everything, and below level zero nothing at its level or above overlaps it. */
  ghost predicate GoodFlush(v: Version, level: nat, f: File)
    requires Versions.Valid(v)
  {
    && level < NUM_LEVELS && WellFormed(f)
    && Shadows(EntrySet(f.entries), EntriesFrom(v, 0))
    && UniqueSequences(EntrySet(f.entries))
    && (forall l, g :: 0 <= l < NUM_LEVELS && g in v.files[l] ==> g.number < f.number)
    && (level > 0 ==> forall l, g :: 0 <= l <= level && g in v.files[l] ==>
          !OverlapsUsers(g, Smallest(f).user, Largest(f).user))
  }

  lemma FlushedLevel(v: Version, level: nat, f: File, after: Version, l: nat)
    requires Versions.Valid(v) && GoodFlush(v, level, f)
    requires Installed(v, FlushEdit(level, f), after) && l < NUM_LEVELS
    ensures |after.files| == NUM_LEVELS
    ensures forall g :: g in after.files[l] <==> g in v.files[l] || (l == level && g == f)
    ensures AllWellFormed(after.files[l]) && VB.SortedBy(Order(), after.files[l])
  {
    InstalledFiles(v, FlushEdit(level, f), after, l);
    assert VB.DeletedAt(FlushEdit(level, f), l) == {};
    forall i | 0 <= i < |after.files[l]| ensures WellFormed(after.files[l][i]) {
      assert after.files[l][i] in after.files[l];
    }
  }

  lemma FlushedEntries(v: Version, level: nat, f: File, after: Version)
    requires Versions.Valid(v) && GoodFlush(v, level, f)
    requires Installed(v, FlushEdit(level, f), after)
    ensures EntriesFrom(after, 0) == EntriesFrom(v, 0) + EntrySet(f.entries)
  {
    FlushedLevel(v, level, f, after, 0);
    forall e | e in EntriesFrom(after, 0) ensures e in EntriesFrom(v, 0) + EntrySet(f.entries) {
      var l :| 0 <= l < |after.files| && e in EntriesOf(after.files[l]);
      var g :| g in after.files[l] && e in g.entries;
      FlushedLevel(v, level, f, after, l);
      assert g in v.files[l] ==> e in EntriesOf(v.files[l]);
    }
    forall e | e in EntriesFrom(v, 0) + EntrySet(f.entries) ensures e in EntriesFrom(after, 0) {
      if e in EntrySet(f.entries) {
        FlushedLevel(v, level, f, after, level);
        assert e in EntriesOf(after.files[level]);
      } else {
        var l :| 0 <= l < |v.files| && e in EntriesOf(v.files[l]);
        FlushedLevel(v, level, f, after, l);
        assert e in EntriesOf(after.files[l]);
      }
    }
  }

  /** An entry of a file that the flushed file shares a user key with is older than the flushed one. */
  lemma FlushedIsNewer(v: Version, level: nat, f: File, a: Entry, m: nat, g: File, b: Entry)
    requires Versions.Valid(v) && GoodFlush(v, level, f)
    requires a in f.entries && m < NUM_LEVELS && g in v.files[m] && b in g.entries && a.key.user == b.key.user
    ensures a.key.sequence > b.key.sequence
    ensures level > 0 ==> m > level
  {
    assert b in EntriesOf(v.files[m]);
    assert b in EntriesFrom(v, 0) && a in EntrySet(f.entries);
    BoundsHold(f, a);
    BoundsHold(g, b);
    assert OverlapsUsers(g, Smallest(f).user, Largest(f).user);
  }

  lemma FlushKeepsShallowerNewer(v: Version, level: nat, f: File, after: Version)
    requires Versions.Valid(v) && GoodFlush(v, level, f)
    requires Installed(v, FlushEdit(level, f), after)
    ensures |after.files| == NUM_LEVELS && ShallowerIsNewer(after)
  {
    FlushedLevel(v, level, f, after, 0);
    forall l, m, a, b | 0 <= l < m < NUM_LEVELS && a in EntriesOf(after.files[l]) && b in EntriesOf(after.files[m]) &&
                        a.key.user == b.key.user
      ensures a.key.sequence > b.key.sequence
    {
      var g :| g in after.files[l] && a in g.entries;
      var h :| h in after.files[m] && b in h.entries;
      FlushedLevel(v, level, f, after, l);
      FlushedLevel(v, level, f, after, m);
      if g in v.files[l] && h in v.files[m] {
        OldLevelsShadow(v, l, g, a, m, h, b);
      } else if h in v.files[m] {
        FlushedIsNewer(v, level, f, a, m, h, b);
      } else {
        assert g in v.files[l];
        FlushedIsNewer(v, level, f, b, l, g, a);
      }
    }
  }

  lemma FlushKeepsNewerByNumber(v: Version, level: nat, f: File, after: Version)
    requires Versions.Valid(v) && GoodFlush(v, level, f)
    requires Installed(v, FlushEdit(level, f), after)
    ensures |after.files| == NUM_LEVELS && NewerByNumber(after.files[0])
  {
    FlushedLevel(v, level, f, after, 0);
    forall g, h | g in after.files[0] && h in after.files[0] && g.number > h.number
      ensures Shadows(EntrySet(g.entries), EntrySet(h.entries))
    {
      if !(g in v.files[0] && h in v.files[0]) {
        assert h in v.files[0];
        forall a, b | a in EntrySet(g.entries) && b in EntrySet(h.entries) && a.key.user == b.key.user
          ensures a.key.sequence > b.key.sequence
        {
          FlushedIsNewer(v, level, f, a, 0, h, b);
        }
      }
    }
  }

  lemma FlushKeepsApart(v: Version, level: nat, f: File, after: Version, l: nat)
    requires Versions.Valid(v) && GoodFlush(v, level, f)
    requires Installed(v, FlushEdit(level, f), after) && 1 <= l < NUM_LEVELS
    ensures |after.files| == NUM_LEVELS && AllWellFormed(after.files[l]) && PairwiseApart(after.files[l])
  {
    FlushedLevel(v, level, f, after, l);
    PartsFromValid(v);
    forall g, h | g in after.files[l] && h in after.files[l] && g != h ensures Apart(g, h) {
      if g !in v.files[l] {
        assert !OverlapsUsers(h, Smallest(f).user, Largest(f).user);
      } else if h !in v.files[l] {
        assert !OverlapsUsers(g, Smallest(f).user, Largest(f).user);
      }
    }
  }

  lemma FlushPairNumbers(v: Version, level: nat, f: File, after: Version, l: nat, g: File, m: nat, h: File)
    requires Versions.Valid(v) && GoodFlush(v, level, f)
    requires Installed(v, FlushEdit(level, f), after)
    requires l < NUM_LEVELS && m < NUM_LEVELS && |after.files| == NUM_LEVELS && g in after.files[l]
            && h in after.files[m]
    requires g.number == h.number
    ensures l == m && g == h
  {
    FlushedLevel(v, level, f, after, l);
    FlushedLevel(v, level, f, after, m);
    if g in v.files[l] && h in v.files[m] {
      NumberUnique(v, l, g, m, h);
    }
  }

  lemma FlushKeepsNumbers(v: Version, level: nat, f: File, after: Version)
    requires Versions.Valid(v) && GoodFlush(v, level, f)
    requires Installed(v, FlushEdit(level, f), after)
    ensures NumbersApart(after)
  {
    FlushedLevel(v, level, f, after, 0);
    forall l, m, g, h | 0 <= l < |after.files| && 0 <= m < |after.files| && g in after.files[l] && h in after.files[m]
        && g.number == h.number
      ensures l == m && g == h
    {
      FlushPairNumbers(v, level, f, after, l, g, m, h);
    }
  }

  lemma FlushedSequences(v: Version, level: nat, f: File, after: Version)
    requires Versions.Valid(v) && GoodFlush(v, level, f)
    requires Installed(v, FlushEdit(level, f), after)
    ensures UniqueSequences(EntriesFrom(after, 0))
  {
    FlushedEntries(v, level, f, after);
  }

  /** Installing a flushed memtable keeps the version valid. */
  lemma FlushKeepsValid(v: Version, level: nat, f: File, after: Version)
    requires Versions.Valid(v) && GoodFlush(v, level, f)
    requires Installed(v, FlushEdit(level, f), after)
    ensures Versions.Valid(after)
  {
    FlushKeepsShallowerNewer(v, level, f, after);
    FlushKeepsNewerByNumber(v, level, f, after);
    FlushKeepsNumbers(v, level, f, after);
    FlushedSequences(v, level, f, after);
    forall l | 0 <= l < NUM_LEVELS ensures AllWellFormed(after.files[l]) && VB.SortedBy(Order(), after.files[l]) {
      FlushedLevel(v, level, f, after, l);
    }
    forall l | 1 <= l < NUM_LEVELS ensures PairwiseApart(after.files[l]) {
      FlushKeepsApart(v, level, f, after, l);
    }
    ValidFromParts(after);
  }
}
