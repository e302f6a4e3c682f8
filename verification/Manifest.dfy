/**
 Installing an edit: every flush, move and compaction yields an edit that the builder can apply, and what
 it computes is the one version that the edit stands for.
 */
module Manifest {
  import opened InternalKeys
  import opened Reads
  import opened Files
  import opened Versions
  import opened Installs
  import VB = VersionBuilder

  ghost predicate DistinctNumbers(S: set<File>) {
    && (forall f :: f in S ==> WellFormed(f))
    && (forall f, g :: f in S && g in S && f.number == g.number ==> f == g)
  }

  /** The order by smallest key and number is a strict total order on well-formed files. */
  lemma FilesAreOrdered(S: set<File>)
    requires DistinctNumbers(S)
    ensures VB.Orders(Order(), S)
  {
    forall a, b | a in S && b in S && a != b ensures Order().before(a, b) || Order().before(b, a) {
      assert BySmallestKey(a, b) || BySmallestKey(b, a);
    }
    forall a, b, c | a in S && b in S && c in S && Order().before(a, b) && Order().before(b, c)
      ensures Order().before(a, c)
    {
      assert BySmallestKey(a, c);
    }
  }

  lemma LevelIsSorted(v: Version, l: nat)
    requires Versions.Valid(v) && l < NUM_LEVELS
    ensures VB.SortedBy(Order(), v.files[l])
  {
    var fs := v.files[l];
    forall i, j | 0 <= i < j < |fs| ensures Order().before(fs[i], fs[j]) {
      if l > 0 {
        BoundsHold(fs[i], fs[i].entries[0]);
      }
      assert BySmallestKey(fs[i], fs[j]);
    }
  }

  /** One edit on one level. */
  lemma LevelTakesEdit(v: Version, edit: VB.Edit<File>, l: nat)
    requires Versions.Valid(v) && l < NUM_LEVELS
    requires DistinctNumbers(VB.Elements(v.files[l]) + VB.AddedAt(edit, l))
    requires forall f, g :: f in VB.AddedAt(edit, l) && g in v.files[l] ==> f.number != g.number
    ensures VB.SortedBy(Order(), v.files[l])
    ensures VB.Orders(Order(), VB.Elements(v.files[l]) + VB.FoldAdded([edit], l))
    ensures VB.NeverAddedTwice(Order(), VB.Elements(v.files[l]), [edit], l)
  {
    LevelIsSorted(v, l);
    assert [edit][..0] == [];
    assert VB.FoldAdded([edit], l) == VB.AddedAt(edit, l);
    FilesAreOrdered(VB.Elements(v.files[l]) + VB.AddedAt(edit, l));
    assert VB.Elements(v.files[l]) + VB.FoldAdded<File>([], l) == VB.Elements(v.files[l]);
  }

  /** A flush yields an edit that the builder can apply. */
  lemma {:induction false} FlushIsReplayable(v: Version, level: nat, f: File)
    requires Versions.Valid(v) && GoodFlush(v, level, f)
    ensures VB.Replayable(Order(), v.files, [FlushEdit(level, f)])
  {
    var edit := FlushEdit(level, f);
    forall l | 0 <= l < NUM_LEVELS
      ensures VB.SortedBy(Order(), v.files[l])
      ensures VB.Orders(Order(), VB.Elements(v.files[l]) + VB.FoldAdded([edit], l))
      ensures VB.NeverAddedTwice(Order(), VB.Elements(v.files[l]), [edit], l)
    {
      AddedExactly(edit, l);
      PartsFromValid(v);
      LevelTakesEdit(v, edit, l);
    }
  }

  /** So does a compaction or a move. */
  lemma {:induction false} CompactionIsReplayable(v: Version, c: Inputs, outputs: seq<File>)
    requires Versions.Valid(v) && GoodInputs(v, c) && GoodOutputs(v, c, outputs)
    ensures VB.Replayable(Order(), v.files, [CompactionEdit(c, outputs)])
  {
    var edit := CompactionEdit(c, outputs);
    forall l | 0 <= l < NUM_LEVELS
      ensures VB.SortedBy(Order(), v.files[l])
      ensures VB.Orders(Order(), VB.Elements(v.files[l]) + VB.FoldAdded([edit], l))
      ensures VB.NeverAddedTwice(Order(), VB.Elements(v.files[l]), [edit], l)
    {
      OutputsFitLevel(v, c, outputs, l);
      LevelTakesEdit(v, edit, l);
    }
  }

  lemma OutputsFitLevel(v: Version, c: Inputs, outputs: seq<File>, l: nat)
    requires Versions.Valid(v) && GoodInputs(v, c) && GoodOutputs(v, c, outputs) && l < NUM_LEVELS
    ensures DistinctNumbers(VB.Elements(v.files[l]) + VB.AddedAt(CompactionEdit(c, outputs), l))
    ensures forall f, g :: f in VB.AddedAt(CompactionEdit(c, outputs), l) && g in v.files[l] ==> f.number != g.number
  {
    OutputsOfLevel(v, c, outputs, l);
    PartsFromValid(v);
  }

  lemma OutputsOfLevel(v: Version, c: Inputs, outputs: seq<File>, l: nat)
    requires Versions.Valid(v) && GoodInputs(v, c) && GoodOutputs(v, c, outputs) && l < NUM_LEVELS
    ensures forall f :: f in VB.AddedAt(CompactionEdit(c, outputs), l) ==> l == c.level + 1 && f in outputs
    ensures forall f, g :: f in VB.AddedAt(CompactionEdit(c, outputs), l) && g in v.files[l] ==> f.number != g.number
    ensures forall f :: f in VB.AddedAt(CompactionEdit(c, outputs), l) ==> WellFormed(f)
  {
    var edit := CompactionEdit(c, outputs);
    AddedExactly(edit, l);
    forall f | (l, f) in edit.newFiles ensures l == c.level + 1 && f in outputs && WellFormed(f) {
      var i :| 0 <= i < |edit.newFiles| && edit.newFiles[i] == (l, f);
      assert outputs[i] == f;
    }
  }

  /** An edit stands for one version only. */
  lemma {:induction false} InstalledIsUnique(v: Version, edit: VB.Edit<File>, a: Version, b: Version)
    requires VB.Replayable(Order(), v.files, [edit])
    requires Installed(v, edit, a) && Installed(v, edit, b)
    ensures a == b
  {
    VB.ReplayRebuildsLists(Order(), v.files, [edit], a.files, b.files);
  }

  /** Builds the next version from the current one and an edit. */
  method LogAndApply(v: Version, edit: VB.Edit<File>) returns (after: Version)
    requires VB.Replayable(Order(), v.files, [edit])
    ensures Installed(v, edit, after)
    ensures forall other :: Installed(v, edit, other) ==> other == after
  {
    var files := VB.ReplayAll(Order(), v.files, [edit]);
    after := Version(files);
    forall other | Installed(v, edit, other) ensures other == after {
      InstalledIsUnique(v, edit, other, after);
    }
  }

  /** The builder turns a flush into the version that holds the new file, and keeps it valid. */
  method InstallFlush(v: Version, level: nat, f: File) returns (after: Version)
    requires Versions.Valid(v) && GoodFlush(v, level, f)
    ensures Versions.Valid(after) && Installed(v, FlushEdit(level, f), after)
    ensures EntriesFrom(after, 0) == EntriesFrom(v, 0) + EntrySet(f.entries)
  {
    FlushIsReplayable(v, level, f);
    after := LogAndApply(v, FlushEdit(level, f));
    FlushKeepsValid(v, level, f, after);
    FlushedEntries(v, level, f, after);
  }

  /** The builder turns the outputs of a compaction into the version that holds them instead of the inputs. */
  method InstallCompactionResults(v: Version, c: Inputs, outputs: seq<File>) returns (after: Version)
    requires Versions.Valid(v) && GoodInputs(v, c) && GoodOutputs(v, c, outputs)
    ensures Versions.Valid(after) && Installed(v, CompactionEdit(c, outputs), after)
    ensures EntriesFrom(after, 0) == RemainingEntries(v, c) + EntriesOf(outputs)
  {
    CompactionIsReplayable(v, c, outputs);
    after := LogAndApply(v, CompactionEdit(c, outputs));
    CompactionKeepsValid(v, c, outputs, after);
    CompactedEntries(v, c, outputs, after);
  }
}
