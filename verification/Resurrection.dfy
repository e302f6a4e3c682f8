/**
 A run of the database that leads to a compaction which brings a deleted key back: the lower level keeps
 the older value of a user key whose tombstone is compacted away.
 */
module Resurrection {
  import opened InternalKeys
  import opened Reads
  import opened Files
  import opened Versions
  import opened Compactions
  import opened Installs
  import opened Straddling
  import opened Database
  import InputSelection
  import VB = VersionBuilder

  const BEFORE := Entry(Key(1.0, 1, Value), [2])
  const OLD_VALUE := Entry(Key(2.0, 2, Value), [1])
  const TOMBSTONE := Entry(Key(2.0, 3, ValueType.Deletion), [])
  const REWRITTEN := Entry(Key(1.0, 4, Value), [3])

  const LOADED := File(2, 2, [BEFORE, OLD_VALUE])
  const DELETED := File(3, 1, [TOMBSTONE])
  const LOWER := File(4, 2, [BEFORE, TOMBSTONE])
  const LEFT_OUT := File(5, 1, [OLD_VALUE])
  const UPPER := File(6, 1, [REWRITTEN])
  const OUTPUT := File(7, 1, [REWRITTEN])

  /** Files at levels one and two only. */
  function Levels(one: seq<File>, two: seq<File>): Version {
    Version([[], one, two, [], [], [], []])
  }

  lemma NoLevels()
    ensures EmptyVersion() == Levels([], [])
  {
    assert EmptyVersion().files == Levels([], []).files;
  }

  // ---------- Versions that have files at two levels ----------

  ghost predicate InOrder(fs: seq<File>) {
    AllWellFormed(fs) && VB.SortedBy(Order(), fs)
  }

  /** Installing an edit in such a version. */
  lemma InstalledLevels(one: seq<File>, two: seq<File>, edit: VB.Edit<File>, one': seq<File>, two': seq<File>)
    requires InOrder(one') && InOrder(two')
    requires forall a :: a in edit.newFiles ==> a.0 == 1 || a.0 == 2
    requires forall f :: f in one' <==> (f in one || (1, f) in edit.newFiles) && f.number !in Installs.Deleted(edit, 1)
    requires forall f :: f in two' <==> (f in two || (2, f) in edit.newFiles) && f.number !in Installs.Deleted(edit, 2)
    ensures Installed(Levels(one, two), edit, Levels(one', two'))
  {
    var before, after := Levels(one, two), Levels(one', two');
    forall l | 0 <= l < NUM_LEVELS && l != 1 && l != 2
      ensures before.files[l] == [] && after.files[l] == []
      ensures forall f :: (l, f) !in edit.newFiles
    {
      forall f ensures (l, f) !in edit.newFiles {
        assert (l, f).0 == l;
      }
    }
    InstalledIf(before, edit, after);
  }

  lemma DeletedNumbers(edit: VB.Edit<File>, level: nat, numbers: set<nat>)
    requires forall a :: a in edit.newFiles ==> a.0 != level || a.1.number !in numbers
    requires forall n :: n in numbers <==> (level, n) in edit.deletedFiles
    ensures Installs.Deleted(edit, level) == numbers
  {
    forall n ensures n in VB.DeletedAt(edit, level) <==> n in numbers {
      if n in numbers {
        assert (level, n).0 == level && (level, n).1 == n;
      }
    }
    AddedExactly(edit, level);
    forall n | n in VB.NumbersOf(Order(), VB.AddedAt(edit, level)) ensures n !in numbers {
      var f :| f in VB.AddedAt(edit, level) && Order().number(f) == n;
      assert (level, f) in edit.newFiles;
    }
  }

  lemma FlushInstalls(one: seq<File>, two: seq<File>, level: nat, f: File, one': seq<File>, two': seq<File>)
    requires level == 1 || level == 2
    requires InOrder(one') && InOrder(two')
    requires one' == if level == 1 then [f] else one
    requires two' == if level == 2 then [f] else two
    requires if level == 1 then one == [] else two == []
    ensures Installed(Levels(one, two), FlushEdit(level, f), Levels(one', two'))
  {
    var edit := FlushEdit(level, f);
    DeletedNumbers(edit, 1, {});
    DeletedNumbers(edit, 2, {});
    InstalledLevels(one, two, edit, one', two');
  }

  lemma CompactionInstalls(c: Inputs, f: File, below: File, outputs: seq<File>, one: seq<File>, two: seq<File>,
                           two': seq<File>)
    requires c.level == 1 && c.upper == {f} && c.lower == {below} && one == [f] && InOrder(two')
    requires forall o :: o in outputs ==> o.number != below.number
    requires forall g :: g in two' <==> (g in two && g.number != below.number) || g in outputs
    ensures Installed(Levels(one, two), CompactionEdit(c, outputs), Levels([], two'))
  {
    var edit := CompactionEdit(c, outputs);
    forall n ensures (1, n) in edit.deletedFiles <==> n in {f.number} {
      assert f in c.upper;
    }
    forall n ensures (2, n) in edit.deletedFiles <==> n in {below.number} {
      assert below in c.lower;
    }
    forall g ensures (2, g) in edit.newFiles <==> g in outputs {
      if g in outputs {
        var i :| 0 <= i < |outputs| && outputs[i] == g;
        assert edit.newFiles[i] == (2, g);
      }
    }
    DeletedNumbers(edit, 1, {f.number});
    DeletedNumbers(edit, 2, {below.number});
    InstalledLevels(one, two, edit, [], two');
  }

  // ---------- The states of the run ----------

  function Start(): State {
    State([], None, EmptyVersion(), 2, 0, [], {})
  }

  function Written(): State {
    Start().(mem := [BEFORE, OLD_VALUE], lastSequence := 2, history := {BEFORE, OLD_VALUE})
  }

  function Snapped(): State {
    Written().(snapshots := [2])
  }

  function Switched(): State {
    Snapped().(mem := [], imm := Some([BEFORE, OLD_VALUE]))
  }

  function Flushed(): State {
    Switched().(imm := None, version := Levels([], [LOADED]), nextFile := 3)
  }

  function Erased(): State {
    Flushed().(mem := [TOMBSTONE], lastSequence := 3, history := {BEFORE, OLD_VALUE, TOMBSTONE})
  }

  function ErasedSwitched(): State {
    Erased().(mem := [], imm := Some([TOMBSTONE]))
  }

  function ErasedFlushed(): State {
    ErasedSwitched().(imm := None, version := Levels([DELETED], [LOADED]), nextFile := 4)
  }

  /** The first compaction ends an output between the tombstone and the value that the snapshot still needs. */
  function Split(): State {
    ErasedFlushed().(version := Levels([], [LOWER, LEFT_OUT]), nextFile := 6)
  }

  function Released(): State {
    Split().(snapshots := [])
  }

  function Rewritten(): State {
    Released().(mem := [REWRITTEN], lastSequence := 4, history := {BEFORE, OLD_VALUE, TOMBSTONE, REWRITTEN})
  }

  function RewrittenSwitched(): State {
    Rewritten().(mem := [], imm := Some([REWRITTEN]))
  }

  /** The file above overlaps only the first of the two files below. */
  function Example(): State {
    RewrittenSwitched().(imm := None, version := Levels([UPPER], [LOWER, LEFT_OUT]), nextFile := 7)
  }

  function FirstInputs(): Inputs {
    Inputs(1, {DELETED}, {LOADED}, TOMBSTONE.key, TOMBSTONE.key)
  }

  function ExampleInputs(): Inputs {
    Inputs(1, {UPPER}, {LOWER}, REWRITTEN.key, REWRITTEN.key)
  }

  /** What the compaction leaves: the old value is the only entry of its user key. */
  function Compacted(): State {
    Example().(version := Levels([], [OUTPUT, LEFT_OUT]), nextFile := 8)
  }

  function Run(): seq<State> {
    [Start(), Written(), Snapped(), Switched(), Flushed(), Erased(), ErasedSwitched(), ErasedFlushed(),
     Split(), Released(), Rewritten(), RewrittenSwitched(), Example()]
  }

  function Steps(): seq<Step> {
    [Write([Op(1.0, Value, [2]), Op(2.0, Value, [1])]), NewSnapshot, SwitchMemtable, Flush(2, LOADED),
     Write([Op(2.0, ValueType.Deletion, [])]), SwitchMemtable, Flush(1, DELETED),
     Compact(FirstInputs(), [BEFORE, TOMBSTONE, OLD_VALUE], [LOWER, LEFT_OUT]), ReleaseSnapshot(0),
     Write([Op(1.0, Value, [3])]), SwitchMemtable, Flush(1, UPPER)]
  }

  // ---------- The steps ----------

  lemma OneWritten(s: State, t: State, op: Op, e: Entry)
    requires s.mem == [] && s.lastSequence < MAX_SEQUENCE
    requires e == Entry(Key(op.user, s.lastSequence + 1, op.kind), op.value)
    requires t == s.(mem := [e], lastSequence := s.lastSequence + 1, history := s.history + {e})
    ensures WriteStep(s, t, [op])
  {
    var batch := [op];
    var N := BatchEntries(batch, s.lastSequence);
    assert e == Entry(Key(batch[0].user, s.lastSequence + 1 + 0, batch[0].kind), batch[0].value);
    assert N == {e};
  }

  lemma FirstWrite(s: State, t: State, a: Op, b: Op)
    requires s.mem == [] && s.lastSequence == 0 && s.history == {}
    requires a == Op(1.0, Value, [2]) && b == Op(2.0, Value, [1])
    requires t == s.(mem := [BEFORE, OLD_VALUE], lastSequence := 2, history := {BEFORE, OLD_VALUE})
    ensures WriteStep(s, t, [a, b])
  {
    var batch := [a, b];
    var N := BatchEntries(batch, s.lastSequence);
    assert BEFORE == Entry(Key(batch[0].user, s.lastSequence + 1 + 0, batch[0].kind), batch[0].value);
    assert OLD_VALUE == Entry(Key(batch[1].user, s.lastSequence + 1 + 1, batch[1].kind), batch[1].value);
    assert N == {BEFORE, OLD_VALUE};
  }

  /** A memtable is flushed to a level that, like the ones above it, is empty. */
  lemma OneFlushed(s: State, t: State, level: nat, f: File, one: seq<File>, two: seq<File>, one': seq<File>,
                   two': seq<File>)
    requires Versions.Valid(s.version) && s.imm == Some(f.entries) && WellFormed(f) && f.number == s.nextFile
    requires level == 1 || level == 2
    requires s.version == Levels(one, two) && one == [] && (level == 2 ==> two == [])
    requires one' == if level == 1 then [f] else one
    requires two' == if level == 2 then [f] else two
    requires InOrder(one') && InOrder(two')
    requires t == s.(imm := None, version := Levels(one', two'), nextFile := s.nextFile + 1)
    ensures FlushStep(s, t, level, f)
  {
    FlushInstalls(one, two, level, f, one', two');
    assert forall l :: 0 <= l <= level ==> s.version.files[l] == [];
  }

  lemma FilesInOrder()
    ensures InOrder([]) && InOrder([LOADED]) && InOrder([DELETED]) && InOrder([UPPER])
    ensures InOrder([LOWER, LEFT_OUT]) && InOrder([OUTPUT, LEFT_OUT])
  {
    assert BySmallestKey(LOWER, LEFT_OUT) && BySmallestKey(OUTPUT, LEFT_OUT);
  }

  lemma FlushLoaded(s: State, t: State)
    requires s == Switched() && t == Flushed() && Versions.Valid(s.version)
    ensures FlushStep(s, t, 2, LOADED)
  {
    FilesInOrder();
    NoLevels();
    OneFlushed(s, t, 2, LOADED, [], [], [], [LOADED]);
  }

  lemma FlushDeleted(s: State, t: State)
    requires s == ErasedSwitched() && t == ErasedFlushed() && Versions.Valid(s.version)
    ensures FlushStep(s, t, 1, DELETED)
  {
    FilesInOrder();
    OneFlushed(s, t, 1, DELETED, [], [LOADED], [DELETED], [LOADED]);
  }

  lemma FlushRewritten(s: State, t: State)
    requires s == RewrittenSwitched() && t == Example() && Versions.Valid(s.version)
    ensures FlushStep(s, t, 1, UPPER)
  {
    FilesInOrder();
    OneFlushed(s, t, 1, UPPER, [], [LOWER, LEFT_OUT], [UPPER], [LOWER, LEFT_OUT]);
  }

  /** With one upper file and one lower file that overlaps it, the inputs are good. */
  lemma OneOverOne(v: Version, c: Inputs, f: File, below: File, two: seq<File>)
    requires Versions.Valid(v) && v == Levels([f], two) && below in two && WellFormed(f) && AllWellFormed(two)
    requires c == Inputs(1, {f}, {below}, Smallest(f), Largest(f))
    requires forall g :: g in two ==> (OverlapsUsers(g, Smallest(f).user, Largest(f).user) <==> g == below)
    ensures GoodInputs(v, c)
    ensures InputEntries(c) == EntrySet(f.entries) + EntrySet(below.entries)
  {
    assert v.files[c.level] == [f] && v.files[c.level + 1] == two;
    assert c.upper + c.lower == {f, below};
    BoundsHold(f, f.entries[0]);
  }

  /** At snapshot 2 the merge keeps everything: the tombstone is newer than the snapshot. */
  lemma FirstKept(v: Version, m: seq<Entry>)
    requires Versions.Valid(v) && m == [BEFORE, TOMBSTONE, OLD_VALUE]
    ensures Kept(v, 1, m, |m|, 2) == m
  {
    assert !Hidden(m, 0, 2) && !Hidden(m, 1, 2) && !Hidden(m, 2, 2);
    assert Kept(v, 1, m, 1, 2) == [BEFORE];
    assert Kept(v, 1, m, 2, 2) == [BEFORE, TOMBSTONE];
  }

  lemma FlattenTwo(a: File, b: File)
    ensures Flatten([a, b]) == a.entries + b.entries
  {
    assert [a, b][1..] == [b] && [b][1..] == [];
    assert Flatten([b]) == b.entries;
  }

  /** A compaction of the one upper file with the one lower file that it overlaps. */
  lemma OneCompacted(s: State, t: State, c: Inputs, f: File, below: File, two: seq<File>,
                     merged: seq<Entry>, outputs: seq<File>, two': seq<File>)
    requires Versions.Valid(s.version) && s.version == Levels([f], two) && GoodInputs(s.version, c)
    requires c.level == 1 && c.upper == {f} && c.lower == {below}
    requires Sorted(merged) && EntrySet(merged) == InputEntries(c)
    requires forall i :: 0 <= i < |outputs| ==> |outputs[i].entries| > 0 && outputs[i].number == s.nextFile + i
    requires Flatten(outputs) == Kept(s.version, 1, merged, |merged|, SmallestSnapshot(s))
    requires InOrder(two') && forall o :: o in outputs ==> o.number != below.number
    requires forall g :: g in two' <==> (g in two && g.number != below.number) || g in outputs
    requires t == s.(version := Levels([], two'), nextFile := s.nextFile + |outputs|)
    ensures CompactStep(s, t, c, merged, outputs)
  {
    CompactionInstalls(c, f, below, outputs, [f], two, two');
  }

  lemma NewTombstonesAreKept(s: State, c: Inputs)
    requires Versions.Valid(s.version) && GoodInputs(s.version, c)
    requires forall e :: e in InputEntries(c) && e.key.kind.Deletion? ==> e.key.sequence > SmallestSnapshot(s)
    ensures NothingUncovered(s, c)
  {
  }

  lemma FirstInputsGood(s: State, c: Inputs)
    requires s == ErasedFlushed() && Versions.Valid(s.version) && c == FirstInputs()
    ensures GoodInputs(s.version, c)
    ensures InputEntries(c) == {BEFORE, TOMBSTONE, OLD_VALUE}
  {
    OneOverOne(s.version, c, DELETED, LOADED, [LOADED]);
  }

  lemma FirstCompaction(s: State, t: State, c: Inputs, m: seq<Entry>)
    requires s == ErasedFlushed() && t == Split() && Versions.Valid(s.version)
    requires c == FirstInputs() && m == [BEFORE, TOMBSTONE, OLD_VALUE]
    ensures CompactStep(s, t, c, m, [LOWER, LEFT_OUT])
  {
    FirstInputsGood(s, c);
    FirstKept(s.version, m);
    var outputs := SplitOutputs(m);
    FirstInstalled(s, t, c, m, outputs);
  }

  lemma FirstIsSafe(s: State, c: Inputs)
    requires s == ErasedFlushed() && Versions.Valid(s.version) && c == FirstInputs()
    ensures GoodInputs(s.version, c) && NothingUncovered(s, c)
  {
    FirstInputsGood(s, c);
    NewTombstonesAreKept(s, c);
  }

  lemma FirstInstalled(s: State, t: State, c: Inputs, m: seq<Entry>, outputs: seq<File>)
    requires Versions.Valid(s.version) && s.version == Levels([DELETED], [LOADED]) && GoodInputs(s.version, c)
    requires c == FirstInputs() && Sorted(m) && EntrySet(m) == InputEntries(c)
    requires s.nextFile == 4 && t == s.(version := Levels([], outputs), nextFile := 6)
    requires outputs == [LOWER, LEFT_OUT] && InOrder(outputs)
    requires Flatten(outputs) == Kept(s.version, 1, m, |m|, SmallestSnapshot(s))
    requires forall i :: 0 <= i < |outputs| ==> |outputs[i].entries| > 0 && outputs[i].number == 4 + i
    ensures CompactStep(s, t, c, m, outputs)
  {
    OneCompacted(s, t, c, DELETED, LOADED, [LOADED], m, outputs, outputs);
  }

  lemma SplitOutputs(m: seq<Entry>) returns (outputs: seq<File>)
    requires m == [BEFORE, TOMBSTONE, OLD_VALUE]
    ensures outputs == [LOWER, LEFT_OUT] && Flatten(outputs) == m && InOrder(outputs)
    ensures forall i :: 0 <= i < |outputs| ==> |outputs[i].entries| > 0 && outputs[i].number == 4 + i
    ensures Sorted(m) && EntrySet(m) == {BEFORE, TOMBSTONE, OLD_VALUE}
  {
    outputs := [LOWER, LEFT_OUT];
    FlattenTwo(LOWER, LEFT_OUT);
    FilesInOrder();
  }

  /** The writes of the run, the flushes, and the other steps. */
  lemma Writes(i: nat, s: State, t: State, step: Step)
    requires (i == 0 || i == 4 || i == 9) && s == Run()[i] && t == Run()[i + 1] && step == Steps()[i]
    ensures Next(s, t, step)
  {
    if i == 0 {
      FirstWrite(s, t, Op(1.0, Value, [2]), Op(2.0, Value, [1]));
    } else if i == 4 {
      OneWritten(s, t, Op(2.0, ValueType.Deletion, []), TOMBSTONE);
    } else {
      OneWritten(s, t, Op(1.0, Value, [3]), REWRITTEN);
    }
  }

  lemma Flushes(i: nat, s: State, t: State, step: Step)
    requires i == 3 || i == 6 || i == 11
    requires s == Run()[i] && t == Run()[i + 1] && step == Steps()[i] && Versions.Valid(s.version)
    ensures Next(s, t, step)
  {
    if i == 3 {
      FlushLoaded(s, t);
    } else if i == 6 {
      FlushDeleted(s, t);
    } else {
      FlushRewritten(s, t);
    }
  }

  lemma OtherSteps(i: nat, s: State, t: State, step: Step)
    requires i == 1 || i == 2 || i == 5 || i == 8 || i == 10
    requires s == Run()[i] && t == Run()[i + 1] && step == Steps()[i]
    ensures Next(s, t, step)
  {
    if i == 8 {
      assert s.snapshots[..0] + s.snapshots[1..] == [];
    }
  }

  lemma StepTaken(i: nat, s: State, t: State, step: Step)
    requires i < 12 && s == Run()[i] && t == Run()[i + 1] && step == Steps()[i] && Inv(s)
    ensures Next(s, t, step)
  {
    if i == 0 || i == 4 || i == 9 {
      Writes(i, s, t, step);
    } else if i == 3 || i == 6 || i == 11 {
      Flushes(i, s, t, step);
    } else if i == 7 {
      FirstCompaction(s, t, FirstInputs(), [BEFORE, TOMBSTONE, OLD_VALUE]);
      FirstIsSafe(s, FirstInputs());
    } else {
      OtherSteps(i, s, t, step);
    }
  }

  /** The first `n` steps of a run can be taken, because the invariant carries over each of them. */
  lemma {:induction false} StepsAreTaken(run: seq<State>, steps: seq<Step>, n: nat)
    requires |run| == |steps| + 1 && Init(run[0]) && n <= |steps|
    requires forall i :: 0 <= i < |steps| && Inv(run[i]) ==> Next(run[i], run[i + 1], steps[i])
    ensures Inv(run[n]) && forall i :: 0 <= i < n ==> Next(run[i], run[i + 1], steps[i])
  {
    if n == 0 {
      InitHolds(run[0]);
    } else {
      StepsAreTaken(run, steps, n - 1);
      NextKeepsInv(run[n - 1], run[n], steps[n - 1]);
    }
  }

  /** Twelve ordinary steps lead from an empty database to the example. */
  lemma {:induction false} ExampleIsReachable()
    ensures IsRun(Run(), Steps()) && Run()[12] == Example() && Inv(Example())
  {
    forall i | 0 <= i < |Steps()| && Inv(Run()[i]) ensures Next(Run()[i], Run()[i + 1], Steps()[i]) {
      StepTaken(i, Run()[i], Run()[i + 1], Steps()[i]);
    }
    StepsAreTaken(Run(), Steps(), 12);
  }

  // ---------- The compaction that brings the key back ----------

  lemma ExampleInputsGood(s: State, c: Inputs)
    requires s == Example() && c == ExampleInputs() && Versions.Valid(s.version)
    ensures GoodInputs(s.version, c)
    ensures InputEntries(c) == {REWRITTEN, BEFORE, TOMBSTONE}
  {
    OneOverOne(s.version, c, UPPER, LOWER, [LOWER, LEFT_OUT]);
  }

  lemma ExampleIsValid(v: Version)
    requires v == Levels([UPPER], [LOWER, LEFT_OUT])
    ensures Versions.Valid(v) && v.files[1] == [UPPER]
  {
    ExampleIsReachable();
  }

  /** Whatever compaction of level one is picked next, its inputs are these. */
  method PickNext(s: State, pointer: Option<Key>, seekFile: Option<File>, sizeLimit: nat) returns (c: Inputs)
    requires s == Example() && (seekFile.Some? ==> seekFile.value == UPPER)
    ensures c == ExampleInputs()
  {
    ExampleIsValid(s.version);
    ExampleInputsGood(s, ExampleInputs());
    var upper, lower, smallest, largest := InputSelection.PickCompaction(s.version, 1, pointer, seekFile, sizeLimit);
    c := Inputs(1, (set f | f in upper), (set f | f in lower), smallest, largest);
    assert c == Inputs(1, FileSet(upper), FileSet(lower), smallest, largest);
    OnlyChoice(s.version, c, upper);
  }

  lemma OnlyChoice(v: Version, c: Inputs, upper: seq<File>)
    requires Versions.Valid(v) && v == Example().version && GoodInputs(v, c) && GoodInputs(v, ExampleInputs())
    requires c.level == 1 && c.upper == FileSet(upper) && AllWellFormed(upper)
    requires InputSelection.IsSmallest(upper, c.smallest) && InputSelection.IsLargest(upper, c.largest)
    ensures c == ExampleInputs()
  {
    assert v.files[1] == [UPPER];
    forall f | f in upper ensures f == UPPER {
      assert f in FileSet(upper) && f in v.files[1];
    }
    assert c.upper == {UPPER};
    assert c.smallest == REWRITTEN.key && c.largest == REWRITTEN.key;
    forall g ensures g in c.lower <==> g in ExampleInputs().lower {
    }
  }

  lemma LastKept(v: Version, m: seq<Entry>)
    requires Versions.Valid(v) && m == [REWRITTEN, BEFORE, TOMBSTONE]
    requires IsBaseLevel(v, 1, 2.0)
    ensures Kept(v, 1, m, |m|, 4) == [REWRITTEN]
  {
    assert !Hidden(m, 0, 4) && Hidden(m, 1, 4);
    assert ObsoleteTombstone(v, 1, m[2], 4);
    assert Kept(v, 1, m, 1, 4) == [REWRITTEN];
    assert Kept(v, 1, m, 2, 4) == [REWRITTEN];
  }

  lemma NothingDeeper(v: Version, user: UserKey)
    requires Versions.Valid(v) && v == Example().version
    ensures IsBaseLevel(v, 1, user)
  {
  }

  lemma FlattenOne(a: File)
    ensures Flatten([a]) == a.entries
  {
    assert [a][1..] == [];
  }

  lemma LastCompaction(s: State, t: State, c: Inputs, m: seq<Entry>)
    requires s == Example() && t == Compacted() && Versions.Valid(s.version)
    requires c == ExampleInputs() && m == [REWRITTEN, BEFORE, TOMBSTONE]
    ensures CompactStep(s, t, c, m, [OUTPUT])
  {
    ExampleInputsGood(s, c);
    NothingDeeper(s.version, 2.0);
    LastKept(s.version, m);
    var outputs := LastOutputs(m);
    LastInstalled(s, t, c, m, outputs);
  }

  lemma LastOutputs(m: seq<Entry>) returns (outputs: seq<File>)
    requires m == [REWRITTEN, BEFORE, TOMBSTONE]
    ensures outputs == [OUTPUT] && Flatten(outputs) == [REWRITTEN] && InOrder([OUTPUT, LEFT_OUT])
    ensures forall i :: 0 <= i < |outputs| ==> |outputs[i].entries| > 0 && outputs[i].number == 7 + i
    ensures forall g :: g in [OUTPUT, LEFT_OUT] <==>
            (g in [LOWER, LEFT_OUT] && g.number != LOWER.number) || g in outputs
    ensures Sorted(m) && EntrySet(m) == {REWRITTEN, BEFORE, TOMBSTONE}
  {
    outputs := [OUTPUT];
    FlattenOne(OUTPUT);
    FilesInOrder();
  }

  lemma LastInstalled(s: State, t: State, c: Inputs, m: seq<Entry>, outputs: seq<File>)
    requires Versions.Valid(s.version) && s.version == Levels([UPPER], [LOWER, LEFT_OUT]) && GoodInputs(s.version, c)
    requires c == ExampleInputs() && Sorted(m) && EntrySet(m) == InputEntries(c)
    requires s.nextFile == 7 && t == s.(version := Levels([], [OUTPUT, LEFT_OUT]), nextFile := 8)
    requires outputs == [OUTPUT] && InOrder([OUTPUT, LEFT_OUT])
    requires Flatten(outputs) == Kept(s.version, 1, m, |m|, SmallestSnapshot(s))
    requires forall i :: 0 <= i < |outputs| ==> |outputs[i].entries| > 0 && outputs[i].number == 7 + i
    requires forall g :: g in [OUTPUT, LEFT_OUT] <==>
            (g in [LOWER, LEFT_OUT] && g.number != LOWER.number) || g in outputs
    ensures CompactStep(s, t, c, m, outputs)
  {
    OneCompacted(s, t, c, UPPER, LOWER, [LOWER, LEFT_OUT], m, outputs, [OUTPUT, LEFT_OUT]);
  }

  lemma CompactedHolds(t: State)
    requires t == Compacted()
    ensures Stored(t) == {REWRITTEN, OLD_VALUE}
  {
    var v := t.version;
    assert v.files[2] == [OUTPUT, LEFT_OUT];
    assert OUTPUT in v.files[2] && LEFT_OUT in v.files[2];
    assert REWRITTEN in OUTPUT.entries && OLD_VALUE in LEFT_OUT.entries;
    assert REWRITTEN in EntriesOf(v.files[2]) && OLD_VALUE in EntriesOf(v.files[2]);
    forall e | e in EntriesFrom(v, 0) ensures e in {REWRITTEN, OLD_VALUE} {
      var l :| 0 <= l < |v.files| && e in EntriesOf(v.files[l]);
      var f :| f in v.files[l] && e in f.entries;
    }
  }

  /**
     A reachable state, and the compaction that must be picked in it: before, the key is deleted at the only
     snapshot there is; after, a read finds the old value.
   */
  lemma {:induction false} DropRuleCanResurrect(s: State, t: State, c: Inputs)
    requires s == Run()[12] && c == ExampleInputs() && t == Compacted()
    ensures IsRun(Run(), Steps()) && Inv(s)
    ensures CompactStep(s, t, c, [REWRITTEN, BEFORE, TOMBSTONE], [OUTPUT])
    ensures Answer(Stored(s), 2.0, s.lastSequence) == None
    ensures Answer(Stored(t), 2.0, t.lastSequence) == Some(OLD_VALUE.value)
    ensures !NothingUncovered(s, c)
  {
    ExampleIsReachable();
    LastCompaction(s, t, c, [REWRITTEN, BEFORE, TOMBSTONE]);
    CompactedHolds(t);
    ReadBefore(s);
    ReadAfter(Stored(t));
    CompactionIsSafeExactly(s, t, c, [REWRITTEN, BEFORE, TOMBSTONE], [OUTPUT]);
  }

  lemma ReadBefore(s: State)
    requires s == Example() && Inv(s)
    ensures Answer(s.history, 2.0, 4) == None && Answer(Stored(s), 2.0, 4) == None
  {
    assert IsNewest(s.history, 2.0, 4, TOMBSTONE);
    LookupIs(s.history, 2.0, 4, TOMBSTONE);
    assert ReadsUnchanged(s.history, Stored(s), SmallestSnapshot(s));
  }

  lemma ReadAfter(stored: set<Entry>)
    requires stored == {REWRITTEN, OLD_VALUE}
    ensures Answer(stored, 2.0, 4) == Some(OLD_VALUE.value)
  {
    assert IsNewest(stored, 2.0, 4, OLD_VALUE);
    LookupIs(stored, 2.0, 4, OLD_VALUE);
  }
}
