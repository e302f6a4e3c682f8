/**
 The database as a state machine: writes, memtable switches, flushes, moves, compactions and snapshots.
 Every run keeps the level invariant, and every live snapshot reads what the history of writes says.
 */
module Database {
  import opened InternalKeys
  import opened Reads
  import opened Files
  import opened Versions
  import opened Compactions
  import opened Installs
  import opened Straddling
  import opened CompactionWork
  import Cursors

  /** `history` holds every entry ever written; the other components are what is stored. */
  datatype State = State(
    mem: seq<Entry>,
    imm: Option<seq<Entry>>,
    version: Version,
    nextFile: nat,
    lastSequence: nat,
    snapshots: seq<nat>,
    history: set<Entry>)

  ghost function ImmEntries(s: State): set<Entry> {
    match s.imm
    case Some(es) => EntrySet(es)
    case None => {}
  }

  ghost function Stored(s: State): set<Entry> {
    EntrySet(s.mem) + (ImmEntries(s) + EntriesFrom(s.version, 0))
  }

  /** The oldest live snapshot, or the current sequence number if there is none. */
  function SmallestSnapshot(s: State): nat {
    if s.snapshots == [] then s.lastSequence else s.snapshots[0]
  }

  ghost predicate Inv(s: State) {
    && Sorted(s.mem)
    && (s.imm.Some? ==> Sorted(s.imm.value))
    && Versions.Valid(s.version)
    && Shadows(EntrySet(s.mem), ImmEntries(s) + EntriesFrom(s.version, 0))
    && Shadows(ImmEntries(s), EntriesFrom(s.version, 0))
    && Stored(s) <= s.history
    && UniqueSequences(s.history)
    && (forall e :: e in s.history ==> e.key.sequence <= s.lastSequence)
    && (forall l, f :: 0 <= l < NUM_LEVELS && f in s.version.files[l] ==> f.number < s.nextFile)
    && SnapshotsAscend(s.snapshots, s.lastSequence)
    && ReadsUnchanged(s.history, Stored(s), SmallestSnapshot(s))
  }

  ghost predicate SnapshotsAscend(snapshots: seq<nat>, lastSequence: nat) {
    && (forall i, j :: 0 <= i < j < |snapshots| ==> snapshots[i] <= snapshots[j])
    && (forall i :: 0 <= i < |snapshots| ==> snapshots[i] <= lastSequence)
  }

  ghost predicate Init(s: State) {
    s == State([], None, EmptyVersion(), 2, 0, [], {})
  }

  function EmptyVersion(): Version {
    Version(seq(NUM_LEVELS, _ => []))
  }

  // ---------- Steps ----------

  /** The entries of a batch get consecutive sequence numbers. */
  ghost function BatchEntries(batch: seq<Op>, lastSequence: nat): set<Entry> {
    set i | 0 <= i < |batch| :: Entry(Key(batch[i].user, lastSequence + 1 + i, batch[i].kind), batch[i].value)
  }

  ghost predicate WriteStep(s: State, t: State, batch: seq<Op>) {
    && s.lastSequence + |batch| <= MAX_SEQUENCE
    && Sorted(t.mem)
    && EntrySet(t.mem) == EntrySet(s.mem) + BatchEntries(batch, s.lastSequence)
    && t == s.(mem := t.mem, lastSequence := s.lastSequence + |batch|,
               history := s.history + BatchEntries(batch, s.lastSequence))
  }

  ghost predicate SwitchMemtableStep(s: State, t: State) {
    s.imm.None? && t == s.(mem := [], imm := Some(s.mem))
  }

  /** The immutable memtable becomes a file at `level`; an empty one leaves no file. */
  ghost predicate FlushStep(s: State, t: State, level: nat, f: File) {
    && Versions.Valid(s.version)
    && s.imm.Some?
    && t == s.(imm := None, version := t.version, nextFile := s.nextFile + 1)
    && if s.imm.value == [] then t.version == s.version
       else && f.number == s.nextFile && f.entries == s.imm.value
            && Sorted(f.entries)
            && PickedLevel(s.version, level, f)
            && Installed(s.version, FlushEdit(level, f), t.version)
  }

  /** What the choice of the flush level promises. */
  ghost predicate PickedLevel(v: Version, level: nat, f: File)
    requires Versions.Valid(v) && WellFormed(f)
  {
    && level <= MAX_MEM_COMPACT_LEVEL
    && (level > 0 ==> forall l, g :: 0 <= l <= level && g in v.files[l] ==>
          !OverlapsUsers(g, Smallest(f).user, Largest(f).user))
  }

  /** One upper file and nothing to merge it with: the file changes its level. */
  ghost predicate TrivialMoveStep(s: State, t: State, c: Inputs, f: File) {
    && Versions.Valid(s.version) && GoodInputs(s.version, c)
    && c.upper == {f} && c.lower == {}
    && t == s.(version := t.version)
    && Installed(s.version, CompactionEdit(c, [f]), t.version)
  }

  /** Everything stored outside of the inputs. */
  ghost function Rest(s: State, c: Inputs): set<Entry>
  {
    EntrySet(s.mem) + ImmEntries(s) + RemainingEntries(s.version, c)
  }

  ghost predicate CompactStep(s: State, t: State, c: Inputs, merged: seq<Entry>, outputs: seq<File>) {
    && Versions.Valid(s.version) && GoodInputs(s.version, c)
    && Sorted(merged) && EntrySet(merged) == InputEntries(c)
    && (forall i :: 0 <= i < |outputs| ==> |outputs[i].entries| > 0 && outputs[i].number == s.nextFile + i)
    && Flatten(outputs) == Kept(s.version, c.level, merged, |merged|, SmallestSnapshot(s))
    && t == s.(version := t.version, nextFile := s.nextFile + |outputs|)
    && Installed(s.version, CompactionEdit(c, outputs), t.version)
  }

  /** No tombstone is dropped while the next file of the lower level goes on with a value of its user key. */
  ghost predicate NothingUncovered(s: State, c: Inputs)
    requires Versions.Valid(s.version) && GoodInputs(s.version, c)
  {
    forall user :: !Uncovers(s.version, c, Stored(s), SmallestSnapshot(s), user)
  }

  /** What the compaction loop writes is what the compaction step installs. */
  lemma LoopOutputsFitStep(s: State, c: Inputs, merged: seq<Entry>, outputs: seq<Output>)
    requires Versions.Valid(s.version)
    requires Written(outputs) == Kept(s.version, c.level, merged, |merged|, SmallestSnapshot(s))
    requires (forall o :: o in outputs ==> WellBuilt(o)) && NumberedFrom(outputs, s.nextFile)
    ensures var files := ToFiles(outputs);
            && (forall i :: 0 <= i < |files| ==> |files[i].entries| > 0 && files[i].number == s.nextFile + i)
            && Flatten(files) == Kept(s.version, c.level, merged, |merged|, SmallestSnapshot(s))
  {
    forall i | 0 <= i < |outputs| ensures |outputs[i].entries| > 0 {
      assert outputs[i] in outputs;
    }
  }

  ghost predicate NewSnapshotStep(s: State, t: State) {
    t == s.(snapshots := s.snapshots + [s.lastSequence])
  }

  ghost predicate ReleaseSnapshotStep(s: State, t: State, i: nat) {
    i < |s.snapshots| && t == s.(snapshots := s.snapshots[..i] + s.snapshots[i + 1..])
  }

  datatype Step =
    | Write(batch: seq<Op>)
    | SwitchMemtable
    | Flush(level: nat, f: File)
    | TrivialMove(c: Inputs, f: File)
    | Compact(c: Inputs, merged: seq<Entry>, outputs: seq<File>)
    | NewSnapshot
    | ReleaseSnapshot(i: nat)

  ghost predicate Next(s: State, t: State, step: Step) {
    match step
    case Write(batch) => WriteStep(s, t, batch)
    case SwitchMemtable => SwitchMemtableStep(s, t)
    case Flush(level, f) => FlushStep(s, t, level, f)
    case TrivialMove(c, f) => TrivialMoveStep(s, t, c, f)
    case Compact(c, merged, outputs) => CompactStep(s, t, c, merged, outputs) && NothingUncovered(s, c)
    case NewSnapshot => NewSnapshotStep(s, t)
    case ReleaseSnapshot(i) => ReleaseSnapshotStep(s, t, i)
  }

  // ---------- The invariant ----------

  lemma EmptyVersionValid()
    ensures Versions.Valid(EmptyVersion()) && EntriesFrom(EmptyVersion(), 0) == {}
  {
    assert forall l :: 0 <= l < NUM_LEVELS ==> EmptyVersion().files[l] == [];
    forall l | 0 <= l < NUM_LEVELS ensures EntriesOf(EmptyVersion().files[l]) == {} {}
  }

  lemma InitHolds(s: State)
    requires Init(s)
    ensures Inv(s)
  {
    EmptyVersionValid();
    assert Stored(s) == s.history;
  }

  lemma WriteKeepsReads(s: State, N: set<Entry>, user: UserKey, snapshot: nat)
    requires Inv(s) && UniqueSequences(N) && snapshot >= SmallestSnapshot(s)
    requires forall e :: e in N ==> e.key.sequence > s.lastSequence
    ensures Answer(Stored(s) + N, user, snapshot) == Answer(s.history + N, user, snapshot)
  {
    assert N + Stored(s) == Stored(s) + N && N + s.history == s.history + N;
    ShadowedLookup(N, Stored(s), user, snapshot);
    ShadowedLookup(N, s.history, user, snapshot);
    assert Answer(Stored(s), user, snapshot) == Answer(s.history, user, snapshot);
  }

  lemma {:induction false} WriteKeepsInv(s: State, t: State, batch: seq<Op>)
    requires Inv(s) && WriteStep(s, t, batch)
    ensures Inv(t)
  {
    var N := BatchEntries(batch, s.lastSequence);
    assert Stored(t) == Stored(s) + N;
    forall user, snapshot | snapshot >= SmallestSnapshot(t)
      ensures Answer(Stored(t), user, snapshot) == Answer(t.history, user, snapshot)
    {
      WriteKeepsReads(s, N, user, snapshot);
    }
    forall a, b | a in EntrySet(t.mem) && b in ImmEntries(t) + EntriesFrom(t.version, 0) && a.key.user == b.key.user
      ensures a.key.sequence > b.key.sequence
    {
      assert b in Stored(s);
    }
  }

  lemma SwitchKeepsInv(s: State, t: State)
    requires Inv(s) && SwitchMemtableStep(s, t)
    ensures Inv(t)
  {
    assert Stored(t) == Stored(s);
  }

  lemma {:induction false} FlushKeepsInv(s: State, t: State, level: nat, f: File)
    requires Inv(s) && FlushStep(s, t, level, f)
    ensures Inv(t)
  {
    if s.imm.value == [] {
      assert Stored(t) == Stored(s);
    } else {
      assert EntrySet(f.entries) == ImmEntries(s);
      assert UniqueSequences(ImmEntries(s)) by {
        assert ImmEntries(s) <= Stored(s);
      }
      assert GoodFlush(s.version, level, f);
      FlushKeepsValid(s.version, level, f, t.version);
      FlushedEntries(s.version, level, f, t.version);
      assert Stored(t) == Stored(s);
      forall l, g | 0 <= l < NUM_LEVELS && g in t.version.files[l] ensures g.number < t.nextFile {
        FlushedLevel(s.version, level, f, t.version, l);
      }
    }
  }

  /** After a change that only touches levels, what is left to show. */
  lemma LevelsChanged(s: State, t: State)
    requires Inv(s) && Versions.Valid(t.version)
    requires t == s.(version := t.version, nextFile := t.nextFile)
    requires EntriesFrom(t.version, 0) <= EntriesFrom(s.version, 0)
    requires forall l, f :: 0 <= l < NUM_LEVELS && f in t.version.files[l] ==> f.number < t.nextFile
    requires ReadsUnchanged(Stored(s), Stored(t), SmallestSnapshot(s))
    ensures Inv(t)
  {
    assert Stored(t) <= Stored(s);
    forall user, snapshot | snapshot >= SmallestSnapshot(t)
      ensures Answer(Stored(t), user, snapshot) == Answer(t.history, user, snapshot)
    {
      assert Answer(Stored(s), user, snapshot) == Answer(s.history, user, snapshot);
    }
  }

  lemma StoredParts(s: State, t: State, c: Inputs, outputs: seq<File>)
    requires Inv(s) && GoodInputs(s.version, c) && GoodOutputs(s.version, c, outputs)
    requires t == s.(version := t.version, nextFile := t.nextFile)
    requires Installed(s.version, CompactionEdit(c, outputs), t.version)
    ensures Stored(s) == Rest(s, c) + InputEntries(c)
    ensures Stored(t) == Rest(s, c) + EntriesOf(outputs)
  {
    CompactedEntries(s.version, c, outputs, t.version);
    OldEntries(s.version, c);
    Regroup(EntrySet(s.mem), ImmEntries(s), RemainingEntries(s.version, c), InputEntries(c));
    Regroup(EntrySet(s.mem), ImmEntries(s), RemainingEntries(s.version, c), EntriesOf(outputs));
  }

  lemma Regroup(A: set<Entry>, B: set<Entry>, C: set<Entry>, D: set<Entry>)
    ensures A + (B + (C + D)) == A + B + C + D
  {
  }

  lemma OutputsInstalled(s: State, t: State, c: Inputs, outputs: seq<File>)
    requires Inv(s) && GoodInputs(s.version, c) && GoodOutputs(s.version, c, outputs)
    requires t == s.(version := t.version, nextFile := t.nextFile) && t.nextFile >= s.nextFile
    requires Installed(s.version, CompactionEdit(c, outputs), t.version)
    requires forall o :: o in outputs ==> o.number < t.nextFile
    requires ReadsUnchanged(Rest(s, c) + InputEntries(c), Rest(s, c) + EntriesOf(outputs), SmallestSnapshot(s))
    ensures Inv(t)
  {
    StoredParts(s, t, c, outputs);
    CompactionKeepsValid(s.version, c, outputs, t.version);
    CompactedEntries(s.version, c, outputs, t.version);
    OldEntries(s.version, c);
    forall l, g | 0 <= l < NUM_LEVELS && g in t.version.files[l] ensures g.number < t.nextFile {
      CompactedLevel(s.version, c, outputs, t.version, l);
    }
    LevelsChanged(s, t);
  }

  lemma {:induction false} TrivialMoveKeepsInv(s: State, t: State, c: Inputs, f: File)
    requires Inv(s) && TrivialMoveStep(s, t, c, f)
    ensures Inv(t)
  {
    assert f in c.upper && f in s.version.files[c.level];
    MovedFileIsGoodOutput(s.version, c, f);
    OutputsInstalled(s, t, c, [f]);
  }

  lemma MovedFileIsGoodOutput(v: Version, c: Inputs, f: File)
    requires Versions.Valid(v) && GoodInputs(v, c) && c.upper == {f} && c.lower == {}
    ensures GoodOutputs(v, c, [f]) && EntriesOf([f]) == InputEntries(c)
  {
    assert f in c.upper && f in v.files[c.level];
    PartsFromValid(v);
    assert EntriesOf([f]) == InputEntries(c);
  }

  /** Pieces of a sorted run are sorted and apart. */
  lemma {:induction false} PiecesOfSortedRun(outputs: seq<File>)
    requires Sorted(Flatten(outputs))
    requires forall i :: 0 <= i < |outputs| ==> |outputs[i].entries| > 0
    ensures AllWellFormed(outputs) && Disjoint(outputs)
  {
    if outputs != [] {
      var rest := outputs[1..];
      var head := outputs[0].entries;
      var tail := Flatten(rest);
      assert Flatten(outputs) == head + tail;
      SortedPrefixSuffix(head, tail);
      PiecesOfSortedRun(rest);
      forall i, j | 0 <= i < j < |outputs| ensures WellFormed(outputs[i]) && WellFormed(outputs[j])
          && Less(Largest(outputs[i]), Smallest(outputs[j])) {
        assert outputs[j] == rest[j - 1];
        if i == 0 {
          var e := outputs[j].entries[0];
          assert e in outputs[j].entries && outputs[j] in rest;
          FlattenHolds(rest, e);
          var k :| 0 <= k < |tail| && tail[k] == e;
        } else {
          assert outputs[i] == rest[i - 1];
        }
      }
      forall i | 0 <= i < |outputs| ensures WellFormed(outputs[i]) {
        assert i > 0 ==> outputs[i] == rest[i - 1];
      }
    }
  }

  lemma SortedPrefixSuffix(head: seq<Entry>, tail: seq<Entry>)
    requires Sorted(head + tail)
    ensures Sorted(head) && Sorted(tail)
    ensures forall i, j :: 0 <= i < |head| && 0 <= j < |tail| ==> Less(head[i].key, tail[j].key)
  {
    var all := head + tail;
    forall i, j | 0 <= i < j < |head| ensures Less(head[i].key, head[j].key) {
      assert all[i] == head[i] && all[j] == head[j];
    }
    forall i, j | 0 <= i < j < |tail| ensures Less(tail[i].key, tail[j].key) {
      assert all[|head| + i] == tail[i] && all[|head| + j] == tail[j];
    }
    forall i, j | 0 <= i < |head| && 0 <= j < |tail| ensures Less(head[i].key, tail[j].key) {
      assert all[i] == head[i] && all[|head| + j] == tail[j];
    }
  }

  /** The output files of a compaction hold exactly the survivors of its inputs. */
  lemma CompactionOutputs(s: State, t: State, c: Inputs, merged: seq<Entry>, outputs: seq<File>)
    requires Inv(s) && CompactStep(s, t, c, merged, outputs)
    ensures GoodOutputs(s.version, c, outputs)
    ensures EntriesOf(outputs) == Survivors(s.version, c.level, InputEntries(c), SmallestSnapshot(s))
  {
    CompactedInputsStored(s, c);
    KeptAreSurvivors(s.version, c.level, merged, SmallestSnapshot(s));
    PiecesOfSortedRun(outputs);
    forall o, p | o in outputs && p in outputs && o != p ensures Apart(o, p) {
      DisjointAreApart(outputs, o, p);
    }
    OutputNumbers(outputs, s.nextFile);
    forall e ensures e in EntriesOf(outputs) <==>
        e in Survivors(s.version, c.level, InputEntries(c), SmallestSnapshot(s)) {
      FlattenHolds(outputs, e);
    }
  }

  lemma KeptAreSurvivors(v: Version, level: nat, merged: seq<Entry>, smallestSnapshot: nat)
    requires Versions.Valid(v) && Sorted(merged) && UniqueSequences(EntrySet(merged))
    ensures forall e :: e in Kept(v, level, merged, |merged|, smallestSnapshot) <==>
                          e in Survivors(v, level, EntrySet(merged), smallestSnapshot)
    ensures Sorted(Kept(v, level, merged, |merged|, smallestSnapshot))
  {
    KeptExactly(v, level, merged, |merged|, smallestSnapshot);
    assert merged[..|merged|] == merged;
    assert forall e :: e in merged <==> e in EntrySet(merged);
  }

  lemma OutputNumbers(outputs: seq<File>, first: nat)
    requires forall i :: 0 <= i < |outputs| ==> outputs[i].number == first + i
    ensures forall o :: o in outputs ==> first <= o.number < first + |outputs|
    ensures forall o, p :: o in outputs && p in outputs && o.number == p.number ==> o == p
  {
    forall o, p | o in outputs && p in outputs && o.number == p.number ensures o == p {
      var i :| 0 <= i < |outputs| && outputs[i] == o;
      var j :| 0 <= j < |outputs| && outputs[j] == p;
    }
  }

  lemma CompactedInputsStored(s: State, c: Inputs)
    requires Inv(s) && GoodInputs(s.version, c)
    ensures InputEntries(c) <= EntriesFrom(s.version, 0)
    ensures UniqueSequences(InputEntries(c))
  {
    forall e | e in InputEntries(c) ensures e in EntriesFrom(s.version, 0) {
      var f :| f in c.upper + c.lower && e in f.entries;
      var l := if f in c.upper then c.level else c.level + 1;
      assert f in s.version.files[l];
      assert e in EntriesOf(s.version.files[l]);
    }
  }

  lemma {:induction false} CompactKeepsInv(s: State, t: State, c: Inputs, merged: seq<Entry>, outputs: seq<File>)
    requires Inv(s) && CompactStep(s, t, c, merged, outputs) && NothingUncovered(s, c)
    ensures Inv(t)
  {
    CompactionOutputs(s, t, c, merged, outputs);
    StoredParts(s, t, c, outputs);
    forall user ensures !Resurrected(s.version, c.level, Rest(s, c), InputEntries(c), SmallestSnapshot(s), user) {
      RestResurrectedExactly(s, c, user);
    }
    DropPreservesReadsExactly(s.version, c.level, Rest(s, c), InputEntries(c), SmallestSnapshot(s));
    forall o | o in outputs ensures o.number < t.nextFile {
      var i :| 0 <= i < |outputs| && outputs[i] == o;
    }
    OutputsInstalled(s, t, c, outputs);
  }

  lemma SnapshotsKeepInv(s: State, t: State, i: nat)
    requires Inv(s) && (NewSnapshotStep(s, t) || ReleaseSnapshotStep(s, t, i))
    ensures Inv(t)
  {
    assert Stored(t) == Stored(s);
    assert SmallestSnapshot(t) >= SmallestSnapshot(s);
  }

  /** Releasing a snapshot takes that one off the list and leaves the others in their order; nothing else changes. */
  lemma {:induction false} OthersStayLive(s: State, t: State, i: nat)
    requires ReleaseSnapshotStep(s, t, i)
    ensures t == s.(snapshots := t.snapshots)
    ensures |t.snapshots| + 1 == |s.snapshots|
    ensures forall j :: 0 <= j < |s.snapshots| && j != i ==> t.snapshots[if j < i then j else j - 1] == s.snapshots[j]
    ensures multiset(s.snapshots) == multiset(t.snapshots) + multiset{s.snapshots[i]}
  {
    var before, after := s.snapshots[..i], s.snapshots[i + 1..];
    assert s.snapshots == before + [s.snapshots[i]] + after;
  }

  /** Taking a snapshot keeps the others and adds the current sequence number. */
  lemma NewSnapshotIsAdded(s: State, t: State)
    requires NewSnapshotStep(s, t)
    ensures t == s.(snapshots := t.snapshots) && s.snapshots <= t.snapshots
    ensures multiset(t.snapshots) == multiset(s.snapshots) + multiset{s.lastSequence}
    ensures Readable(t, s.lastSequence)
  {
    assert t.snapshots[|s.snapshots|] == s.lastSequence;
  }

  /** After a batch is written, a read of a key finds the last operation of the batch on it. */
  lemma {:induction false} LastWriteIsRead(s: State, t: State, batch: seq<Op>, i: nat)
    requires Inv(s) && WriteStep(s, t, batch)
    requires i < |batch| && forall j :: i < j < |batch| ==> batch[j].user != batch[i].user
    ensures Answer(Stored(t), batch[i].user, t.lastSequence) ==
              if batch[i].kind.Value? then Some(batch[i].value) else None
  {
    WriteKeepsInv(s, t, batch);
    var e := Entry(Key(batch[i].user, s.lastSequence + 1 + i, batch[i].kind), batch[i].value);
    assert e in BatchEntries(batch, s.lastSequence);
    assert IsNewest(t.history, batch[i].user, t.lastSequence, e);
    LookupIs(t.history, batch[i].user, t.lastSequence, e);
    assert ReadsUnchanged(t.history, Stored(t), SmallestSnapshot(t));
  }

  /** Keys that the batch does not name, and reads at earlier sequence numbers, are as before. */
  lemma {:induction false} OtherReadsStay(s: State, t: State, batch: seq<Op>, user: UserKey, snapshot: nat)
    requires Inv(s) && WriteStep(s, t, batch)
    requires snapshot <= s.lastSequence || forall op :: op in batch ==> op.user != user
    ensures Answer(Stored(t), user, snapshot) == Answer(Stored(s), user, snapshot)
  {
    var N := BatchEntries(batch, s.lastSequence);
    assert Stored(t) == N + Stored(s);
    assert Stored(s) <= s.history;
    assert N !! s.history && UniqueSequences(N);
    ShadowedLookup(N, Stored(s), user, snapshot);
    LookupCharacterized(N, user, snapshot);
    forall e | e in N ensures !Visible(e, user, snapshot) {
      var k :| 0 <= k < |batch| && e == Entry(Key(batch[k].user, s.lastSequence + 1 + k, batch[k].kind),
          batch[k].value);
      assert batch[k] in batch;
    }
  }

  lemma {:induction false} NextKeepsInv(s: State, t: State, step: Step)
    requires Inv(s) && Next(s, t, step)
    ensures Inv(t)
  {
    match step
    case Write(batch) => WriteKeepsInv(s, t, batch);
    case SwitchMemtable => SwitchKeepsInv(s, t);
    case Flush(level, f) => FlushKeepsInv(s, t, level, f);
    case TrivialMove(c, f) => TrivialMoveKeepsInv(s, t, c, f);
    case Compact(c, merged, outputs) => CompactKeepsInv(s, t, c, merged, outputs);
    case NewSnapshot => SnapshotsKeepInv(s, t, 0);
    case ReleaseSnapshot(i) => SnapshotsKeepInv(s, t, i);
  }

  // ---------- Runs ----------

  ghost predicate IsRun(run: seq<State>, steps: seq<Step>) {
    && |run| == |steps| + 1
    && Init(run[0])
    && forall i :: 0 <= i < |steps| ==> Next(run[i], run[i + 1], steps[i])
  }

  lemma {:induction false} RunKeepsInv(run: seq<State>, steps: seq<Step>, i: nat)
    requires IsRun(run, steps) && i < |run|
    ensures Inv(run[i])
  {
    if i == 0 {
      InitHolds(run[0]);
    } else {
      RunKeepsInv(run, steps, i - 1);
      NextKeepsInv(run[i - 1], run[i], steps[i - 1]);
    }
  }

  ghost predicate Readable(s: State, snapshot: nat) {
    snapshot == s.lastSequence || snapshot in s.snapshots
  }

  /** In every state of every run, a read at the current state or at a live snapshot finds the last write. */
  lemma {:induction false} ReadsFollowHistory(run: seq<State>, steps: seq<Step>, i: nat, user: UserKey, snapshot: nat)
    requires IsRun(run, steps) && i < |run| && Readable(run[i], snapshot)
    ensures Answer(Stored(run[i]), user, snapshot) == Answer(run[i].history, user, snapshot)
  {
    RunKeepsInv(run, steps, i);
    assert ReadsUnchanged(run[i].history, Stored(run[i]), SmallestSnapshot(run[i]));
    assert snapshot >= SmallestSnapshot(run[i]);
  }

  /** History only grows, and only with sequence numbers that no earlier snapshot can see. */
  lemma {:induction false} HistoryGrows(run: seq<State>, steps: seq<Step>, i: nat, j: nat)
    requires IsRun(run, steps) && i <= j < |run|
    ensures run[i].lastSequence <= run[j].lastSequence
    ensures run[i].history <= run[j].history
    ensures forall e :: e in run[j].history && e !in run[i].history ==> e.key.sequence > run[i].lastSequence
    decreases j
  {
    if i < j {
      HistoryGrows(run, steps, i, j - 1);
      assert Next(run[j - 1], run[j], steps[j - 1]);
      if steps[j - 1].Write? {
        assert forall e :: e in BatchEntries(steps[j - 1].batch, run[j - 1].lastSequence) ==>
                             e.key.sequence > run[j - 1].lastSequence;
      }
    }
  }

  /** A snapshot keeps its answers however the database moves on, as long as it stays live. */
  lemma {:induction false} SnapshotIsStable(run: seq<State>, steps: seq<Step>, i: nat, j: nat, user: UserKey,
                                            snapshot: nat)
    requires IsRun(run, steps) && i <= j < |run|
    requires Readable(run[i], snapshot) && Readable(run[j], snapshot)
    ensures Answer(Stored(run[j]), user, snapshot) == Answer(Stored(run[i]), user, snapshot)
  {
    ReadsFollowHistory(run, steps, i, user, snapshot);
    ReadsFollowHistory(run, steps, j, user, snapshot);
    HistoryGrows(run, steps, i, j);
    RunKeepsInv(run, steps, i);
    RunKeepsInv(run, steps, j);
    assert snapshot <= run[i].lastSequence;
    SameVisible(run[i].history, run[j].history, user, snapshot);
  }

  lemma SameVisible(A: set<Entry>, B: set<Entry>, user: UserKey, snapshot: nat)
    requires UniqueSequences(A) && UniqueSequences(B) && A <= B
    requires forall e :: e in B && e !in A ==> e.key.sequence > snapshot
    ensures Answer(A, user, snapshot) == Answer(B, user, snapshot)
  {
    LookupCharacterized(A, user, snapshot);
    LookupCharacterized(B, user, snapshot);
    var b := Lookup(B, user, snapshot);
    if b.Some? {
      assert IsNewest(A, user, snapshot, b.value);
    }
  }

  // ---------- The point read ----------

  /** Looks in a memtable; tells whether the search ends here. */
  method MemTableGet(table: seq<Entry>, user: UserKey, snapshot: nat) returns (done: bool, value: Option<Bytes>)
    requires Sorted(table) && UniqueSequences(EntrySet(table))
    ensures done <==> Lookup(EntrySet(table), user, snapshot).Some?
    ensures done ==> value == Answer(EntrySet(table), user, snapshot)
  {
    var p := Cursors.SeekPosition(table, LookupKey(user, snapshot));
    SeekFindsNewest(table, user, snapshot);
    done, value := false, None;
    if p < |table| && table[p].key.user == user {
      done := true;
      match table[p].key.kind {
        case Value => value := Some(table[p].value);
        case Deletion =>
      }
    }
  }

  /** Memtable first, then the immutable one, then the levels; the first hit is the answer. */
  method Get(s: State, user: UserKey, snapshot: nat) returns (value: Option<Bytes>)
    requires Inv(s)
    ensures value == Answer(Stored(s), user, snapshot)
    ensures snapshot >= SmallestSnapshot(s) ==> value == Answer(s.history, user, snapshot)
  {
    assert ReadsUnchanged(s.history, Stored(s), SmallestSnapshot(s));
    var deeper := EntriesFromImm(s);
    ShadowedLookup(EntrySet(s.mem), deeper, user, snapshot);
    ShadowedLookup(ImmEntries(s), EntriesFrom(s.version, 0), user, snapshot);
    var done;
    done, value := MemTableGet(s.mem, user, snapshot);
    if done {
      return;
    }
    if s.imm.Some? {
      done, value := MemTableGet(s.imm.value, user, snapshot);
      if done {
        return;
      }
    } else {
      LookupCharacterized({}, user, snapshot);
    }
    value := Versions.Get(s.version, user, snapshot);
  }

  ghost function EntriesFromImm(s: State): set<Entry> {
    ImmEntries(s) + EntriesFrom(s.version, 0)
  }

  // ---------- When a compaction is safe ----------

  lemma {:induction false} RestResurrectedExactly(s: State, c: Inputs, user: UserKey)
    requires Inv(s) && GoodInputs(s.version, c)
    ensures Resurrected(s.version, c.level, Rest(s, c), InputEntries(c), SmallestSnapshot(s), user) <==>
              Uncovers(s.version, c, Stored(s), SmallestSnapshot(s), user)
  {
    var above := EntrySet(s.mem) + ImmEntries(s);
    assert above + EntriesFrom(s.version, 0) == Stored(s);
    assert above + RemainingEntries(s.version, c) == Rest(s, c);
    assert Above(s.version, above);
    ResurrectedExactly(s.version, c, above, SmallestSnapshot(s), user);
  }

  /**
     What a compaction leaves reads like the history if and only if no file goes on with a value of a dropped
     tombstone's key.
   */
  lemma {:induction false} CompactionIsSafeExactly(s: State, t: State, c: Inputs, merged: seq<Entry>,
                                                   outputs: seq<File>)
    requires Inv(s) && CompactStep(s, t, c, merged, outputs)
    ensures Inv(t) <==> NothingUncovered(s, c)
    ensures ReadsUnchanged(s.history, Stored(t), SmallestSnapshot(s)) <==> NothingUncovered(s, c)
  {
    if ReadsUnchanged(s.history, Stored(t), SmallestSnapshot(s)) {
      SafeUncoversNothing(s, t, c, merged, outputs);
    }
    if NothingUncovered(s, c) {
      CompactKeepsInv(s, t, c, merged, outputs);
    }
  }

  lemma SafeUncoversNothing(s: State, t: State, c: Inputs, merged: seq<Entry>, outputs: seq<File>)
    requires Inv(s) && CompactStep(s, t, c, merged, outputs)
    requires ReadsUnchanged(s.history, Stored(t), SmallestSnapshot(s))
    ensures NothingUncovered(s, c)
  {
    CompactionOutputs(s, t, c, merged, outputs);
    StoredParts(s, t, c, outputs);
    StoredUnchanged(s, Stored(t));
    DropPreservesReadsExactly(s.version, c.level, Rest(s, c), InputEntries(c), SmallestSnapshot(s));
    forall user ensures !Uncovers(s.version, c, Stored(s), SmallestSnapshot(s), user) {
      RestResurrectedExactly(s, c, user);
    }
  }

  lemma StoredUnchanged(s: State, after: set<Entry>)
    requires Inv(s) && ReadsUnchanged(s.history, after, SmallestSnapshot(s))
    ensures ReadsUnchanged(Stored(s), after, SmallestSnapshot(s))
    ensures UniqueSequences(Stored(s))
  {
    forall user, snapshot | snapshot >= SmallestSnapshot(s)
      ensures Answer(after, user, snapshot) == Answer(Stored(s), user, snapshot)
    {
      assert Answer(Stored(s), user, snapshot) == Answer(s.history, user, snapshot);
    }
  }

  /** If no user key straddles the end of the lower inputs, a compaction is safe. */
  lemma {:induction false} BoundaryCleanIsSafe(s: State, c: Inputs)
    requires Inv(s) && GoodInputs(s.version, c) && BoundaryClean(s.version, c)
    ensures NothingUncovered(s, c)
  {
    forall user ensures !Uncovers(s.version, c, Stored(s), SmallestSnapshot(s), user) {
      CleanUncoversNothing(s.version, c, Stored(s), SmallestSnapshot(s), user);
    }
  }
}
