/**
 The compaction as it runs: the base-level check with its per-level cursors, and the loop that
 copies surviving entries from the merged input to output files.
 */
module CompactionWork {
  import opened InternalKeys
  import opened Reads
  import opened Files
  import opened Versions
  import opened Compactions
  import opened Cursors

  class Compaction {
    const version: Version
    const level: nat
    /** Per level, how many files lie wholly before the keys asked about so far. */
    var levelPtrs: seq<nat>
    /** The largest user key asked about. */
    ghost var asked: Option<UserKey>

    constructor (version: Version, level: nat)
      requires Versions.Valid(version)
      ensures this.version == version && this.level == level && asked == None
      ensures Ready()
    {
      this.version := version;
      this.level := level;
      levelPtrs := seq(NUM_LEVELS, _ => 0);
      asked := None;
    }

    ghost predicate Ready()
      reads this
    {
      && Versions.Valid(version)
      && |levelPtrs| == NUM_LEVELS
      && forall l :: 0 <= l < NUM_LEVELS ==> PassedFiles(version.files[l], levelPtrs[l], asked)
    }

    static ghost predicate PassedFiles(files: seq<File>, ptr: nat, asked: Option<UserKey>)
      requires AllWellFormed(files)
    {
      ptr <= |files| && forall i :: 0 <= i < ptr ==> asked.Some? && Largest(files[i]).user < asked.value
    }

    /** Moves the cursor of one level past the files before a user key, and tells whether the next one may hold it. */
    method LevelHolds(lvl: nat, user: UserKey) returns (found: bool)
      requires Ready() && asked == Some(user) && 0 < lvl < NUM_LEVELS
      modifies this`levelPtrs
      ensures Ready()
      ensures found <==> exists f :: f in version.files[lvl] && RangeContains(f, user)
    {
      var files := version.files[lvl];
      while levelPtrs[lvl] < |files|
        invariant Ready()
        decreases |files| - levelPtrs[lvl]
      {
        var f := files[levelPtrs[lvl]];
        if user <= Largest(f).user {
          if user >= Smallest(f).user {
            assert RangeContains(f, user);
            return true;
          }
          break;
        }
        levelPtrs := levelPtrs[lvl := levelPtrs[lvl] + 1];
      }
      NoFileAround(files, levelPtrs[lvl], user);
      found := false;
    }

    /** Callers ask about user keys in ascending order, so the cursors only move forward. */
    method IsBaseLevelForKey(user: UserKey) returns (isBase: bool)
      requires Ready()
      requires asked.Some? ==> asked.value <= user
      modifies this
      ensures Ready() && asked == Some(user)
      ensures isBase == IsBaseLevel(version, level, user)
    {
      asked := Some(user);
      var lvl := level + 2;
      while lvl < NUM_LEVELS
        invariant level + 2 <= lvl
        invariant Ready() && asked == Some(user)
        invariant forall l, f :: level + 2 <= l < lvl && l < NUM_LEVELS && f in version.files[l] ==>
                !RangeContains(f, user)
      {
        var found := LevelHolds(lvl, user);
        if found {
          return false;
        }
        lvl := lvl + 1;
      }
      return true;
    }
  }

  /** Files before the cursor end before the key; if the next one starts after it, so do all later ones. */
  lemma NoFileAround(files: seq<File>, ptr: nat, user: UserKey)
    requires AllWellFormed(files) && Disjoint(files) && ptr <= |files|
    requires forall i :: 0 <= i < ptr ==> Largest(files[i]).user < user
    requires ptr < |files| ==> user < Smallest(files[ptr]).user
    ensures forall f :: f in files ==> !RangeContains(f, user)
  {
    forall f | f in files ensures !RangeContains(f, user) {
      var i :| 0 <= i < |files| && files[i] == f;
      if i > ptr {
        assert Less(Largest(files[ptr]), Smallest(files[i]));
        BoundsHold(files[ptr], files[ptr].entries[0]);
      }
    }
  }

  /** An output file while it is built: the bounds are recorded separately from the entries. */
  datatype Output = Output(number: nat, smallest: Key, largest: Key, entries: seq<Entry>)

  ghost predicate WellBuilt(o: Output) {
    && |o.entries| > 0
    && o.smallest == o.entries[0].key
    && o.largest == o.entries[|o.entries| - 1].key
  }

  /** The table file that an output becomes; its size is counted in entries. */
  function ToFile(o: Output): File {
    File(o.number, |o.entries|, o.entries)
  }

  function ToFiles(outputs: seq<Output>): seq<File> {
    seq(|outputs|, i requires 0 <= i < |outputs| => ToFile(outputs[i]))
  }

  ghost function Written(outputs: seq<Output>): seq<Entry> {
    Flatten(ToFiles(outputs))
  }

  ghost predicate NumberedFrom(outputs: seq<Output>, first: nat) {
    forall i :: 0 <= i < |outputs| ==> outputs[i].number == first + i
  }

  lemma {:induction false} FlattenAppend(fs: seq<File>, f: File)
    ensures Flatten(fs + [f]) == Flatten(fs) + f.entries
  {
    if fs == [] {
      assert (fs + [f])[1..] == [];
    } else {
      assert (fs + [f])[1..] == fs[1..] + [f];
      FlattenAppend(fs[1..], f);
    }
  }

  lemma WrittenAppend(outputs: seq<Output>, o: Output)
    ensures Written(outputs + [o]) == Written(outputs) + o.entries
  {
    assert ToFiles(outputs + [o]) == ToFiles(outputs) + [ToFile(o)];
    FlattenAppend(ToFiles(outputs), ToFile(o));
  }

  /** What the loop remembers of the entries already seen. */
  datatype Memory = Memory(currentUserKey: Option<UserKey>, lastSequenceForKey: nat)

  ghost predicate Remembers(memory: Memory, m: seq<Entry>, i: nat)
    requires i <= |m|
  {
    if i == 0 then memory.currentUserKey == None
    else memory == Memory(Some(m[i - 1].key.user), m[i - 1].key.sequence)
  }

  /** Decides about the entry at position `i` of the merged input from the memory of the previous one. */
  method ShouldDrop(c: Compaction, memory: Memory, key: Key, smallestSnapshot: nat, ghost m: seq<Entry>, ghost i: nat)
    returns (drop: bool, after: Memory)
    requires c.Ready() && Sorted(m) && i < |m| && key == m[i].key && smallestSnapshot < MAX_SEQUENCE
    requires c.asked.Some? ==> i > 0 && c.asked.value <= m[i - 1].key.user
    requires Remembers(memory, m, i)
    modifies c
    ensures c.Ready() && (c.asked.Some? ==> c.asked.value <= m[i].key.user)
    ensures Remembers(after, m, i + 1)
    ensures drop <==> Hidden(m, i, smallestSnapshot) || ObsoleteTombstone(c.version, c.level, m[i], smallestSnapshot)
  {
    assert i > 0 ==> Less(m[i - 1].key, m[i].key);
    drop := false;
    after := memory;
    if after.currentUserKey == None || after.currentUserKey.value != key.user {
      // First occurrence of this user key.
      after := Memory(Some(key.user), MAX_SEQUENCE);
    }
    if after.lastSequenceForKey <= smallestSnapshot {
      // Hidden by a newer entry for the same user key.
      drop := true;
    } else if key.kind == Deletion && key.sequence <= smallestSnapshot {
      drop := c.IsBaseLevelForKey(key.user);
    }
    after := after.(lastSequenceForKey := key.sequence);
  }

  /** Writes an entry to the output file that is being built, or opens the next one. */
  method Emit(outputs: seq<Output>, building: bool, nextFile: nat, entry: Entry) returns (r: seq<Output>)
    requires forall o :: o in outputs ==> WellBuilt(o)
    requires NumberedFrom(outputs, nextFile) && (building ==> |outputs| > 0)
    ensures Written(r) == Written(outputs) + [entry]
    ensures (forall o :: o in r ==> WellBuilt(o)) && |r| > 0
    ensures NumberedFrom(r, nextFile)
    ensures |r| == if building then |outputs| else |outputs| + 1
  {
    if !building {
      r := AddToOutput(outputs, Output(nextFile + |outputs|, entry.key, entry.key, []), entry);
    } else {
      var n := |outputs| - 1;
      assert outputs[n] in outputs;
      assert outputs == outputs[..n] + [outputs[n]];
      WrittenAppend(outputs[..n], outputs[n]);
      r := AddToOutput(outputs[..n], outputs[n], entry);
    }
  }

  /**
   Copies what survives of the merged input into numbered output files.  `stopBefore` and `full`
   stand for the two size heuristics that decide where an output file ends.
   */
  method DoCompactionWork(c: Compaction, input: FlatIterator, smallestSnapshot: nat, nextFile: nat,
                          stopBefore: seq<bool>, full: seq<bool>)
    returns (outputs: seq<Output>)
    requires c.Ready() && c.asked == None
    requires Sorted(input.flat)
    requires |stopBefore| == |full| == |input.flat|
    requires smallestSnapshot < MAX_SEQUENCE
    modifies c, input
    ensures Written(outputs) == Kept(c.version, c.level, input.flat, |input.flat|, smallestSnapshot)
    ensures forall o :: o in outputs ==> WellBuilt(o)
    ensures NumberedFrom(outputs, nextFile)
  {
    var memory := Memory(None, MAX_SEQUENCE);
    var building := false;
    outputs := [];
    ghost var m := input.flat;
    input.SeekToFirst();
    while input.Valid()
      invariant input.index <= |m| && c.Ready()
      invariant Remembers(memory, m, input.index)
      invariant c.asked.Some? ==> input.index > 0 && c.asked.value <= m[input.index - 1].key.user
      invariant Written(outputs) == Kept(c.version, c.level, m, input.index, smallestSnapshot)
      invariant forall o :: o in outputs ==> WellBuilt(o)
      invariant NumberedFrom(outputs, nextFile)
      invariant building ==> |outputs| > 0
      decreases |m| - input.index
    {
      var entry := input.Current();
      if stopBefore[input.index] && building {
        building := false;
      }
      var drop;
      drop, memory := ShouldDrop(c, memory, entry.key, smallestSnapshot, m, input.index);
      if !drop {
        outputs := Emit(outputs, building, nextFile, entry);
        building := !full[input.index];
      }
      input.Next();
    }
  }

  /** Adds one entry to the output file that is being built, recording the bounds. */
  method AddToOutput(done: seq<Output>, current: Output, entry: Entry) returns (outputs: seq<Output>)
    requires |current.entries| > 0 ==> WellBuilt(current)
    requires forall o :: o in done ==> WellBuilt(o)
    ensures |outputs| == |done| + 1 && outputs[..|done|] == done
    ensures outputs[|done|].number == current.number
    ensures forall o :: o in outputs ==> WellBuilt(o)
    ensures Written(outputs) == Written(done) + current.entries + [entry]
  {
    var o := current;
    if |o.entries| == 0 {
      o := o.(smallest := entry.key);
    }
    o := o.(largest := entry.key, entries := o.entries + [entry]);
    outputs := done + [o];
    WrittenAppend(done, o);
  }
}
