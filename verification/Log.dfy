/**
 The write-ahead log: records cut into physical records that never cross a block boundary, and the reader
 that puts them together again.  A file cut off at any byte reads as the records that are complete in it.
 */
module Log {
  import opened InternalKeys
  import opened Coding

  const BLOCK_SIZE: nat := 32768

  const HEADER_SIZE: nat := 7

  const ZERO_TYPE: Byte := 0

  const FULL_TYPE: Byte := 1

  const FIRST_TYPE: Byte := 2

  const MIDDLE_TYPE: Byte := 3

  const LAST_TYPE: Byte := 4

  /** A physical record and where it starts in the file. */
  datatype Fragment = Fragment(at: nat, kind: Byte, payload: Bytes)

  function End(f: Fragment): nat {
    f.at + 7 + |f.payload|
  }

  function BlockOffset(position: nat): (offset: nat)
    ensures offset < 32768
  {
    position % 32768
  }

  /** Where the next header goes: a block end too short for a header is skipped. */
  function NextStart(position: nat): (start: nat)
    ensures start >= position
  {
    if BlockOffset(position) > 32761 then position + (32768 - BlockOffset(position)) else position
  }

  /** The checksum of a type and a payload, as it is stored. */
  type Checksum = (Byte, Bytes) -> nat

  function Header(sum: Checksum, kind: Byte, payload: Bytes): (h: Bytes)
    requires |payload| < 0x1_0000
    ensures |h| == HEADER_SIZE
  {
    Fixed32(Low32(sum(kind, payload))) + [|payload| % 256, |payload| / 256, kind]
  }

  /** The bytes of a physical record. */
  function Physical(sum: Checksum, kind: Byte, payload: Bytes): (s: Bytes)
    requires |payload| < 0x1_0000
    ensures |s| == 7 + |payload|
  {
    Header(sum, kind, payload) + payload
  }

  /** The bytes of a fragment are in the file, within one block. */
  ghost predicate Holds(sum: Checksum, file: Bytes, f: Fragment) {
    && BlockOffset(f.at) + 7 + |f.payload| <= 32768
    && End(f) <= |file|
    && file[f.at..End(f)] == Physical(sum, f.kind, f.payload)
    && 1 <= f.kind <= 4
  }

  function EndOf(fs: seq<Fragment>): nat {
    if fs == [] then 0 else End(fs[|fs| - 1])
  }

  /** The fragments follow each other in the file. */
  ghost predicate Laid(sum: Checksum, file: Bytes, fs: seq<Fragment>) {
    fs == [] ||
    (var front, last := fs[..|fs| - 1], fs[|fs| - 1];
     Holds(sum, file, last) && last.at == NextStart(EndOf(front)) && Laid(sum, file, front))
  }

  lemma {:induction false} LaidAt(sum: Checksum, file: Bytes, fs: seq<Fragment>, i: nat)
    requires Laid(sum, file, fs) && i < |fs|
    ensures Holds(sum, file, fs[i]) && fs[i].at == NextStart(EndOf(fs[..i]))
  {
    var front := fs[..|fs| - 1];
    if i < |front| {
      LaidAt(sum, file, front, i);
      assert front[..i] == fs[..i];
    }
  }

  lemma {:induction false} LaidStays(sum: Checksum, file: Bytes, longer: Bytes, fs: seq<Fragment>)
    requires Laid(sum, file, fs) && file <= longer
    ensures Laid(sum, longer, fs)
  {
    if fs != [] {
      var last := fs[|fs| - 1];
      assert longer[last.at..End(last)] == file[last.at..End(last)];
      LaidStays(sum, file, longer, fs[..|fs| - 1]);
    }
  }

  function PayloadOf(fs: seq<Fragment>): Bytes {
    if fs == [] then [] else PayloadOf(fs[..|fs| - 1]) + fs[|fs| - 1].payload
  }

  /** The fragments of a record that has begun but not ended. */
  ghost predicate IsOpen(fs: seq<Fragment>) {
    fs != [] && forall i :: 0 <= i < |fs| ==> fs[i].kind == if i == 0 then FIRST_TYPE else MIDDLE_TYPE
  }

  /** The fragments of one whole record. */
  ghost predicate IsRecord(fs: seq<Fragment>, record: Bytes) {
    && fs != []
    && PayloadOf(fs) == record
    && if |fs| == 1 then fs[0].kind == FULL_TYPE
       else IsOpen(fs[..|fs| - 1]) && fs[|fs| - 1].kind == LAST_TYPE
  }

  function Flat(groups: seq<seq<Fragment>>): seq<Fragment> {
    if groups == [] then [] else Flat(groups[..|groups| - 1]) + groups[|groups| - 1]
  }

  /** Each record is made of one group of fragments. */
  ghost predicate Groups(groups: seq<seq<Fragment>>, records: seq<Bytes>) {
    && |groups| == |records|
    && forall k :: 0 <= k < |records| ==> IsRecord(groups[k], records[k])
  }

  lemma {:induction false} FragmentAppended(sum: Checksum, file: Bytes, fs: seq<Fragment>, kind: Byte, payload: Bytes)
    requires 1 <= kind <= 4 && BlockOffset(|file|) + 7 + |payload| <= 32768
    requires Laid(sum, file, fs) && |file| == NextStart(EndOf(fs))
    ensures var longer := file + Header(sum, kind, payload) + payload;
            && Laid(sum, longer, fs + [Fragment(|file|, kind, payload)])
            && EndOf(fs + [Fragment(|file|, kind, payload)]) == |longer|
  {
    var longer, f := file + Physical(sum, kind, payload), Fragment(|file|, kind, payload);
    assert longer == file + Header(sum, kind, payload) + payload;
    LaidStays(sum, file, longer, fs);
    assert (fs + [f])[..|fs|] == fs;
    assert longer[f.at..End(f)] == Physical(sum, kind, payload);
  }

  lemma OffsetAdvances(position: nat, n: nat)
    requires BlockOffset(position) + n <= 32768
    ensures BlockOffset(position + n) == if BlockOffset(position) + n == 32768 then 0 else BlockOffset(position) + n
  {
  }

  class Writer {
    const sum: Checksum
    /** The file, and where in a block it ends. */
    var dest: Bytes
    var blockOffset: nat
    ghost var fragments: seq<Fragment>
    ghost var groups: seq<seq<Fragment>>
    ghost var records: seq<Bytes>

    constructor (sum: Checksum)
      ensures Valid() && this.sum == sum && dest == [] && records == []
    {
      this.sum := sum;
      dest, blockOffset := [], 0;
      fragments, groups, records := [], [], [];
    }

    /** Goes on with a file that another writer left complete. */
    constructor Reopen(sum: Checksum, dest: Bytes, destLength: nat, ghost groups: seq<seq<Fragment>>,
                       ghost records: seq<Bytes>)
      requires destLength == |dest| && IsLog(sum, dest, groups, records)
      ensures Valid() && this.sum == sum && this.dest == dest && this.groups == groups && this.records == records
    {
      this.sum := sum;
      this.dest, blockOffset := dest, BlockOffset(destLength);
      fragments, this.groups, this.records := Flat(groups), groups, records;
    }

    ghost predicate InStep()
      reads this
    {
      && blockOffset <= 32768
      && BlockOffset(|dest|) == (if blockOffset == 32768 then 0 else blockOffset)
      && Laid(sum, dest, fragments)
      && EndOf(fragments) == |dest|
    }

    ghost predicate Valid()
      reads this
      ensures Valid() ==> IsLog(sum, dest, groups, records)
    {
      InStep() && fragments == Flat(groups) && Groups(groups, records)
    }

    /** Fills the end of a block that is too short for a header. */
    method SwitchBlock()
      requires InStep()
      modifies this`dest, this`blockOffset
      ensures old(dest) <= dest && |dest| == NextStart(EndOf(fragments)) && Laid(sum, dest, fragments)
      ensures blockOffset == BlockOffset(|dest|) <= 32761
      ensures old(blockOffset) == 32768 ==> blockOffset == 0
    {
      var leftover := 32768 - blockOffset;
      OffsetAdvances(|dest|, if blockOffset == 32768 then 0 else leftover);
      if leftover < 7 {
        if leftover > 0 {
          dest := dest + Zeros(leftover);
          LaidStays(sum, old(dest), dest, fragments);
        }
        blockOffset := 0;
      }
    }

    /** Appends a header and a payload that fit in the block. */
    method EmitPhysicalRecord(kind: Byte, payload: Bytes)
      requires 1 <= kind <= 4 && blockOffset == BlockOffset(|dest|) && blockOffset + 7 + |payload| <= 32768
      requires Laid(sum, dest, fragments) && |dest| == NextStart(EndOf(fragments))
      modifies this`dest, this`blockOffset, this`fragments
      ensures InStep() && old(dest) <= dest && blockOffset == old(blockOffset) + 7 + |payload|
      ensures fragments == old(fragments) + [Fragment(old(|dest|), kind, payload)]
    {
      FragmentAppended(sum, dest, fragments, kind, payload);
      OffsetAdvances(|dest|, 7 + |payload|);
      fragments := fragments + [Fragment(|dest|, kind, payload)];
      dest := dest + Header(sum, kind, payload);
      dest := dest + payload;
      blockOffset := blockOffset + 7 + |payload|;
    }

    /** Cuts the record into fragments; an empty record still gets one. */
    method AddRecord(record: Bytes)
      requires Valid()
      modifies this
      ensures Valid() && records == old(records) + [record]
      ensures old(dest) <= dest && old(groups) <= groups
    {
      ghost var made := EmitFragments(record);
      groups := groups + [made];
      records := records + [record];
      assert groups[..|groups| - 1] == old(groups);
    }

    method EmitFragments(record: Bytes) returns (ghost made: seq<Fragment>)
      requires InStep()
      modifies this`dest, this`blockOffset, this`fragments
      ensures InStep() && old(dest) <= dest
      ensures fragments == old(fragments) + made && IsRecord(made, record)
    {
      var ptr: nat := 0;
      var begin := true;
      made := [];
      assert record[..0] == [];
      while true
        invariant InStep() && old(dest) <= dest && ptr <= |record|
        invariant fragments == old(fragments) + made
        invariant begin == (made == []) && (begin ==> ptr == 0)
        invariant made != [] ==> IsOpen(made) && ptr < |record|
        invariant PayloadOf(made) == record[..ptr]
        decreases |record| - ptr, if blockOffset == 32768 then 0 else 1
      {
        ghost var was := made;
        ptr, made := AddFragment(record, ptr, begin, made);
        assert made == was + [made[|was|]];
        begin := false;
        if ptr == |record| {
          break;
        }
      }
    }

    /** As much of the record as fits in the block. */
    method AddFragment(record: Bytes, ptr: nat, begin: bool, ghost made: seq<Fragment>)
      returns (next: nat, ghost more: seq<Fragment>)
      requires InStep() && ptr <= |record| && begin == (made == [])
      requires (made == [] ==> ptr == 0) && (made != [] ==> IsOpen(made) && ptr < |record|)
      requires PayloadOf(made) == record[..ptr]
      modifies this`dest, this`blockOffset, this`fragments
      ensures InStep() && old(dest) <= dest
      ensures ptr <= next <= |record| && |more| == |made| + 1 && more[..|made|] == made
      ensures fragments == old(fragments) + [more[|made|]]
      ensures PayloadOf(more) == record[..next]
      ensures if next == |record| then IsRecord(more, record) else IsOpen(more)
      ensures next > ptr || next == |record| || (blockOffset == 32768 && old(blockOffset) < 32768)
    {
      SwitchBlock();
      var avail := 32768 - blockOffset - 7;
      var left := |record| - ptr;
      var fragmentLength := if left < avail then left else avail;
      next := ptr + fragmentLength;
      var end := left == fragmentLength;
      var kind: Byte :=
        if begin && end then FULL_TYPE else if begin then FIRST_TYPE else if end then LAST_TYPE else MIDDLE_TYPE;
      ghost var f := Fragment(|dest|, kind, record[ptr..next]);
      EmitPhysicalRecord(kind, record[ptr..next]);
      FragmentMade(made, f, record, ptr, next, begin, end);
      more := made + [f];
    }
  }

  /** One more fragment of a record. */
  lemma FragmentMade(made: seq<Fragment>, f: Fragment, record: Bytes, ptr: nat, next: nat, begin: bool, end: bool)
    requires ptr <= next <= |record| && f.payload == record[ptr..next] && end == (next == |record|)
    requires begin == (made == []) && (made != [] ==> IsOpen(made)) && PayloadOf(made) == record[..ptr]
    requires f.kind ==
               if begin && end then FULL_TYPE else if begin then FIRST_TYPE else if end then LAST_TYPE else MIDDLE_TYPE
    ensures PayloadOf(made + [f]) == record[..next]
    ensures end ==> IsRecord(made + [f], record)
    ensures !end ==> IsOpen(made + [f])
  {
    assert (made + [f])[..|made|] == made;
    assert record[..ptr] + record[ptr..next] == record[..next];
  }

  /** A whole log file: its fragments, and the records that they make. */
  ghost predicate IsLog(sum: Checksum, file: Bytes, groups: seq<seq<Fragment>>, records: seq<Bytes>) {
    Laid(sum, file, Flat(groups)) && EndOf(Flat(groups)) == |file| && Groups(groups, records)
  }

  lemma HeaderFields(sum: Checksum, kind: Byte, payload: Bytes)
    requires |payload| < 0x1_0000
    ensures var s := Physical(sum, kind, payload);
            && LengthField(s) == |payload| && s[6] == kind
            && DecodeFixed(s[..4]) == Low32(sum(kind, payload))
            && s[7..] == payload
  {
    var word := Low32(sum(kind, payload));
    Fixed32RoundTrip(word);
    assert Physical(sum, kind, payload)[..4] == Fixed32(word);
  }

  lemma {:induction false} EndsAscend(sum: Checksum, file: Bytes, fs: seq<Fragment>, i: nat, j: nat)
    requires Laid(sum, file, fs) && i <= j < |fs|
    ensures End(fs[i]) <= End(fs[j]) <= |file|
    decreases j
  {
    LaidAt(sum, file, fs, j);
    if i < j {
      EndsAscend(sum, file, fs, i, j - 1);
      assert EndOf(fs[..j]) == End(fs[j - 1]);
    }
  }

  datatype PhysicalRecord = Physically(kind: Byte, payload: Bytes) | Eof | BadRecord

  /** What a reader reads, and whether it checks checksums. */
  datatype Source = Source(sum: Checksum, file: Bytes, checksum: bool)

  /** How far the file has been read, what of it is still in the buffer, and how many corruptions were reported. */
  datatype Reading = Reading(position: nat, buffer: Bytes, eof: bool, corruptions: nat)

  predicate AtStart(s: Reading) {
    s.position == 0 && s.buffer == [] && !s.eof && s.corruptions == 0
  }

  datatype PhysicalOutcome = PhysicalOutcome(record: PhysicalRecord, reading: Reading)

  datatype Outcome = Outcome(record: Option<Bytes>, reading: Reading)

  predicate InFile(src: Source, s: Reading) {
    s.position <= |src.file|
  }

  /** What the reader has not consumed. */
  function Remaining(src: Source, s: Reading): nat
    requires InFile(src, s)
  {
    |src.file| - s.position + |s.buffer|
  }

  /** The next block of the file, or what there is of it. */
  function Load(src: Source, s: Reading): (t: Reading)
    requires InFile(src, s)
    ensures InFile(src, t)
  {
    var size := if |src.file| - s.position < 32768 then |src.file| - s.position else 32768;
    Reading(s.position + size, src.file[s.position..s.position + size], size < 32768, s.corruptions)
  }

  function Drop(s: Reading): Reading {
    s.(buffer := [])
  }

  function DropAndReport(s: Reading): Reading {
    s.(buffer := [], corruptions := s.corruptions + 1)
  }

  function LengthField(buffer: Bytes): nat
    requires |buffer| >= 7
  {
    buffer[4] + 256 * (buffer[5] as nat)
  }

  /** Parses the physical record at the start of a buffer that holds a header. */
  function Parse(src: Source, s: Reading): PhysicalOutcome
    requires |s.buffer| >= 7
  {
    var length, kind := LengthField(s.buffer), s.buffer[6];
    if 7 + length > |s.buffer| then
      if s.eof then PhysicalOutcome(Eof, Drop(s)) else PhysicalOutcome(BadRecord, DropAndReport(s))
    else if kind == ZERO_TYPE && length == 0 then PhysicalOutcome(BadRecord, Drop(s))
    else if src.checksum && DecodeFixed(s.buffer[..4]) != Low32(src.sum(kind, s.buffer[7..7 + length])) then
      PhysicalOutcome(BadRecord, DropAndReport(s))
    else PhysicalOutcome(Physically(kind, s.buffer[7..7 + length]), s.(buffer := s.buffer[7 + length..]))
  }

  function ReadPhysical(src: Source, s: Reading): (o: PhysicalOutcome)
    requires InFile(src, s)
    ensures InFile(src, o.reading)
    ensures !o.record.Eof? ==> Remaining(src, o.reading) < Remaining(src, s)
    decreases if s.eof then 0 else 1, |src.file| - s.position
  {
    if |s.buffer| >= 7 then Parse(src, s)
    else if s.eof then PhysicalOutcome(Eof, Drop(s))
    else ReadPhysical(src, Load(src, s))
  }

  function Report(s: Reading, report: bool): Reading {
    if report then s.(corruptions := s.corruptions + 1) else s
  }

  /** Puts fragments together, from a state with `scratch` collected. */
  function ReadLogical(src: Source, s: Reading, scratch: Bytes, fragmented: bool): Outcome
    requires InFile(src, s)
    decreases Remaining(src, s)
  {
    var o := ReadPhysical(src, s);
    match o.record
    case Eof => Outcome(None, o.reading)
    case BadRecord => ReadLogical(src, Report(o.reading, fragmented), if fragmented then [] else scratch, false)
    case Physically(kind, payload) =>
      if kind == FULL_TYPE then Outcome(Some(payload), Report(o.reading, fragmented && scratch != []))
      else if kind == FIRST_TYPE then ReadLogical(src, Report(o.reading, fragmented && scratch != []), payload, true)
      else if kind == MIDDLE_TYPE then
        if fragmented then ReadLogical(src, o.reading, scratch + payload, true)
        else ReadLogical(src, Report(o.reading, true), scratch, false)
      else if kind == LAST_TYPE then
        if fragmented then Outcome(Some(scratch + payload), o.reading)
        else ReadLogical(src, Report(o.reading, true), scratch, false)
      else ReadLogical(src, Report(o.reading, true), [], false)
  }

  class Reader {
    const src: Source
    var position: nat
    var buffer: Bytes
    var eof: bool
    var corruptions: nat

    constructor (src: Source)
      ensures this.src == src && State() == Reading(0, [], false, 0)
    {
      this.src := src;
      position, buffer, eof, corruptions := 0, [], false, 0;
    }

    function State(): Reading
      reads this
    {
      Reading(position, buffer, eof, corruptions)
    }

    method ReportCorruption()
      modifies this`corruptions
      ensures State() == Report(old(State()), true)
    {
      corruptions := corruptions + 1;
    }

    method ReadBlock()
      requires InFile(src, State()) && !eof
      modifies this
      ensures State() == Load(src, old(State()))
    {
      var size := if |src.file| - position < 32768 then |src.file| - position else 32768;
      buffer := src.file[position..position + size];
      position := position + size;
      if |buffer| < 32768 {
        eof := true;
      }
    }

    method ReadPhysicalRecord() returns (r: PhysicalRecord)
      requires InFile(src, State())
      modifies this
      ensures PhysicalOutcome(r, State()) == ReadPhysical(src, old(State()))
    {
      while |buffer| < 7
        invariant InFile(src, State())
        invariant ReadPhysical(src, State()) == ReadPhysical(src, old(State()))
        decreases if eof then 0 else 1, |src.file| - position
      {
        if !eof {
          // The last read was a full block, so this is a trailer to skip.
          ReadBlock();
        } else {
          // A truncated header at the end of the file is not an error.
          buffer := [];
          return Eof;
        }
      }
      r := ParseRecord();
    }

    /** Parses the physical record at the start of the buffer. */
    method ParseRecord() returns (r: PhysicalRecord)
      requires |buffer| >= 7
      modifies this
      ensures PhysicalOutcome(r, State()) == Parse(src, old(State()))
    {
      var kind, length := buffer[6], LengthField(buffer);
      if 7 + length > |buffer| {
        buffer := [];
        if !eof {
          ReportCorruption();
          return BadRecord;
        }
        // The writer died in the middle of this record.
        return Eof;
      }
      if kind == ZERO_TYPE && length == 0 {
        buffer := [];
        return BadRecord;
      }
      if src.checksum {
        var expected := DecodeFixed(buffer[..4]);
        var actual := Low32(src.sum(kind, buffer[7..7 + length]));
        if actual != expected {
          buffer := [];
          ReportCorruption();
          return BadRecord;
        }
      }
      r := Physically(kind, buffer[7..7 + length]);
      buffer := buffer[7 + length..];
    }

    method ReadRecord() returns (record: Option<Bytes>)
      requires InFile(src, State())
      modifies this
      ensures Outcome(record, State()) == ReadLogical(src, old(State()), [], false)
      ensures InFile(src, State())
      ensures record.Some? ==> Remaining(src, State()) < Remaining(src, old(State()))
    {
      var scratch: Bytes, inFragmentedRecord := [], false;
      while true
        invariant InFile(src, State())
        invariant Remaining(src, State()) <= Remaining(src, old(State()))
        invariant ReadLogical(src, State(), scratch, inFragmentedRecord) == ReadLogical(src, old(State()), [], false)
        decreases Remaining(src, State())
      {
        var physical := ReadPhysicalRecord();
        match physical {
          case Eof =>
            return None;
          case BadRecord =>
            if inFragmentedRecord {
              ReportCorruption();
              inFragmentedRecord := false;
              scratch := [];
            }
          case Physically(kind, fragment) =>
            if kind == FULL_TYPE {
              if inFragmentedRecord && scratch != [] {
                ReportCorruption();
              }
              return Some(fragment);
            } else if kind == FIRST_TYPE {
              if inFragmentedRecord && scratch != [] {
                ReportCorruption();
              }
              scratch := fragment;
              inFragmentedRecord := true;
            } else if kind == MIDDLE_TYPE {
              if !inFragmentedRecord {
                ReportCorruption();
              } else {
                scratch := scratch + fragment;
              }
            } else if kind == LAST_TYPE {
              if !inFragmentedRecord {
                ReportCorruption();
              } else {
                scratch := scratch + fragment;
                return Some(scratch);
              }
            } else {
              ReportCorruption();
              inFragmentedRecord := false;
              scratch := [];
            }
        }
      }
      record := None;
    }
  }

  /** The buffer is the part of the file up to where it has been read, and lies in one block. */
  ghost predicate Aligned(src: Source, s: Reading) {
    && |s.buffer| <= s.position <= |src.file|
    && s.buffer == src.file[s.position - |s.buffer|..s.position]
    && if s.eof then s.position == |src.file| && |s.buffer| <= BlockOffset(s.position)
       else BlockOffset(s.position) == 0 && |s.buffer| <= 32768
  }

  ghost predicate Finished(s: Reading) {
    s.eof && s.buffer == []
  }

  ghost function At(s: Reading): nat
    requires |s.buffer| <= s.position
  {
    s.position - |s.buffer|
  }

  /** The file is the start of a log, cut off anywhere. */
  ghost predicate CutOff(src: Source, log: Bytes, fs: seq<Fragment>) {
    src.file <= log && Laid(src.sum, log, fs) && EndOf(fs) == |log|
  }

  /** The next fragment to read is fragment `i`. */
  ghost predicate Before(src: Source, s: Reading, fs: seq<Fragment>, i: nat) {
    i <= |fs| && Aligned(src, s) && At(s) == EndOf(fs[..i])
  }

  /** In a buffer that lies in one block, what fits in the block and in the file fits in the buffer. */
  lemma FitsInBuffer(src: Source, s: Reading, size: nat)
    requires Aligned(src, s) && s.buffer != [] && BlockOffset(At(s)) + size <= 32768
    ensures size > |s.buffer| ==> s.eof && At(s) + size > |src.file|
  {
  }

  /** With room for a header in the buffer no bytes are skipped. */
  lemma NothingSkipped(src: Source, s: Reading)
    requires Aligned(src, s) && |s.buffer| >= 7
    ensures NextStart(At(s)) == At(s)
  {
  }

  /** With too little room for a header, the next header is in the next block, or cut off. */
  lemma Skipped(src: Source, s: Reading)
    requires Aligned(src, s) && |s.buffer| < 7
    ensures !s.eof ==> NextStart(At(s)) == s.position && NextStart(s.position) == s.position
    ensures s.eof ==> NextStart(At(s)) + 7 > |src.file|
  {
  }

  lemma LoadAligned(src: Source, s: Reading)
    requires Aligned(src, s) && !s.eof
    ensures Aligned(src, Load(src, s)) && At(Load(src, s)) == s.position
    ensures |Load(src, s).buffer| < 7 ==> Load(src, s).eof
  {
  }

  lemma {:induction false} HeaderInBuffer(src: Source, s: Reading, log: Bytes, f: Fragment)
    requires Aligned(src, s) && |s.buffer| >= 7 && src.file <= log && Holds(src.sum, log, f) && At(s) == f.at
    ensures LengthField(s.buffer) == |f.payload| && s.buffer[6] == f.kind
  {
    HeaderFields(src.sum, f.kind, f.payload);
    var p := Physical(src.sum, f.kind, f.payload);
    assert forall k :: 0 <= k < 7 ==> s.buffer[k] == src.file[f.at + k] == log[f.at..End(f)][k] == p[k];
  }

  lemma {:induction false} FragmentInBuffer(src: Source, s: Reading, log: Bytes, f: Fragment)
    requires Aligned(src, s) && src.file <= log && Holds(src.sum, log, f) && At(s) == f.at
            && |s.buffer| >= 7 + |f.payload|
    ensures DecodeFixed(s.buffer[..4]) == Low32(src.sum(f.kind, f.payload)) && s.buffer[7..7 + |f.payload|] == f.payload
  {
    HeaderFields(src.sum, f.kind, f.payload);
    var p := Physical(src.sum, f.kind, f.payload);
    assert s.buffer[..7 + |f.payload|] == log[f.at..End(f)] == p;
    assert s.buffer[..4] == p[..4];
    assert s.buffer[7..7 + |f.payload|] == p[7..];
  }

  /** Parsing gives the fragment, if it is complete in the file. */
  lemma {:induction false} ParseNext(src: Source, s: Reading, log: Bytes, f: Fragment)
    requires Aligned(src, s) && |s.buffer| >= 7 && src.file <= log && Holds(src.sum, log, f) && At(s) == f.at
    ensures var o := Parse(src, s);
            && o.reading.corruptions == s.corruptions
            && if End(f) <= |src.file| then
                 o.record == Physically(f.kind, f.payload) && Aligned(src, o.reading) && At(o.reading) == End(f)
               else o.record.Eof? && Finished(o.reading)
  {
    HeaderInBuffer(src, s, log, f);
    FitsInBuffer(src, s, 7 + |f.payload|);
    if End(f) <= |src.file| {
      FragmentInBuffer(src, s, log, f);
    }
  }

  /** The next fragment if it is complete in the file; else the end of the file, without a report. */
  lemma {:induction false} ReadsNext(src: Source, s: Reading, log: Bytes, fs: seq<Fragment>, i: nat)
    requires CutOff(src, log, fs) && Before(src, s, fs, i)
    ensures var o := ReadPhysical(src, s);
            && o.reading.corruptions == s.corruptions
            && if i < |fs| && End(fs[i]) <= |src.file| then
                 o.record == Physically(fs[i].kind, fs[i].payload) && Before(src, o.reading, fs, i + 1)
               else o.record.Eof? && Finished(o.reading)
  {
    if i < |fs| {
      LaidAt(src.sum, log, fs, i);
      assert fs[..i + 1][..i] == fs[..i];
    } else {
      assert fs[..i] == fs;
    }
    if |s.buffer| >= 7 {
      NothingSkipped(src, s);
      ParseNext(src, s, log, fs[i]);
    } else {
      Skipped(src, s);
      if !s.eof {
        var t := Load(src, s);
        LoadAligned(src, s);
        if |t.buffer| >= 7 {
          LogGoesOn(src, log, fs, i, t);
          ParseNext(src, t, log, fs[i]);
        } else {
          Skipped(src, t);
        }
      }
    }
  }

  /** If there is something after the place where a fragment would start, there is a fragment. */
  lemma LogGoesOn(src: Source, log: Bytes, fs: seq<Fragment>, i: nat, s: Reading)
    requires CutOff(src, log, fs) && i <= |fs| && Aligned(src, s) && s.buffer != [] && At(s) >= EndOf(fs[..i])
    ensures i < |fs|
  {
    assert fs[..|fs|] == fs;
  }

  /** What a fragment of a record adds to the fragments before it. */
  lemma {:induction false} FragmentOfRecord(group: seq<Fragment>, record: Bytes, j: nat)
    requires j < |group| && IsRecord(group, record)
    ensures group[j].kind == if |group| == 1 then FULL_TYPE else if j == 0 then FIRST_TYPE
                             else if j == |group| - 1 then LAST_TYPE else MIDDLE_TYPE
    ensures PayloadOf(group[..j + 1]) == PayloadOf(group[..j]) + group[j].payload
    ensures j == |group| - 1 ==> PayloadOf(group[..j]) + group[j].payload == record
    ensures j == 0 ==> PayloadOf(group[..j]) == [] && PayloadOf(group[..j + 1]) == group[j].payload
  {
    assert group[..j + 1][..j] == group[..j];
    assert group[..|group|] == group;
    if j < |group| - 1 {
      assert group[..|group| - 1][j] == group[j];
    }
  }

  /** A record that is complete is returned and reading can go on after it; otherwise the file is at its end. */
  ghost predicate Reads(src: Source, fs: seq<Fragment>, corruptions: nat, o: Outcome, complete: bool, record: Bytes,
                        next: nat) {
    && o.reading.corruptions == corruptions
    && if complete then o.record == Some(record) && Before(src, o.reading, fs, next)
       else o.record.None? && Finished(o.reading)
  }

  /** Reading on in a group of which the first `j` fragments are collected. */
  lemma {:induction false} ReadsRestOfRecord(src: Source, s: Reading, log: Bytes, fs: seq<Fragment>, first: nat,
                                             group: seq<Fragment>, record: Bytes, j: nat)
    requires CutOff(src, log, fs) && Before(src, s, fs, first + j)
    requires j < |group| && first + |group| <= |fs| && fs[first..first + |group|] == group && IsRecord(group, record)
    ensures Reads(src, fs, s.corruptions, ReadLogical(src, s, PayloadOf(group[..j]), j > 0),
                  EndOf(group) <= |src.file|, record, first + |group|)
    decreases |group| - j
  {
    ReadsFragment(src, s, log, fs, first, group, record, j);
    if End(group[j]) <= |src.file| && j + 1 < |group| {
      ReadsRestOfRecord(src, ReadPhysical(src, s).reading, log, fs, first, group, record, j + 1);
    }
  }

  /** One fragment of a record: it ends the file, the record or neither. */
  lemma {:induction false} ReadsFragment(src: Source, s: Reading, log: Bytes, fs: seq<Fragment>, first: nat,
                                         group: seq<Fragment>, record: Bytes, j: nat)
    requires CutOff(src, log, fs) && Before(src, s, fs, first + j)
    requires j < |group| && first + |group| <= |fs| && fs[first..first + |group|] == group && IsRecord(group, record)
    ensures var o, all := ReadPhysical(src, s), ReadLogical(src, s, PayloadOf(group[..j]), j > 0);
            && o.reading.corruptions == s.corruptions
            && End(group[j]) <= EndOf(group)
            && if End(group[j]) > |src.file| then all == Outcome(None, o.reading) && Finished(o.reading)
               else
                 && Before(src, o.reading, fs, first + j + 1)
                 && if j + 1 == |group| then all == Outcome(Some(record), o.reading)
                    else all == ReadLogical(src, o.reading, PayloadOf(group[..j + 1]), true)
  {
    NextFragment(src, s, log, fs, first, group, j);
    FragmentStep(src, s, group, record, j);
  }

  lemma {:induction false} NextFragment(src: Source, s: Reading, log: Bytes, fs: seq<Fragment>, first: nat,
                                        group: seq<Fragment>, j: nat)
    requires CutOff(src, log, fs) && Before(src, s, fs, first + j)
    requires j < |group| && first + |group| <= |fs| && fs[first..first + |group|] == group
    ensures var o := ReadPhysical(src, s);
            && o.reading.corruptions == s.corruptions
            && End(group[j]) <= EndOf(group)
            && if End(group[j]) > |src.file| then o.record.Eof? && Finished(o.reading)
               else o.record == Physically(group[j].kind, group[j].payload) && Before(src, o.reading, fs, first + j + 1)
  {
    GroupEnds(src.sum, log, fs, first, group, j);
    ReadsNext(src, s, log, fs, first + j);
  }

  lemma GroupEnds(sum: Checksum, log: Bytes, fs: seq<Fragment>, first: nat, group: seq<Fragment>, j: nat)
    requires Laid(sum, log, fs) && j < |group| && first + |group| <= |fs| && fs[first..first + |group|] == group
    ensures group[j] == fs[first + j] && End(group[j]) <= EndOf(group)
  {
    var n := |group|;
    assert group[j] == fs[first + j] && group[n - 1] == fs[first + n - 1];
    EndsAscend(sum, log, fs, first + j, first + n - 1);
  }

  lemma {:induction false} FragmentStep(src: Source, s: Reading, group: seq<Fragment>, record: Bytes, j: nat)
    requires InFile(src, s) && j < |group| && IsRecord(group, record)
    ensures var o, all := ReadPhysical(src, s), ReadLogical(src, s, PayloadOf(group[..j]), j > 0);
            && (o.record.Eof? ==> all == Outcome(None, o.reading))
            && (o.record == Physically(group[j].kind, group[j].payload) ==>
                  if j + 1 == |group| then all == Outcome(Some(record), o.reading)
                  else all == ReadLogical(src, o.reading, PayloadOf(group[..j + 1]), true))
  {
    FragmentOfRecord(group, record, j);
    StepsInto(src, s, PayloadOf(group[..j]), j > 0, group[j]);
  }

  /** What reading a well-formed fragment comes to. */
  lemma StepsInto(src: Source, s: Reading, scratch: Bytes, fragmented: bool, f: Fragment)
    requires InFile(src, s)
    ensures var o := ReadPhysical(src, s);
            && (o.record.Eof? ==> ReadLogical(src, s, scratch, fragmented) == Outcome(None, o.reading))
            && (o.record == Physically(f.kind, f.payload) ==>
                  && (f.kind == FULL_TYPE && !fragmented ==>
                        ReadLogical(src, s, scratch, fragmented) == Outcome(Some(f.payload), o.reading))
                  && (f.kind == FIRST_TYPE && !fragmented ==>
                        ReadLogical(src, s, scratch, fragmented) == ReadLogical(src, o.reading, f.payload, true))
                  && (f.kind == MIDDLE_TYPE && fragmented ==>
                        ReadLogical(src, s, scratch, fragmented) ==
                            ReadLogical(src, o.reading, scratch + f.payload, true))
                  && (f.kind == LAST_TYPE && fragmented ==>
                        ReadLogical(src, s, scratch, fragmented) == Outcome(Some(scratch + f.payload), o.reading)))
  {
  }

  /** How many records are complete in the first `n` bytes of a log. */
  function CompleteRecords(groups: seq<seq<Fragment>>, n: nat): (k: nat)
    ensures k <= |groups|
  {
    if groups == [] then 0
    else if EndOf(groups[|groups| - 1]) <= n then |groups|
    else CompleteRecords(groups[..|groups| - 1], n)
  }

  lemma {:induction false} GroupInFlat(groups: seq<seq<Fragment>>, k: nat)
    requires k < |groups|
    ensures Flat(groups[..k + 1]) == Flat(groups[..k]) + groups[k]
    ensures |Flat(groups[..k])| + |groups[k]| <= |Flat(groups)|
    ensures Flat(groups)[|Flat(groups[..k])|..|Flat(groups[..k])| + |groups[k]|] == groups[k]
    decreases |groups|
  {
    assert groups[..k + 1][..k] == groups[..k];
    if k + 1 < |groups| {
      var front := groups[..|groups| - 1];
      GroupInFlat(front, k);
      assert front[..k] == groups[..k];
    } else {
      assert groups[..k + 1] == groups;
    }
  }

  /** The next record of the log, if it is complete in the file. */
  lemma {:induction false} ReadsNextRecord(src: Source, s: Reading, log: Bytes, groups: seq<seq<Fragment>>,
                                           records: seq<Bytes>, k: nat)
    requires src.file <= log && IsLog(src.sum, log, groups, records) && k < |records|
    requires Before(src, s, Flat(groups), |Flat(groups[..k])|)
    ensures Reads(src, Flat(groups), s.corruptions, ReadLogical(src, s, [], false),
                  EndOf(groups[k]) <= |src.file|, records[k], |Flat(groups[..k + 1])|)
  {
    GroupInFlat(groups, k);
    assert IsRecord(groups[k], records[k]);
    assert groups[k][..0] == [];
    ReadsRestOfRecord(src, s, log, Flat(groups), |Flat(groups[..k])|, groups[k], records[k], 0);
  }

  lemma {:induction false} ReadsEndOfLog(src: Source, s: Reading, log: Bytes, fs: seq<Fragment>)
    requires CutOff(src, log, fs) && Before(src, s, fs, |fs|)
    ensures Reads(src, fs, s.corruptions, ReadLogical(src, s, [], false), false, [], 0)
  {
    ReadsNext(src, s, log, fs, |fs|);
  }

  lemma {:induction false} EndsOfGroupsAscend(sum: Checksum, log: Bytes, groups: seq<seq<Fragment>>,
                                              records: seq<Bytes>, k: nat, l: nat)
    requires IsLog(sum, log, groups, records) && k <= l < |groups|
    ensures EndOf(groups[k]) <= EndOf(groups[l]) <= |log|
  {
    GroupInFlat(groups, k);
    GroupInFlat(groups, l);
    assert IsRecord(groups[k], records[k]) && IsRecord(groups[l], records[l]);
    var i, j := |Flat(groups[..k])| + |groups[k]| - 1, |Flat(groups[..l])| + |groups[l]| - 1;
    FlatGrows(groups, k, l);
    assert Flat(groups)[i] == groups[k][|groups[k]| - 1] && Flat(groups)[j] == groups[l][|groups[l]| - 1];
    EndsAscend(sum, log, Flat(groups), i, j);
  }

  lemma {:induction false} FlatGrows(groups: seq<seq<Fragment>>, k: nat, l: nat)
    requires k <= l < |groups|
    ensures |Flat(groups[..k])| + |groups[k]| <= |Flat(groups[..l])| + |groups[l]|
  {
    if k < l {
      GroupInFlat(groups[..l], k);
      assert groups[..l][..k] == groups[..k];
    }
  }

  lemma {:induction false} CompleteIsPrefix(sum: Checksum, log: Bytes, groups: seq<seq<Fragment>>, records: seq<Bytes>,
                                            n: nat, m: nat)
    requires IsLog(sum, log, groups, records) && m <= |groups|
    ensures var c := CompleteRecords(groups[..m], n);
            && (forall k :: 0 <= k < c ==> EndOf(groups[k]) <= n)
            && (forall k :: c <= k < m ==> EndOf(groups[k]) > n)
  {
    if m > 0 {
      CompleteIsPrefix(sum, log, groups, records, n, m - 1);
      assert groups[..m][..m - 1] == groups[..m - 1];
      if EndOf(groups[m - 1]) <= n {
        forall k | 0 <= k < m ensures EndOf(groups[k]) <= n {
          EndsOfGroupsAscend(sum, log, groups, records, k, m - 1);
        }
      }
    }
  }

  /** All the records that a reader returns from here on. */
  function ReadRest(src: Source, s: Reading): (o: (seq<Bytes>, Reading))
    requires InFile(src, s)
    decreases Remaining(src, s)
  {
    var o := ReadLogical(src, s, [], false);
    if o.record.None? then ([], o.reading)
    else
      LogicalAdvances(src, s, [], false);
      var rest := ReadRest(src, o.reading);
      ([o.record.value] + rest.0, rest.1)
  }

  lemma {:induction false} LogicalAdvances(src: Source, s: Reading, scratch: Bytes, fragmented: bool)
    requires InFile(src, s)
    ensures var o := ReadLogical(src, s, scratch, fragmented);
            InFile(src, o.reading) && (o.record.Some? ==> Remaining(src, o.reading) < Remaining(src, s))
    decreases Remaining(src, s)
  {
    var o := ReadPhysical(src, s);
    match o.record {
      case Eof =>
      case BadRecord =>
        LogicalAdvances(src, Report(o.reading, fragmented), if fragmented then [] else scratch, false);
      case Physically(kind, payload) =>
        if kind == FIRST_TYPE {
          LogicalAdvances(src, Report(o.reading, fragmented && scratch != []), payload, true);
        } else if kind == MIDDLE_TYPE {
          LogicalAdvances(src, Report(o.reading, !fragmented), if fragmented then scratch + payload else scratch,
                          fragmented);
        } else if kind == LAST_TYPE && !fragmented {
          LogicalAdvances(src, Report(o.reading, true), scratch, false);
        } else if kind != FULL_TYPE && kind != LAST_TYPE {
          LogicalAdvances(src, Report(o.reading, true), [], false);
        }
    }
  }

  /** Reading goes on exactly as long as records are complete. */
  lemma {:induction false} ReadsCompleteRecords(src: Source, s: Reading, log: Bytes, groups: seq<seq<Fragment>>,
                                                records: seq<Bytes>, k: nat)
    requires src.file <= log && IsLog(src.sum, log, groups, records) && k <= CompleteRecords(groups, |src.file|)
    requires Before(src, s, Flat(groups), |Flat(groups[..k])|)
    ensures var o := ReadRest(src, s);
            o.0 == records[k..CompleteRecords(groups, |src.file|)] && o.1.corruptions == s.corruptions
    decreases |records| - k
  {
    CompleteIsPrefix(src.sum, log, groups, records, |src.file|, |groups|);
    assert groups[..|groups|] == groups;
    if k < |records| {
      ReadsNextRecord(src, s, log, groups, records, k);
      if EndOf(groups[k]) <= |src.file| {
        ReadsCompleteRecords(src, ReadLogical(src, s, [], false).reading, log, groups, records, k + 1);
      }
    } else {
      ReadsEndOfLog(src, s, log, Flat(groups));
    }
  }

  lemma {:induction false} WholeLogIsComplete(sum: Checksum, log: Bytes, groups: seq<seq<Fragment>>,
                                              records: seq<Bytes>)
    requires IsLog(sum, log, groups, records)
    ensures CompleteRecords(groups, |log|) == |records|
  {
    if groups != [] {
      EndsOfGroupsAscend(sum, log, groups, records, |groups| - 1, |groups| - 1);
    }
  }

  /**
     A log cut off at any byte is read as exactly the records that are complete in what is left, with no
     corruption reported; a whole log gives back every record that was added, by however many writers.
   */
  lemma {:induction false} CutOffLogReadsAsPrefix(src: Source, s: Reading, log: Bytes, groups: seq<seq<Fragment>>,
                                                  records: seq<Bytes>)
    requires AtStart(s) && src.file <= log && IsLog(src.sum, log, groups, records)
    ensures var o := ReadRest(src, s);
            && o.0 == records[..CompleteRecords(groups, |src.file|)]
            && o.1.corruptions == 0
            && (src.file == log ==> o.0 == records)
  {
    assert groups[..0] == [] && Flat(groups)[..0] == [];
    ReadsCompleteRecords(src, s, log, groups, records, 0);
    WholeLogIsComplete(src.sum, log, groups, records);
  }

  method ReadAll(src: Source, ghost start: Reading) returns (result: seq<Bytes>, corruptions: nat)
    requires AtStart(start)
    ensures var o := ReadRest(src, start); result == o.0 && corruptions == o.1.corruptions
  {
    var reader := new Reader(src);
    assert reader.State() == start;
    result := [];
    while true
      invariant reader.src == src && InFile(src, reader.State())
      invariant var o, all := ReadRest(src, reader.State()), ReadRest(src, start);
                all.0 == result + o.0 && all.1 == o.1
      decreases Remaining(src, reader.State())
    {
      var record := reader.ReadRecord();
      if record.None? {
        break;
      }
      result := result + [record.value];
    }
    corruptions := reader.corruptions;
  }
}
