/**
 The bytes of a version edit in the manifest: a list of tagged records, which the decoder folds into the
 edit that it is given.
 */
module VersionEdits {
  import opened InternalKeys
  import opened Coding

  datatype FileMetaData = FileMetaData(number: nat, size: nat, smallest: Bytes, largest: Bytes)

  datatype DeletedFile = DeletedFile(level: nat, number: nat)

  datatype Pointer = Pointer(level: nat, key: Bytes)

  datatype NewFile = NewFile(level: nat, file: FileMetaData)

  /** Deleted files form a set, kept in the order that it is iterated in. */
  datatype VersionEdit = VersionEdit(
    comparator: Option<Bytes>, logNumber: Option<nat>, prevLogNumber: Option<nat>, nextFileNumber: Option<nat>,
    lastSequence: Option<nat>, compactPointers: seq<Pointer>, deletedFiles: seq<DeletedFile>, newFiles: seq<NewFile>)

  datatype Record =
    | Comparator(name: Bytes)
    | LogNumber(n: nat)
    | NextFileNumber(n: nat)
    | LastSequence(n: nat)
    | CompactPointer(pointer: Pointer)
    | Deleted(deletion: DeletedFile)
    | Added(newFile: NewFile)
    | PrevLogNumber(n: nat)

  const FRESH: VersionEdit := VersionEdit(None, None, None, None, None, [], [], [])

  /** Clearing an edit leaves its compaction pointers alone. */
  function Cleared(e: VersionEdit): VersionEdit {
    FRESH.(compactPointers := e.compactPointers)
  }

  /** The numbers and the name that are set. */
  function Singles(e: VersionEdit): seq<Record> {
    (if e.comparator.Some? then [Comparator(e.comparator.value)] else [])
    + (if e.logNumber.Some? then [LogNumber(e.logNumber.value)] else [])
    + (if e.prevLogNumber.Some? then [PrevLogNumber(e.prevLogNumber.value)] else [])
    + (if e.nextFileNumber.Some? then [NextFileNumber(e.nextFileNumber.value)] else [])
    + (if e.lastSequence.Some? then [LastSequence(e.lastSequence.value)] else [])
  }

  /** The records of an edit, in the order that they are written. */
  function Records(e: VersionEdit): seq<Record> {
    Singles(e) + Pointers(e.compactPointers) + Deletions(e.deletedFiles) + Additions(e.newFiles)
  }

  function Pointers(ps: seq<Pointer>): (rs: seq<Record>)
    ensures |rs| == |ps| && forall i :: 0 <= i < |ps| ==> rs[i] == CompactPointer(ps[i])
  {
    seq(|ps|, i requires 0 <= i < |ps| => CompactPointer(ps[i]))
  }

  function Deletions(ds: seq<DeletedFile>): (rs: seq<Record>)
    ensures |rs| == |ds| && forall i :: 0 <= i < |ds| ==> rs[i] == Deleted(ds[i])
  {
    seq(|ds|, i requires 0 <= i < |ds| => Deleted(ds[i]))
  }

  function Additions(fs: seq<NewFile>): (rs: seq<Record>)
    ensures |rs| == |fs| && forall i :: 0 <= i < |fs| ==> rs[i] == Added(fs[i])
  {
    seq(|fs|, i requires 0 <= i < |fs| => Added(fs[i]))
  }

  function EncodeRecord(r: Record): Bytes {
    match r
    case Comparator(name) => Varint(1) + LengthPrefixed(name)
    case LogNumber(n) => Varint(2) + Varint(n)
    case NextFileNumber(n) => Varint(3) + Varint(n)
    case LastSequence(n) => Varint(4) + Varint(n)
    case CompactPointer(p) => Varint(5) + (Varint(p.level) + LengthPrefixed(p.key))
    case Deleted(d) => Varint(6) + (Varint(d.level) + Varint(d.number))
    case Added(f) =>
      Varint(7) + (Varint(f.level) + (Varint(f.file.number) + (Varint(f.file.size)
                   + (LengthPrefixed(f.file.smallest) + LengthPrefixed(f.file.largest)))))
    case PrevLogNumber(n) => Varint(9) + Varint(n)
  }

  function EncodeRecords(rs: seq<Record>): Bytes {
    if rs == [] then [] else EncodeRecords(rs[..|rs| - 1]) + EncodeRecord(rs[|rs| - 1])
  }

  /** What could be read, and what is left. */
  datatype Parsed<+T> = Parsed(value: T, rest: Bytes) | Bad

  function ReadNumber(s: Bytes): (p: Parsed<nat>)
    ensures p.Parsed? ==> |p.rest| < |s|
  {
    match GetVarint64(s)
    case Some(d) => Parsed(d.value, s[d.used..])
    case None => Bad
  }

  function ReadSlice(s: Bytes): (p: Parsed<Bytes>)
    ensures p.Parsed? ==> |p.rest| < |s|
  {
    match GetLengthPrefixedSlice(s)
    case Some(slice) => if |slice.rest| < |s| then Parsed(slice.contents, slice.rest) else Bad
    case None => Bad
  }

  function ReadLevel(s: Bytes): (p: Parsed<nat>)
    ensures p.Parsed? ==> |p.rest| < |s| && p.value < NUM_LEVELS
  {
    match GetVarint32(s)
    case Some(d) => if d.value < NUM_LEVELS then Parsed(d.value, s[d.used..]) else Bad
    case None => Bad
  }

  function ReadFile(level: nat, s: Bytes): (p: Parsed<Record>)
    ensures p.Parsed? ==> |p.rest| < |s|
  {
    match ReadNumber(s)
    case Bad => Bad
    case Parsed(number, a) =>
      match ReadNumber(a)
      case Bad => Bad
      case Parsed(size, b) =>
        match ReadSlice(b)
        case Bad => Bad
        case Parsed(smallest, c) =>
          match ReadSlice(c)
          case Bad => Bad
          case Parsed(largest, d) => Parsed(Added(NewFile(level, FileMetaData(number, size, smallest, largest))), d)
  }

  /** What follows a tag. */
  function ReadBody(tag: nat, s: Bytes): (p: Parsed<Record>)
    ensures p.Parsed? ==> |p.rest| < |s|
  {
    if tag == 1 then
      match ReadSlice(s)
      case Bad => Bad
      case Parsed(name, rest) => Parsed(Comparator(name), rest)
    else if tag == 2 || tag == 3 || tag == 4 || tag == 9 then
      match ReadNumber(s)
      case Bad => Bad
      case Parsed(n, rest) =>
        Parsed(if tag == 2 then LogNumber(n) else if tag == 3 then NextFileNumber(n)
               else if tag == 4 then LastSequence(n) else PrevLogNumber(n), rest)
    else if tag == 5 || tag == 6 || tag == 7 then
      match ReadLevel(s)
      case Bad => Bad
      case Parsed(level, rest) =>
        if tag == 5 then
          match ReadSlice(rest)
          case Bad => Bad
          case Parsed(key, after) => Parsed(CompactPointer(Pointer(level, key)), after)
        else if tag == 6 then
          match ReadNumber(rest)
          case Bad => Bad
          case Parsed(number, after) => Parsed(Deleted(DeletedFile(level, number)), after)
        else ReadFile(level, rest)
    else Bad
  }

  predicate DeletedBefore(a: DeletedFile, b: DeletedFile) {
    a.level < b.level || (a.level == b.level && a.number < b.number)
  }

  function InsertDeleted(ds: seq<DeletedFile>, d: DeletedFile): seq<DeletedFile> {
    if ds == [] || DeletedBefore(d, ds[0]) then [d] + ds
    else if ds[0] == d then ds
    else [ds[0]] + InsertDeleted(ds[1..], d)
  }

  function Apply(e: VersionEdit, r: Record): VersionEdit {
    match r
    case Comparator(name) => e.(comparator := Some(name))
    case LogNumber(n) => e.(logNumber := Some(n))
    case NextFileNumber(n) => e.(nextFileNumber := Some(n))
    case LastSequence(n) => e.(lastSequence := Some(n))
    case CompactPointer(p) => e.(compactPointers := e.compactPointers + [p])
    case Deleted(d) => e.(deletedFiles := InsertDeleted(e.deletedFiles, d))
    case Added(f) => e.(newFiles := e.newFiles + [f])
    case PrevLogNumber(n) => e.(prevLogNumber := Some(n))
  }

  function ApplyAll(e: VersionEdit, rs: seq<Record>): VersionEdit {
    if rs == [] then e else Apply(ApplyAll(e, rs[..|rs| - 1]), rs[|rs| - 1])
  }

  /** Reads records until the input ends; anything that is not a record is a corruption. */
  function DecodeRecords(e: VersionEdit, s: Bytes): Option<VersionEdit>
    decreases |s|
  {
    match GetVarint32(s)
    case None => if s == [] then Some(e) else None
    case Some(tag) =>
      match ReadBody(tag.value, s[tag.used..])
      case Bad => None
      case Parsed(r, rest) => DecodeRecords(Apply(e, r), rest)
  }

  function DecodeFrom(into: VersionEdit, src: Bytes): Option<VersionEdit> {
    DecodeRecords(Cleared(into), src)
  }

  predicate RecordOk(r: Record) {
    match r
    case Comparator(name) => |name| < WORD32
    case LogNumber(n) => n < WORD64
    case NextFileNumber(n) => n < WORD64
    case LastSequence(n) => n < WORD64
    case CompactPointer(p) => p.level < NUM_LEVELS && |p.key| < WORD32
    case Deleted(d) => d.level < NUM_LEVELS && d.number < WORD64
    case Added(f) =>
      f.level < NUM_LEVELS && f.file.number < WORD64 && f.file.size < WORD64
      && |f.file.smallest| < WORD32 && |f.file.largest| < WORD32
    case PrevLogNumber(n) => n < WORD64
  }

  /** Numbers fit in their words, and the deleted files are listed as a set is iterated. */
  ghost predicate EditOk(e: VersionEdit) {
    && (forall r :: r in Records(e) ==> RecordOk(r))
    && forall i, j :: 0 <= i < j < |e.deletedFiles| ==> DeletedBefore(e.deletedFiles[i], e.deletedFiles[j])
  }

  lemma NumberRead(n: nat, rest: Bytes)
    requires n < WORD64
    ensures ReadNumber(Varint(n) + rest) == Parsed(n, rest)
  {
    Varint64RoundTrip(n, rest);
    assert (Varint(n) + rest)[|Varint(n)|..] == rest;
  }

  lemma SliceRead(b: Bytes, rest: Bytes)
    requires |b| < WORD32
    ensures ReadSlice(LengthPrefixed(b) + rest) == Parsed(b, rest)
  {
    LengthPrefixedRoundTrip(b, rest);
  }

  lemma LevelRead(level: nat, rest: Bytes)
    requires level < NUM_LEVELS
    ensures ReadLevel(Varint(level) + rest) == Parsed(level, rest)
  {
    Varint32RoundTrip(level, rest);
    assert (Varint(level) + rest)[|Varint(level)|..] == rest;
  }

  lemma {:induction false} FileRead(f: NewFile, rest: Bytes)
    requires RecordOk(Added(f))
    ensures var s := Varint(f.file.number) + (Varint(f.file.size)
            + (LengthPrefixed(f.file.smallest) + LengthPrefixed(f.file.largest)));
            ReadFile(f.level, s + rest) == Parsed(Added(f), rest)
  {
    var d := LengthPrefixed(f.file.largest);
    var c := LengthPrefixed(f.file.smallest);
    var b := Varint(f.file.size);
    var a := Varint(f.file.number);
    Associates(a, b + (c + d), rest);
    Associates(b, c + d, rest);
    Associates(c, d, rest);
    NumberRead(f.file.number, b + (c + d) + rest);
    NumberRead(f.file.size, c + d + rest);
    SliceRead(f.file.smallest, d + rest);
    SliceRead(f.file.largest, rest);
  }

  function TagOf(r: Record): nat {
    match r
    case Comparator(_) => 1
    case LogNumber(_) => 2
    case NextFileNumber(_) => 3
    case LastSequence(_) => 4
    case CompactPointer(_) => 5
    case Deleted(_) => 6
    case Added(_) => 7
    case PrevLogNumber(_) => 9
  }

  function Body(r: Record): (b: Bytes)
    ensures EncodeRecord(r) == Varint(TagOf(r)) + b
  {
    match r
    case Comparator(name) => LengthPrefixed(name)
    case LogNumber(n) => Varint(n)
    case NextFileNumber(n) => Varint(n)
    case LastSequence(n) => Varint(n)
    case CompactPointer(p) => Varint(p.level) + LengthPrefixed(p.key)
    case Deleted(d) => Varint(d.level) + Varint(d.number)
    case Added(f) =>
      Varint(f.level) + (Varint(f.file.number) + (Varint(f.file.size)
                         + (LengthPrefixed(f.file.smallest) + LengthPrefixed(f.file.largest))))
    case PrevLogNumber(n) => Varint(n)
  }

  lemma {:induction false} BodyRead(r: Record, rest: Bytes)
    requires RecordOk(r)
    ensures ReadBody(TagOf(r), Body(r) + rest) == Parsed(r, rest)
  {
    match r {
      case Comparator(name) => SliceRead(name, rest);
      case LogNumber(n) => NumberRead(n, rest);
      case NextFileNumber(n) => NumberRead(n, rest);
      case LastSequence(n) => NumberRead(n, rest);
      case PrevLogNumber(n) => NumberRead(n, rest);
      case CompactPointer(p) =>
        Associates(Varint(p.level), LengthPrefixed(p.key), rest);
        LevelRead(p.level, LengthPrefixed(p.key) + rest);
        SliceRead(p.key, rest);
      case Deleted(d) =>
        Associates(Varint(d.level), Varint(d.number), rest);
        LevelRead(d.level, Varint(d.number) + rest);
        NumberRead(d.number, rest);
      case Added(f) =>
        var s := Varint(f.file.number) + (Varint(f.file.size)
            + (LengthPrefixed(f.file.smallest) + LengthPrefixed(f.file.largest)));
        Associates(Varint(f.level), s, rest);
        LevelRead(f.level, s + rest);
        FileRead(f, rest);
    }
  }

  lemma {:induction false} RecordRead(e: VersionEdit, r: Record, rest: Bytes)
    requires RecordOk(r)
    ensures DecodeRecords(e, EncodeRecord(r) + rest) == DecodeRecords(Apply(e, r), rest)
  {
    Associates(Varint(TagOf(r)), Body(r), rest);
    Varint32RoundTrip(TagOf(r), Body(r) + rest);
    assert (Varint(TagOf(r)) + (Body(r) + rest))[|Varint(TagOf(r))|..] == Body(r) + rest;
    BodyRead(r, rest);
  }

  lemma {:induction false} RecordsRead(e: VersionEdit, rs: seq<Record>, rest: Bytes)
    requires forall r :: r in rs ==> RecordOk(r)
    ensures DecodeRecords(e, EncodeRecords(rs) + rest) == DecodeRecords(ApplyAll(e, rs), rest)
    decreases |rs|
  {
    if rs == [] {
      assert [] + rest == rest;
    } else {
      var front, last := rs[..|rs| - 1], rs[|rs| - 1];
      Associates(EncodeRecords(front), EncodeRecord(last), rest);
      RecordsRead(e, front, EncodeRecord(last) + rest);
      RecordRead(ApplyAll(e, front), last, rest);
    }
  }

  lemma {:induction false} ApplyConcat(e: VersionEdit, a: seq<Record>, b: seq<Record>)
    ensures ApplyAll(e, a + b) == ApplyAll(ApplyAll(e, a), b)
    decreases |b|
  {
    if b == [] {
      assert a + b == a;
    } else {
      ApplyConcat(e, a, b[..|b| - 1]);
      assert (a + b)[..|a + b| - 1] == a + b[..|b| - 1];
    }
  }

  lemma {:induction false} ApplyPointers(e: VersionEdit, ps: seq<Pointer>)
    ensures ApplyAll(e, Pointers(ps)) == e.(compactPointers := e.compactPointers + ps)
  {
    if ps == [] {
      assert e.compactPointers + ps == e.compactPointers;
    } else {
      var front := ps[..|ps| - 1];
      ApplyPointers(e, front);
      assert Pointers(ps)[..|ps| - 1] == Pointers(front);
      assert e.compactPointers + front + [ps[|ps| - 1]] == e.compactPointers + ps;
    }
  }

  lemma {:induction false} ApplyAdditions(e: VersionEdit, fs: seq<NewFile>)
    ensures ApplyAll(e, Additions(fs)) == e.(newFiles := e.newFiles + fs)
  {
    if fs == [] {
      assert e.newFiles + fs == e.newFiles;
    } else {
      var front := fs[..|fs| - 1];
      ApplyAdditions(e, front);
      assert Additions(fs)[..|fs| - 1] == Additions(front);
      assert e.newFiles + front + [fs[|fs| - 1]] == e.newFiles + fs;
    }
  }

  lemma {:induction false} InsertLast(ds: seq<DeletedFile>, d: DeletedFile)
    requires forall i :: 0 <= i < |ds| ==> DeletedBefore(ds[i], d)
    ensures InsertDeleted(ds, d) == ds + [d]
  {
    if ds != [] {
      InsertLast(ds[1..], d);
      assert ds + [d] == [ds[0]] + (ds[1..] + [d]);
    }
  }

  lemma {:induction false} ApplyDeletions(e: VersionEdit, ds: seq<DeletedFile>)
    requires e.deletedFiles == [] && forall i, j :: 0 <= i < j < |ds| ==> DeletedBefore(ds[i], ds[j])
    ensures ApplyAll(e, Deletions(ds)) == e.(deletedFiles := ds)
  {
    if ds != [] {
      var front := ds[..|ds| - 1];
      ApplyDeletions(e, front);
      assert Deletions(ds)[..|ds| - 1] == Deletions(front);
      InsertLast(front, ds[|ds| - 1]);
      assert front + [ds[|ds| - 1]] == ds;
    }
  }

  lemma ApplyAtMostOne(e: VersionEdit, rs: seq<Record>, after: VersionEdit)
    requires |rs| <= 1 && after == if rs == [] then e else Apply(e, rs[0])
    ensures ApplyAll(e, rs) == after
  {
    assert rs != [] ==> rs[..0] == [];
  }

  lemma {:induction false} ApplySingles(into: VersionEdit, e: VersionEdit)
    requires into.comparator.None? && into.logNumber.None? && into.prevLogNumber.None?
    requires into.nextFileNumber.None? && into.lastSequence.None?
    ensures ApplyAll(into, Singles(e)) == into.(comparator := e.comparator, logNumber := e.logNumber,
                                               prevLogNumber := e.prevLogNumber, nextFileNumber := e.nextFileNumber,
                                               lastSequence := e.lastSequence)
  {
    var a := if e.comparator.Some? then [Comparator(e.comparator.value)] else [];
    var b := if e.logNumber.Some? then [LogNumber(e.logNumber.value)] else [];
    var c := if e.prevLogNumber.Some? then [PrevLogNumber(e.prevLogNumber.value)] else [];
    var d := if e.nextFileNumber.Some? then [NextFileNumber(e.nextFileNumber.value)] else [];
    var f := if e.lastSequence.Some? then [LastSequence(e.lastSequence.value)] else [];
    ApplyConcat(into, a + b + c + d, f);
    ApplyConcat(into, a + b + c, d);
    ApplyConcat(into, a + b, c);
    ApplyConcat(into, a, b);
    var i1 := into.(comparator := e.comparator);
    ApplyAtMostOne(into, a, i1);
    var i2 := i1.(logNumber := e.logNumber);
    ApplyAtMostOne(i1, b, i2);
    var i3 := i2.(prevLogNumber := e.prevLogNumber);
    ApplyAtMostOne(i2, c, i3);
    var i4 := i3.(nextFileNumber := e.nextFileNumber);
    ApplyAtMostOne(i3, d, i4);
    ApplyAtMostOne(i4, f, i4.(lastSequence := e.lastSequence));
  }

  lemma {:induction false} ApplyRecords(into: VersionEdit, e: VersionEdit)
    requires EditOk(e)
    ensures ApplyAll(Cleared(into), Records(e)) == e.(compactPointers := into.compactPointers + e.compactPointers)
  {
    var start := Cleared(into);
    ApplyConcat(start, Singles(e) + Pointers(e.compactPointers) + Deletions(e.deletedFiles), Additions(e.newFiles));
    ApplyConcat(start, Singles(e) + Pointers(e.compactPointers), Deletions(e.deletedFiles));
    ApplyConcat(start, Singles(e), Pointers(e.compactPointers));
    ApplySingles(start, e);
    var one := ApplyAll(start, Singles(e));
    ApplyPointers(one, e.compactPointers);
    var two := one.(compactPointers := into.compactPointers + e.compactPointers);
    ApplyDeletions(two, e.deletedFiles);
    ApplyAdditions(two.(deletedFiles := e.deletedFiles), e.newFiles);
    assert [] + e.newFiles == e.newFiles;
  }

  /** Decoding what was encoded gives the edit back, with its compaction pointers behind those that were there. */
  lemma {:induction false} EditRoundTrip(into: VersionEdit, e: VersionEdit)
    requires EditOk(e)
    ensures DecodeFrom(into, EncodeRecords(Records(e))) ==
            Some(e.(compactPointers := into.compactPointers + e.compactPointers))
  {
    RecordsRead(Cleared(into), Records(e), []);
    assert EncodeRecords(Records(e)) + [] == EncodeRecords(Records(e));
    ApplyRecords(into, e);
  }

  /** It gives exactly that edit back if and only if there were no compaction pointers, as in a fresh one. */
  lemma {:induction false} EditRestoredExactly(into: VersionEdit, e: VersionEdit)
    requires EditOk(e)
    ensures DecodeFrom(into, EncodeRecords(Records(e))) == Some(e) <==> into.compactPointers == []
  {
    EditRoundTrip(into, e);
    assert [] + e.compactPointers == e.compactPointers;
    assert |into.compactPointers + e.compactPointers| == |into.compactPointers| + |e.compactPointers|;
  }

  lemma RecordsAppend(rs: seq<Record>, i: nat, before: Bytes)
    requires i < |rs|
    ensures before + EncodeRecords(rs[..i + 1]) == before + EncodeRecords(rs[..i]) + EncodeRecord(rs[i])
  {
    assert rs[..i + 1][..i] == rs[..i];
    Associates(before, EncodeRecords(rs[..i]), EncodeRecord(rs[i]));
  }

  /** Writes the records one by one. */
  method EncodeTo(e: VersionEdit, dst0: Bytes) returns (dst: Bytes)
    ensures dst == dst0 + EncodeRecords(Records(e))
  {
    var rs := Records(e);
    dst := dst0;
    for i := 0 to |rs|
      invariant dst == dst0 + EncodeRecords(rs[..i])
    {
      RecordsAppend(rs, i, dst0);
      dst := dst + EncodeRecord(rs[i]);
    }
    assert rs[..|rs|] == rs;
  }

  /** Folds the records of the input into an edit. */
  method Decode(into: VersionEdit, src: Bytes) returns (result: Option<VersionEdit>)
    ensures result == DecodeFrom(into, src)
  {
    var e, input := Cleared(into), src;
    while true
      invariant DecodeRecords(e, input) == DecodeFrom(into, src)
      decreases |input|
    {
      var tag := GetVarint32(input);
      if tag.None? {
        break;
      }
      var body := ReadBody(tag.value.value, input[tag.value.used..]);
      if body.Bad? {
        return None;
      }
      e := Apply(e, body.value);
      input := body.rest;
    }
    result := if input == [] then Some(e) else None;
  }
}
