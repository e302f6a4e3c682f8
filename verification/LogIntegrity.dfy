/**
 What the log reader can return: from any bytes, however damaged, only records whose fragments are in the file
 with the right checksums, in the right order.
 */
module LogIntegrity {
  import opened InternalKeys
  import opened Coding
  import opened Log

  /** Fragments that are in the file with their checksums, one after the other, up to `end`. */
  ghost predicate Intact(src: Source, fs: seq<Fragment>, end: nat) {
    && (forall i :: 0 <= i < |fs| ==> Holds(src.sum, src.file, fs[i]) && End(fs[i]) <= end)
    && forall i, j :: 0 <= i < j < |fs| ==> End(fs[i]) <= fs[j].at
  }

  lemma HeaderRead(src: Source, s: Reading)
    requires Aligned(src, s) && src.checksum && |s.buffer| >= 7
    requires Parse(src, s).record.Physically? && 1 <= s.buffer[6] <= 4
    ensures var length := LengthField(s.buffer);
            7 + length <= |s.buffer| && s.buffer[..7 + length] ==
                Physical(src.sum, s.buffer[6], s.buffer[7..7 + length])
  {
    var length := LengthField(s.buffer);
    var payload := s.buffer[7..7 + length];
    FixedOfDecoded(s.buffer[..4]);
    assert s.buffer[..4] == Fixed32(Low32(src.sum(s.buffer[6], payload)));
    assert length % 256 == s.buffer[4] && length / 256 == s.buffer[5];
    assert s.buffer[..7 + length] == s.buffer[..4] + [s.buffer[4], s.buffer[5], s.buffer[6]] + payload;
  }

  /** A physical record that is returned with one of the four types is in the file, with its checksum. */
  lemma {:induction false} ParsedIsHeld(src: Source, s: Reading)
    requires Aligned(src, s) && src.checksum && |s.buffer| >= 7
    ensures var o := Parse(src, s);
            && Aligned(src, o.reading) && At(s) <= At(o.reading)
            && (o.record.Physically? && 1 <= o.record.kind <= 4 ==>
                  && Holds(src.sum, src.file, Fragment(At(s), o.record.kind, o.record.payload))
                  && End(Fragment(At(s), o.record.kind, o.record.payload)) == At(o.reading))
  {
    var o := Parse(src, s);
    var length := LengthField(s.buffer);
    if o.record.Physically? {
      Consumed(src, s, 7 + length);
      if 1 <= o.record.kind <= 4 {
        HeaderRead(src, s);
        InBlock(src, s, 7 + length);
      }
    } else {
      Consumed(src, s, |s.buffer|);
    }
  }

  /** Taking bytes from the front of the buffer. */
  lemma Consumed(src: Source, s: Reading, n: nat)
    requires Aligned(src, s) && n <= |s.buffer|
    ensures Aligned(src, s.(buffer := s.buffer[n..])) && src.file[At(s)..At(s) + n] == s.buffer[..n]
    ensures Aligned(src, s.(buffer := [])) && |s.buffer[n..]| == |s.buffer| - n
  {
    SliceOfSlice(src.file, s.position - |s.buffer|, s.position, n, |s.buffer|);
    SliceOfSlice(src.file, s.position - |s.buffer|, s.position, 0, n);
    assert s.buffer[n..] == s.buffer[n..|s.buffer|];
  }

  /** What is taken lies in one block. */
  lemma InBlock(src: Source, s: Reading, n: nat)
    requires Aligned(src, s) && 0 < n <= |s.buffer|
    ensures BlockOffset(At(s)) + n <= 32768
  {
  }

  /** Where the physical record that is read next starts. */
  lemma {:induction false} ReadIsHeld(src: Source, s: Reading) returns (at: nat)
    requires Aligned(src, s) && src.checksum
    ensures var o := ReadPhysical(src, s);
            && Aligned(src, o.reading) && At(s) <= at <= At(o.reading)
            && (o.record.Physically? && 1 <= o.record.kind <= 4 ==>
                  && Holds(src.sum, src.file, Fragment(at, o.record.kind, o.record.payload))
                  && End(Fragment(at, o.record.kind, o.record.payload)) == At(o.reading))
    decreases if s.eof then 0 else 1, |src.file| - s.position
  {
    if |s.buffer| >= 7 {
      at := At(s);
      ParsedIsHeld(src, s);
    } else if s.eof {
      at := At(s);
    } else {
      LoadAligned(src, s);
      at := ReadIsHeld(src, Load(src, s));
    }
  }

  lemma IntactLater(src: Source, fs: seq<Fragment>, end: nat, later: nat)
    requires Intact(src, fs, end) && end <= later
    ensures Intact(src, fs, later)
  {
  }

  lemma IntactNext(src: Source, fs: seq<Fragment>, end: nat, f: Fragment)
    requires Intact(src, fs, end) && Holds(src.sum, src.file, f) && end <= f.at
    ensures Intact(src, fs + [f], End(f))
  {
  }

  /** What is being put together: when fragmented, intact fragments of a record that has begun. */
  ghost predicate Collected(src: Source, fs: seq<Fragment>, end: nat, scratch: Bytes, fragmented: bool) {
    fragmented ==> Intact(src, fs, end) && IsOpen(fs) && PayloadOf(fs) == scratch
  }

  lemma CollectedNext(src: Source, fs: seq<Fragment>, end: nat, scratch: Bytes, f: Fragment)
    requires Collected(src, fs, end, scratch, true) && Holds(src.sum, src.file, f) && end <= f.at
    ensures Intact(src, fs + [f], End(f)) && PayloadOf(fs + [f]) == scratch + f.payload
    ensures f.kind == MIDDLE_TYPE ==> Collected(src, fs + [f], End(f), scratch + f.payload, true)
    ensures f.kind == LAST_TYPE ==> IsRecord(fs + [f], scratch + f.payload)
  {
    IntactLater(src, fs, end, f.at);
    IntactNext(src, fs, f.at, f);
    OneMoreFragment(fs, f);
  }

  /** A record that is returned is put together from intact fragments. */
  ghost predicate Returned(src: Source, o: Outcome, fs: seq<Fragment>) {
    o.record.Some? ==>
      Aligned(src, o.reading) && IsRecord(fs, o.record.value) && Intact(src, fs, At(o.reading))
  }

  lemma {:induction false} ReadLogicalIsIntact(src: Source, s: Reading, scratch: Bytes, fragmented: bool,
                                               begun: seq<Fragment>)
    returns (fs: seq<Fragment>)
    requires Aligned(src, s) && src.checksum && Collected(src, begun, At(s), scratch, fragmented)
    ensures Returned(src, ReadLogical(src, s, scratch, fragmented), fs)
    decreases Remaining(src, s), 1
  {
    var o := ReadPhysical(src, s);
    var at := ReadIsHeld(src, s);
    fs := [];
    match o.record {
      case Eof =>
      case BadRecord =>
        fs := ReadLogicalIsIntact(src, Report(o.reading, fragmented), if fragmented then [] else scratch, false, []);
      case Physically(kind, payload) =>
        if fragmented && (kind == MIDDLE_TYPE || kind == LAST_TYPE) {
          fs := GoesOnIntact(src, s, scratch, begun, Fragment(at, kind, payload));
        } else {
          fs := BeginsIntact(src, s, scratch, fragmented, Fragment(at, kind, payload));
        }
    }
  }

  /** The fragment goes on with the record that has begun. */
  lemma {:induction false} GoesOnIntact(src: Source, s: Reading, scratch: Bytes, begun: seq<Fragment>, f: Fragment)
    returns (fs: seq<Fragment>)
    requires Aligned(src, s) && src.checksum && Collected(src, begun, At(s), scratch, true)
    requires var o := ReadPhysical(src, s);
             && o.record == Physically(f.kind, f.payload) && Aligned(src, o.reading)
             && Holds(src.sum, src.file, f) && At(s) <= f.at && End(f) == At(o.reading)
    requires f.kind == MIDDLE_TYPE || f.kind == LAST_TYPE
    ensures Returned(src, ReadLogical(src, s, scratch, true), fs)
    decreases Remaining(src, s), 0
  {
    var o := ReadPhysical(src, s);
    CollectedNext(src, begun, At(s), scratch, f);
    if f.kind == MIDDLE_TYPE {
      fs := ReadLogicalIsIntact(src, o.reading, scratch + f.payload, true, begun + [f]);
    } else {
      fs := begun + [f];
    }
  }

  /** The fragment begins a record, is one, or is not expected here. */
  lemma {:induction false} BeginsIntact(src: Source, s: Reading, scratch: Bytes, fragmented: bool, f: Fragment)
    returns (fs: seq<Fragment>)
    requires Aligned(src, s) && src.checksum
    requires var o := ReadPhysical(src, s);
             && o.record == Physically(f.kind, f.payload) && Aligned(src, o.reading)
             && (1 <= f.kind <= 4 ==> Holds(src.sum, src.file, f) && End(f) == At(o.reading))
    requires fragmented ==> f.kind != MIDDLE_TYPE && f.kind != LAST_TYPE
    ensures Returned(src, ReadLogical(src, s, scratch, fragmented), fs)
    decreases Remaining(src, s), 0
  {
    var o := ReadPhysical(src, s);
    OneFragment(f);
    if f.kind == FULL_TYPE {
      fs := [f];
    } else if f.kind == FIRST_TYPE {
      fs := ReadLogicalIsIntact(src, Report(o.reading, fragmented && scratch != []), f.payload, true, [f]);
    } else if f.kind == MIDDLE_TYPE || f.kind == LAST_TYPE {
      fs := ReadLogicalIsIntact(src, Report(o.reading, true), scratch, false, []);
    } else {
      fs := ReadLogicalIsIntact(src, Report(o.reading, true), [], false, []);
    }
  }

  lemma OneFragment(f: Fragment)
    ensures PayloadOf([f]) == f.payload
  {
    assert [f][..0] == [];
  }

  lemma OneMoreFragment(fs: seq<Fragment>, f: Fragment)
    ensures PayloadOf(fs + [f]) == PayloadOf(fs) + f.payload
    ensures (fs + [f])[..|fs|] == fs
  {
  }

  /** Whatever the file holds, a record that is returned is put together from intact fragments. */
  lemma {:induction false} ReturnedIsIntact(src: Source, s: Reading) returns (fs: seq<Fragment>)
    requires Aligned(src, s) && src.checksum
    ensures Returned(src, ReadLogical(src, s, [], false), fs)
  {
    fs := ReadLogicalIsIntact(src, s, [], false, []);
  }
}
