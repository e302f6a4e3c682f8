/**
 Recovery from the manifest: every record is decoded into a fresh edit, and one builder folds all the edits
 into the lists of files that were in use when the last of them was written.
 */
module Recovery {
  import opened InternalKeys
  import opened Coding
  import opened VersionEdits
  import VB = VersionBuilder

  function NewFilesOf(fs: seq<NewFile>): (r: seq<(nat, FileMetaData)>)
    ensures |r| == |fs| && forall i :: 0 <= i < |fs| ==> r[i] == (fs[i].level, fs[i].file)
  {
    seq(|fs|, i requires 0 <= i < |fs| => (fs[i].level, fs[i].file))
  }

  /** What an edit does to the levels. */
  function ToEdit(e: VersionEdit): VB.Edit<FileMetaData> {
    VB.Edit(set d | d in e.deletedFiles :: (d.level, d.number), NewFilesOf(e.newFiles))
  }

  function ToEdits(es: seq<VersionEdit>): (r: seq<VB.Edit<FileMetaData>>)
    ensures |r| == |es| && forall i :: 0 <= i < |es| ==> r[i] == ToEdit(es[i])
  {
    seq(|es|, i requires 0 <= i < |es| => ToEdit(es[i]))
  }

  /** The numbers that later edits overwrite. */
  datatype Counters = Counters(logNumber: Option<nat>, prevLogNumber: Option<nat>, nextFile: Option<nat>,
                               lastSequence: Option<nat>)

  function Latest(older: Option<nat>, newer: Option<nat>): Option<nat> {
    if newer.Some? then newer else older
  }

  function Counted(c: Counters, e: VersionEdit): Counters {
    Counters(Latest(c.logNumber, e.logNumber), Latest(c.prevLogNumber, e.prevLogNumber),
             Latest(c.nextFile, e.nextFileNumber), Latest(c.lastSequence, e.lastSequence))
  }

  /** `r` is what the last edit that gives a number gives; nothing if none does. */
  ghost predicate IsLast(given: seq<Option<nat>>, r: Option<nat>) {
    match r
    case None => forall i :: 0 <= i < |given| ==> given[i].None?
    case Some(n) => exists i :: 0 <= i < |given| && given[i] == Some(n) && forall j ::
          i < j < |given| ==> given[j].None?
  }

  function LogNumbers(es: seq<VersionEdit>): seq<Option<nat>> {
    seq(|es|, i requires 0 <= i < |es| => es[i].logNumber)
  }

  function PrevLogNumbers(es: seq<VersionEdit>): seq<Option<nat>> {
    seq(|es|, i requires 0 <= i < |es| => es[i].prevLogNumber)
  }

  function NextFiles(es: seq<VersionEdit>): seq<Option<nat>> {
    seq(|es|, i requires 0 <= i < |es| => es[i].nextFileNumber)
  }

  function LastSequences(es: seq<VersionEdit>): seq<Option<nat>> {
    seq(|es|, i requires 0 <= i < |es| => es[i].lastSequence)
  }

  ghost predicate AreLast(es: seq<VersionEdit>, c: Counters) {
    && IsLast(LogNumbers(es), c.logNumber) && IsLast(PrevLogNumbers(es), c.prevLogNumber)
    && IsLast(NextFiles(es), c.nextFile) && IsLast(LastSequences(es), c.lastSequence)
  }

  lemma LatestIsLast(given: seq<Option<nat>>, r: Option<nat>, next: Option<nat>)
    requires IsLast(given, r)
    ensures IsLast(given + [next], Latest(r, next))
  {
    var all := given + [next];
    if next.Some? {
      assert all[|given|] == next;
    } else if r.Some? {
      var i :| 0 <= i < |given| && given[i] == r && forall j :: i < j < |given| ==> given[j].None?;
      assert all[i] == r;
    }
  }

  lemma CountedAreLast(es: seq<VersionEdit>, c: Counters, e: VersionEdit)
    requires AreLast(es, c)
    ensures AreLast(es + [e], Counted(c, e))
  {
    LatestIsLast(LogNumbers(es), c.logNumber, e.logNumber);
    assert LogNumbers(es + [e]) == LogNumbers(es) + [e.logNumber];
    LatestIsLast(PrevLogNumbers(es), c.prevLogNumber, e.prevLogNumber);
    assert PrevLogNumbers(es + [e]) == PrevLogNumbers(es) + [e.prevLogNumber];
    LatestIsLast(NextFiles(es), c.nextFile, e.nextFileNumber);
    assert NextFiles(es + [e]) == NextFiles(es) + [e.nextFileNumber];
    LatestIsLast(LastSequences(es), c.lastSequence, e.lastSequence);
    assert LastSequences(es + [e]) == LastSequences(es) + [e.lastSequence];
  }

  /** A number is given at most one last time. */
  lemma LastIsUnique(given: seq<Option<nat>>, a: Option<nat>, b: Option<nat>)
    requires IsLast(given, a) && IsLast(given, b)
    ensures a == b
  {
  }

  datatype Outcome =
    | Recovered(files: seq<seq<FileMetaData>>, nextFile: nat, lastSequence: nat, logNumber: nat, prevLogNumber: nat)
    | ComparatorMismatch
    | Corruption

  predicate Mismatch(e: VersionEdit, comparator: Bytes) {
    e.comparator.Some? && e.comparator.value != comparator
  }

  /** Every record goes to an edit of its own. */
  function IntoFresh(): Bytes -> Option<VersionEdit> {
    (record: Bytes) => DecodeFrom(FRESH, record)
  }

  /** `es` is what decodes of the records, up to the first that does not. */
  ghost predicate DecodesTo(decode: Bytes -> Option<VersionEdit>, records: seq<Bytes>, es: seq<VersionEdit>) {
    && |es| <= |records|
    && (forall i :: 0 <= i < |es| ==> decode(records[i]) == Some(es[i]))
    && (|es| < |records| ==> decode(records[|es|]) == None)
  }

  /** What the records stand for, when their edits are made into versions one at a time. */
  ghost predicate IsOutcome(order: VB.FileOrder<FileMetaData>, base: seq<seq<FileMetaData>>, comparator: Bytes,
                            records: seq<Bytes>, es: seq<VersionEdit>, o: Outcome) {
    if exists i :: 0 <= i < |es| && Mismatch(es[i], comparator) then o.ComparatorMismatch?
    else if |es| < |records| || NumberMissing(es) then o.Corruption?
    else o.Recovered? && VB.ListsAfter(order, base, ToEdits(es), o.files) && HasLastNumbers(es, o)
  }

  /** One of the three numbers that a manifest must give is given by no edit. */
  ghost predicate NumberMissing(es: seq<VersionEdit>) {
    IsLast(NextFiles(es), None) || IsLast(LogNumbers(es), None) || IsLast(LastSequences(es), None)
  }

  /** Every number comes from the last edit that gives it; the next file number is one more than that. */
  ghost predicate HasLastNumbers(es: seq<VersionEdit>, o: Outcome)
    requires o.Recovered?
  {
    && o.nextFile > 0 && IsLast(NextFiles(es), Some(o.nextFile - 1))
    && IsLast(LastSequences(es), Some(o.lastSequence)) && IsLast(LogNumbers(es), Some(o.logNumber))
    && (if IsLast(PrevLogNumbers(es), None) then o.prevLogNumber == 0
        else IsLast(PrevLogNumbers(es), Some(o.prevLogNumber)))
  }

  /** The numbers that the last edits to give them have left. */
  method Count(es: seq<VersionEdit>) returns (counters: Counters)
    ensures AreLast(es, counters)
  {
    counters := Counters(None, None, None, None);
    for k := 0 to |es|
      invariant AreLast(es[..k], counters)
    {
      CountedAreLast(es[..k], counters, es[k]);
      assert es[..k + 1] == es[..k] + [es[k]];
      counters := Counted(counters, es[k]);
    }
    assert es[..|es|] == es;
  }

  /** What reading the records comes to. */
  ghost predicate Taken(comparator: Bytes, records: seq<Bytes>, es: seq<VersionEdit>, problem: Option<Outcome>) {
    problem ==
      if exists i :: 0 <= i < |es| && Mismatch(es[i], comparator) then Some(ComparatorMismatch)
      else if |es| < |records| then Some(Corruption)
      else None
  }

  /** Decodes the records up to the first problem; the builder gets the edits once all are fine. */
  method TakeRecords(decode: Bytes -> Option<VersionEdit>, comparator: Bytes, records: seq<Bytes>,
                     ghost es: seq<VersionEdit>)
    returns (problem: Option<Outcome>, edits: seq<VersionEdit>)
    requires DecodesTo(decode, records, es)
    ensures Taken(comparator, records, es, problem)
    ensures problem == None ==> edits == es
  {
    edits := [];
    for k := 0 to |records|
      invariant k <= |es| && edits == es[..k]
      invariant forall i :: 0 <= i < k ==> !Mismatch(es[i], comparator)
    {
      var edit := decode(records[k]);
      if edit.None? {
        return Some(Corruption), edits;
      }
      if edit.value.comparator.Some? && edit.value.comparator.value != comparator {
        assert Mismatch(es[k], comparator);
        return Some(ComparatorMismatch), edits;
      }
      edits := edits + [edit.value];
    }
    problem := None;
  }

  lemma MissingExactly(es: seq<VersionEdit>, c: Counters)
    requires AreLast(es, c)
    ensures NumberMissing(es) <==> c.nextFile.None? || c.logNumber.None? || c.lastSequence.None?
    ensures IsLast(PrevLogNumbers(es), None) <==> c.prevLogNumber.None?
  {
    forall given, r | IsLast(given, r) && IsLast(given, None) ensures r == None {
      LastIsUnique(given, r, None);
    }
  }

  method Recover(order: VB.FileOrder<FileMetaData>, base: seq<seq<FileMetaData>>, comparator: Bytes,
                 records: seq<Bytes>, ghost es: seq<VersionEdit>)
    returns (outcome: Outcome)
    requires DecodesTo(IntoFresh(), records, es) && VB.Replayable(order, base, ToEdits(es))
    ensures IsOutcome(order, base, comparator, records, es, outcome)
  {
    var problem, edits := TakeRecords(IntoFresh(), comparator, records, es);
    if problem.Some? {
      return problem.value;
    }
    var counters := Count(edits);
    MissingExactly(es, counters);
    if counters.nextFile.None? || counters.logNumber.None? || counters.lastSequence.None? {
      return Corruption;
    }
    var files := VB.ReplayAll(order, base, ToEdits(edits));
    outcome := Recovered(files, counters.nextFile.value + 1, counters.lastSequence.value, counters.logNumber.value,
                         if counters.prevLogNumber.Some? then counters.prevLogNumber.value else 0);
  }

  /** A manifest as it is written: the encodings of the edits, one after the other. */
  ghost predicate Wrote(es: seq<VersionEdit>, records: seq<Bytes>) {
    && |records| == |es|
    && forall i :: 0 <= i < |es| ==> EditOk(es[i]) && records[i] == EncodeRecords(Records(es[i]))
  }

  lemma {:induction false} WrittenEditsDecode(es: seq<VersionEdit>, records: seq<Bytes>)
    requires Wrote(es, records)
    ensures DecodesTo(IntoFresh(), records, es)
  {
    forall i | 0 <= i < |es| ensures DecodeFrom(FRESH, records[i]) == Some(es[i]) {
      EditRestoredExactly(FRESH, es[i]);
    }
  }

  /** A file is in the next version: it was there or is added, and its number is not deleted, or is added again. */
  ghost predicate Stays(order: VB.FileOrder<FileMetaData>, files: seq<FileMetaData>, e: VersionEdit, level: nat,
                        f: FileMetaData) {
    && (f in files || NewFile(level, f) in e.newFiles)
    && (DeletedFile(level, order.number(f)) in e.deletedFiles ==>
          exists g :: NewFile(level, g) in e.newFiles && order.number(g) == order.number(f))
  }

  /** The version that an edit makes of another one. */
  ghost predicate Follows(order: VB.FileOrder<FileMetaData>, before: seq<seq<FileMetaData>>, e: VersionEdit,
                          after: seq<seq<FileMetaData>>) {
    && |after| == |before|
    && (forall l :: 0 <= l < |before| ==> VB.SortedBy(order, after[l]))
    && forall l, f :: 0 <= l < |before| ==> (f in after[l] <==> Stays(order, before[l], e, l, f))
  }

  /** The versions in use, one after the other, from the one that the manifest starts with. */
  ghost predicate Versions(order: VB.FileOrder<FileMetaData>, es: seq<VersionEdit>,
                           versions: seq<seq<seq<FileMetaData>>>) {
    && |versions| == |es| + 1
    && forall k :: 0 <= k < |es| ==> Follows(order, versions[k], es[k], versions[k + 1])
  }

  lemma EditedLevel(order: VB.FileOrder<FileMetaData>, e: VersionEdit, level: nat)
    ensures forall f :: f in VB.AddedAt(ToEdit(e), level) <==> NewFile(level, f) in e.newFiles
    ensures forall n :: n in VB.DeletedAt(ToEdit(e), level) <==> DeletedFile(level, n) in e.deletedFiles
  {
    var edit := ToEdit(e);
    forall f ensures f in VB.AddedAt(edit, level) <==> NewFile(level, f) in e.newFiles {
      if NewFile(level, f) in e.newFiles {
        var i :| 0 <= i < |e.newFiles| && e.newFiles[i] == NewFile(level, f);
        assert edit.newFiles[i] == (level, f) && (level, f).0 == level;
      }
      if f in VB.AddedAt(edit, level) {
        var a :| a in edit.newFiles && a.0 == level && a.1 == f;
        var i :| 0 <= i < |edit.newFiles| && edit.newFiles[i] == a;
        assert e.newFiles[i] == NewFile(level, f);
      }
    }
    forall n ensures n in VB.DeletedAt(edit, level) <==> DeletedFile(level, n) in e.deletedFiles {
      if DeletedFile(level, n) in e.deletedFiles {
        assert (level, n) in edit.deletedFiles && (level, n).0 == level && (level, n).1 == n;
      }
    }
  }

  lemma FollowingLevel(order: VB.FileOrder<FileMetaData>, before: seq<FileMetaData>, e: VersionEdit, level: nat,
                       after: seq<FileMetaData>)
    requires forall f :: f in after <==> Stays(order, before, e, level, f)
    ensures var added := VB.AddedAt(ToEdit(e), level);
            VB.Elements(after) ==
              VB.Remaining(order, VB.Elements(before)
                  + added, VB.DeletedAt(ToEdit(e), level) - VB.NumbersOf(order, added))
  {
    EditedLevel(order, e, level);
    var added := VB.AddedAt(ToEdit(e), level);
    forall f
      ensures order.number(f) in VB.NumbersOf(order, added) <==>
                exists g :: NewFile(level, g) in e.newFiles && order.number(g) == order.number(f)
    {
      if g :| NewFile(level, g) in e.newFiles && order.number(g) == order.number(f) {
        assert g in added;
      }
    }
  }

  /** The versions in use are the ones that the builder makes of the edits one at a time. */
  lemma {:induction false} VersionsAreLists(order: VB.FileOrder<FileMetaData>, es: seq<VersionEdit>,
                                            versions: seq<seq<seq<FileMetaData>>>, k: nat)
    requires Versions(order, es, versions) && k <= |es|
    requires forall l :: 0 <= l < |versions[0]| ==> VB.SortedBy(order, versions[0][l])
    ensures VB.ListsAfter(order, versions[0], ToEdits(es[..k]), versions[k])
  {
    if k > 0 {
      VersionsAreLists(order, es, versions, k - 1);
      var edits := ToEdits(es[..k]);
      assert edits[..k - 1] == ToEdits(es[..k - 1]) && edits[k - 1] == ToEdit(es[k - 1]);
      assert Follows(order, versions[k - 1], es[k - 1], versions[k]);
      forall l: nat | l < |versions[0]|
        ensures VB.Elements(versions[k][l]) == VB.OneAtATime(order, VB.Elements(versions[0][l]), edits, l)
      {
        FollowingLevel(order, versions[k - 1][l], es[k - 1], l, versions[k][l]);
      }
    }
  }

  /**
     Recovering a manifest as it was written gives exactly the version that was in use when it ended, and the
     last numbers that its edits give.
   */
  lemma {:induction false} RecoveryRebuildsVersion(order: VB.FileOrder<FileMetaData>, comparator: Bytes,
                                                   es: seq<VersionEdit>, records: seq<Bytes>,
                                                   versions: seq<seq<seq<FileMetaData>>>, o: Outcome)
    requires Wrote(es, records) && Versions(order, es, versions) && VB.Replayable(order, versions[0], ToEdits(es))
    requires IsOutcome(order, versions[0], comparator, records, es, o)
    ensures DecodesTo(IntoFresh(), records, es)
    ensures o.Recovered? <==> (forall i :: 0 <= i < |es| ==> !Mismatch(es[i], comparator)) && !NumberMissing(es)
    ensures o.Recovered? ==> o.files == versions[|es|] && HasLastNumbers(es, o)
  {
    WrittenEditsDecode(es, records);
    VersionsAreLists(order, es, versions, |es|);
    assert es[..|es|] == es;
    if o.Recovered? {
      VB.ReplayRebuildsLists(order, versions[0], ToEdits(es), o.files, versions[|es|]);
    }
  }
}
