/**
 Which files a compaction reads and to which level a memtable is flushed.  The selections terminate, the
 level-zero one is the least set closed under overlap, and all keep what the installs rely on.
 */
module InputSelection {
  import opened InternalKeys
  import opened Reads
  import opened Files
  import opened Versions
  import opened Installs

  /** An absent bound lies beyond every key. */
  type Bound = Option<UserKey>

  predicate BeforeRange(f: File, begin: Bound)
    requires |f.entries| > 0
  {
    begin.Some? && Largest(f).user < begin.value
  }

  predicate AfterRange(f: File, end: Bound)
    requires |f.entries| > 0
  {
    end.Some? && Smallest(f).user > end.value
  }

  predicate Overlaps(f: File, begin: Bound, end: Bound)
    requires |f.entries| > 0
  {
    !BeforeRange(f, begin) && !AfterRange(f, end)
  }

  /** The files that overlap a range, in list order. */
  function Overlapping(files: seq<File>, begin: Bound, end: Bound): seq<File>
    requires forall i :: 0 <= i < |files| ==> |files[i].entries| > 0
  {
    if files == [] then []
    else
      var f := files[|files| - 1];
      Overlapping(files[..|files| - 1], begin, end) + if Overlaps(f, begin, end) then [f] else []
  }

  lemma {:induction false} OverlappingExactly(files: seq<File>, begin: Bound, end: Bound)
    requires AllWellFormed(files)
    ensures forall f :: f in Overlapping(files, begin, end) <==> f in files && Overlaps(f, begin, end)
    ensures AllWellFormed(Overlapping(files, begin, end))
  {
    if files != [] {
      var n := |files| - 1;
      assert files == files[..n] + [files[n]];
      OverlappingExactly(files[..n], begin, end);
    }
  }

  // ---------- Overlapping inputs ----------

  ghost predicate Within(f: File, begin: Bound, end: Bound)
    requires WellFormed(f)
  {
    && (begin.Some? ==> begin.value <= Smallest(f).user)
    && (end.Some? ==> Largest(f).user <= end.value)
  }

  /** Every file that overlaps the range lies inside of it. */
  ghost predicate ClosedRange(files: seq<File>, begin: Bound, end: Bound)
    requires AllWellFormed(files)
  {
    forall f :: f in files && Overlaps(f, begin, end) ==> Within(f, begin, end)
  }

  ghost predicate Contains(begin: Bound, end: Bound, innerBegin: Bound, innerEnd: Bound) {
    && (begin.Some? ==> innerBegin.Some? && begin.value <= innerBegin.value)
    && (end.Some? ==> innerEnd.Some? && innerEnd.value <= end.value)
  }

  /** The least closed range around the given one. */
  ghost predicate LeastClosedRange(files: seq<File>, begin: Bound, end: Bound, lo: Bound, hi: Bound)
    requires AllWellFormed(files)
  {
    && Contains(lo, hi, begin, end) && ClosedRange(files, lo, hi)
    && InsideEveryClosedRange(files, begin, end, lo, hi)
  }

  ghost predicate InsideEveryClosedRange(files: seq<File>, begin: Bound, end: Bound, lo: Bound, hi: Bound)
    requires AllWellFormed(files)
  {
    forall b, e :: Contains(b, e, begin, end) && ClosedRange(files, b, e) ==> Contains(b, e, lo, hi)
  }

  /** How many files stick out of the range, counted once per side. */
  ghost function StickingOut(files: seq<File>, begin: Bound, end: Bound): nat
    requires AllWellFormed(files)
  {
    if files == [] then 0
    else
      var f := files[|files| - 1];
      StickingOut(files[..|files| - 1], begin, end) +
      (if begin.Some? && Smallest(f).user < begin.value then 1 else 0) +
      (if end.Some? && Largest(f).user > end.value then 1 else 0)
  }

  /** Widening the range to take in a file that sticks out lowers the count. */
  lemma {:induction false} WideningLowersCount(files: seq<File>, begin: Bound, end: Bound, b: Bound, e: Bound, k: nat)
    requires AllWellFormed(files) && k <= |files|
    requires Contains(b, e, begin, end) && (b.Some? <==> begin.Some?) && (e.Some? <==> end.Some?)
    requires k < |files| ==>
               || (begin.Some? && Smallest(files[k]).user == b.value < begin.value)
               || (end.Some? && Largest(files[k]).user == e.value > end.value)
    ensures StickingOut(files, b, e) <= StickingOut(files, begin, end)
    ensures k < |files| ==> StickingOut(files, b, e) < StickingOut(files, begin, end)
  {
    if files != [] {
      var n := |files| - 1;
      WideningLowersCount(files[..n], begin, end, b, e, if k <= n then k else n);
    }
  }

  /**
   All files of a level that overlap the range.  Level-zero files may overlap each other, so there a file
   that sticks out widens the range and restarts the search.
   */
  method GetOverlappingInputs(level: nat, files: seq<File>, begin: Bound, end: Bound)
    returns (inputs: seq<File>, ghost lo: Bound, ghost hi: Bound)
    requires AllWellFormed(files)
    ensures inputs == Overlapping(files, lo, hi)
    ensures level > 0 ==> lo == begin && hi == end
    ensures level == 0 ==> LeastClosedRange(files, begin, end, lo, hi)
  {
    inputs := [];
    var userBegin, userEnd := begin, end;
    var i := 0;
    while i < |files|
      invariant 0 <= i <= |files|
      invariant inputs == Overlapping(files[..i], userBegin, userEnd)
      invariant level > 0 ==> userBegin == begin && userEnd == end
      invariant userBegin.Some? <==> begin.Some?
      invariant userEnd.Some? <==> end.Some?
      invariant Contains(userBegin, userEnd, begin, end)
      invariant level == 0 ==> InsideEveryClosedRange(files, begin, end, userBegin, userEnd)
      invariant level == 0 ==> ClosedRange(files[..i], userBegin, userEnd)
      decreases StickingOut(files, userBegin, userEnd), |files| - i
    {
      var f := files[i];
      OverlappingStep(files, userBegin, userEnd, i);
      i := i + 1;
      if userBegin.Some? && Largest(f).user < userBegin.value {
        // Completely before the range.
      } else if userEnd.Some? && Smallest(f).user > userEnd.value {
        // Completely after the range.
      } else {
        inputs := inputs + [f];
        if level == 0 {
          if userBegin.Some? && Smallest(f).user < userBegin.value {
            Widen(files, begin, end, userBegin, userEnd, Some(Smallest(f).user), userEnd, i - 1);
            userBegin := Some(Smallest(f).user);
            inputs := [];
            i := 0;
          } else if userEnd.Some? && Largest(f).user > userEnd.value {
            Widen(files, begin, end, userBegin, userEnd, userBegin, Some(Largest(f).user), i - 1);
            userEnd := Some(Largest(f).user);
            inputs := [];
            i := 0;
          }
        }
      }
    }
    assert files[..i] == files;
    lo, hi := userBegin, userEnd;
  }

  lemma OverlappingStep(files: seq<File>, begin: Bound, end: Bound, i: nat)
    requires AllWellFormed(files) && i < |files|
    ensures Overlapping(files[..i + 1], begin, end) ==
              Overlapping(files[..i], begin, end) + if Overlaps(files[i], begin, end) then [files[i]] else []
    ensures ClosedRange(files[..i + 1], begin, end) <==>
              ClosedRange(files[..i], begin, end) && (Overlaps(files[i], begin, end) ==> Within(files[i], begin, end))
  {
    assert files[..i + 1] == files[..i] + [files[i]];
    assert files[..i + 1][..i] == files[..i];
  }

  /**
     Widening to the bound of an overlapping file that sticks out makes progress and stays inside of every
     closed range.
   */
  lemma Widen(files: seq<File>, begin: Bound, end: Bound, lo: Bound, hi: Bound, b: Bound, e: Bound, k: nat)
    requires AllWellFormed(files) && k < |files| && Overlaps(files[k], lo, hi)
    requires Contains(lo, hi, begin, end) && InsideEveryClosedRange(files, begin, end, lo, hi)
    requires || (lo.Some? && Smallest(files[k]).user < lo.value && b == Some(Smallest(files[k]).user) && e == hi)
             || (hi.Some? && Largest(files[k]).user > hi.value && b == lo && e == Some(Largest(files[k]).user))
    ensures Contains(b, e, begin, end) && InsideEveryClosedRange(files, begin, end, b, e)
    ensures StickingOut(files, b, e) < StickingOut(files, lo, hi)
  {
    WideningLowersCount(files, lo, hi, b, e, k);
    StaysInside(files, begin, end, lo, hi, files[k]);
  }

  /** A file that overlaps the range is inside of every closed range around it. */
  lemma StaysInside(files: seq<File>, begin: Bound, end: Bound, lo: Bound, hi: Bound, f: File)
    requires AllWellFormed(files) && f in files && Overlaps(f, lo, hi)
    requires InsideEveryClosedRange(files, begin, end, lo, hi)
    ensures forall b, e :: Contains(b, e, begin, end) && ClosedRange(files, b, e) ==>
            Within(f, b, e) && Contains(b, e, lo, hi)
  {
    forall b, e | Contains(b, e, begin, end) && ClosedRange(files, b, e)
      ensures Within(f, b, e) && Contains(b, e, lo, hi) {
      assert Contains(b, e, lo, hi);
      assert Overlaps(f, b, e);
    }
  }

  // ---------- Boundary files ----------

  ghost predicate IsLargest(fs: seq<File>, key: Key)
    requires AllWellFormed(fs)
  {
    && (exists f :: f in fs && Largest(f) == key)
    && (forall f :: f in fs ==> LessEq(Largest(f), key))
  }

  ghost predicate IsSmallest(fs: seq<File>, key: Key)
    requires AllWellFormed(fs)
  {
    && (exists f :: f in fs && Smallest(f) == key)
    && (forall f :: f in fs ==> LessEq(key, Smallest(f)))
  }

  method FindLargestKey(files: seq<File>) returns (largest: Option<Key>)
    requires AllWellFormed(files)
    ensures largest.None? <==> files == []
    ensures largest.Some? ==> IsLargest(files, largest.value)
  {
    if files == [] {
      return None;
    }
    var key := Largest(files[0]);
    var i := 1;
    while i < |files|
      invariant 1 <= i <= |files|
      invariant exists j :: 0 <= j < i && Largest(files[j]) == key
      invariant forall j :: 0 <= j < i ==> LessEq(Largest(files[j]), key)
    {
      CompareIsTotalOrder(Largest(files[i]), key);
      if Compare(Largest(files[i]), key) > 0 {
        key := Largest(files[i]);
      }
      i := i + 1;
    }
    return Some(key);
  }

  /** The smallest and largest keys of a list of files. */
  method GetRange(inputs: seq<File>) returns (smallest: Key, largest: Key)
    requires AllWellFormed(inputs) && inputs != []
    ensures IsSmallest(inputs, smallest) && IsLargest(inputs, largest)
  {
    smallest, largest := Smallest(inputs[0]), Largest(inputs[0]);
    var i := 1;
    while i < |inputs|
      invariant 1 <= i <= |inputs|
      invariant exists j :: 0 <= j < i && Smallest(inputs[j]) == smallest
      invariant exists j :: 0 <= j < i && Largest(inputs[j]) == largest
      invariant forall j :: 0 <= j < i ==> LessEq(smallest, Smallest(inputs[j])) && LessEq(Largest(inputs[j]), largest)
    {
      CompareIsTotalOrder(Smallest(inputs[i]), smallest);
      CompareIsTotalOrder(Largest(inputs[i]), largest);
      if Compare(Smallest(inputs[i]), smallest) < 0 {
        smallest := Smallest(inputs[i]);
      }
      if Compare(Largest(inputs[i]), largest) > 0 {
        largest := Largest(inputs[i]);
      }
      i := i + 1;
    }
  }

  /** A file that continues the user key of `largest` beyond it. */
  predicate IsBoundary(f: File, largest: Key)
    requires |f.entries| > 0
  {
    Less(largest, Smallest(f)) && Smallest(f).user == largest.user
  }

  method FindSmallestBoundaryFile(levelFiles: seq<File>, largest: Key) returns (boundary: Option<File>)
    requires AllWellFormed(levelFiles)
    ensures boundary.None? <==> forall f :: f in levelFiles ==> !IsBoundary(f, largest)
    ensures boundary.Some? ==> boundary.value in levelFiles && IsBoundary(boundary.value, largest)
    ensures boundary.Some? ==> forall f :: f in levelFiles && IsBoundary(f, largest) ==>
            LessEq(Smallest(boundary.value), Smallest(f))
  {
    boundary := None;
    for i := 0 to |levelFiles|
      invariant boundary.None? <==> forall j :: 0 <= j < i ==> !IsBoundary(levelFiles[j], largest)
      invariant boundary.Some? ==> boundary.value in levelFiles && IsBoundary(boundary.value, largest)
      invariant boundary.Some? ==>
                  forall j :: 0 <= j < i && IsBoundary(levelFiles[j], largest) ==>
                      LessEq(Smallest(boundary.value), Smallest(levelFiles[j]))
    {
      var f := levelFiles[i];
      CompareIsTotalOrder(Smallest(f), largest);
      if Compare(Smallest(f), largest) > 0 && Smallest(f).user == largest.user {
        if boundary.Some? {
          CompareIsTotalOrder(Smallest(f), Smallest(boundary.value));
        }
        if boundary.None? || Compare(Smallest(f), Smallest(boundary.value)) < 0 {
          boundary := Some(f);
        }
      }
    }
  }

  /** How many files of the level start after a key. */
  ghost function StartingAfter(files: seq<File>, key: Key): nat
    requires AllWellFormed(files)
  {
    if files == [] then 0
    else StartingAfter(files[..|files| - 1], key) + if Less(key, Smallest(files[|files| - 1])) then 1 else 0
  }

  lemma {:induction false} AdvancingLowersCount(files: seq<File>, key: Key, next: Key, k: nat)
    requires AllWellFormed(files) && k <= |files| && Less(key, next)
    requires k < |files| ==> Less(key, Smallest(files[k])) && LessEq(Smallest(files[k]), next)
    ensures StartingAfter(files, next) <= StartingAfter(files, key)
    ensures k < |files| ==> StartingAfter(files, next) < StartingAfter(files, key)
  {
    if files != [] {
      var n := |files| - 1;
      AdvancingLowersCount(files[..n], key, next, if k <= n then k else n);
    }
  }

  ghost predicate NoBoundaryLeft(levelFiles: seq<File>, compaction: seq<File>)
    requires AllWellFormed(levelFiles) && AllWellFormed(compaction)
  {
    forall f, g :: f in levelFiles && g in compaction && IsLargest(compaction, Largest(g)) ==>
        !IsBoundary(f, Largest(g))
  }

  /** Files of the level outside of the list lie wholly before or wholly after all of it. */
  ghost predicate Gapless(levelFiles: seq<File>, compaction: seq<File>)
    requires AllWellFormed(levelFiles) && AllWellFormed(compaction)
  {
    forall g :: g in levelFiles && g !in compaction ==>
                  || (forall f :: f in compaction ==> Less(Largest(g), Smallest(f)))
                  || (forall f :: f in compaction ==> Less(Largest(f), Smallest(g)))
  }

  /** From position `from` on, every file is the first one that continues the largest key before it. */
  ghost predicate BoundaryChain(levelFiles: seq<File>, inputs: seq<File>, from: nat)
    requires AllWellFormed(levelFiles) && AllWellFormed(inputs)
  {
    forall k :: from <= k < |inputs| ==> ContinuesPrefix(levelFiles, inputs, k)
  }

  ghost predicate ContinuesPrefix(levelFiles: seq<File>, inputs: seq<File>, k: nat)
    requires AllWellFormed(levelFiles) && AllWellFormed(inputs) && k < |inputs|
  {
    && inputs[k] in levelFiles
    && exists key :: IsLargest(inputs[..k], key) && IsBoundary(inputs[k], key) &&
                     forall f :: f in levelFiles && IsBoundary(f, key) ==> LessEq(Smallest(inputs[k]), Smallest(f))
  }

  lemma ChainExtends(levelFiles: seq<File>, inputs: seq<File>, from: nat, largest: Key, b: File)
    requires AllWellFormed(levelFiles) && AllWellFormed(inputs) && IsLargest(inputs, largest)
    requires BoundaryChain(levelFiles, inputs, from)
    requires b in levelFiles && IsBoundary(b, largest)
    requires forall f :: f in levelFiles && IsBoundary(f, largest) ==> LessEq(Smallest(b), Smallest(f))
    ensures BoundaryChain(levelFiles, inputs + [b], from)
  {
    var longer := inputs + [b];
    forall k | from <= k < |longer| ensures ContinuesPrefix(levelFiles, longer, k) {
      if k < |inputs| {
        assert longer[..k] == inputs[..k];
        assert ContinuesPrefix(levelFiles, inputs, k);
      } else {
        assert longer[..k] == inputs;
      }
    }
  }

  /**
   Follows the user key of the largest input through the files that continue it.  The bound strictly
   advances, and in the end no file of the level starts with the user key that the inputs end with.
   */
  method AddBoundaryInputs(levelFiles: seq<File>, compaction: seq<File>) returns (inputs: seq<File>)
    requires AllWellFormed(levelFiles) && AllWellFormed(compaction)
    ensures compaction <= inputs && AllWellFormed(inputs)
    ensures BoundaryChain(levelFiles, inputs, |compaction|)
    ensures NoBoundaryLeft(levelFiles, inputs)
    ensures Disjoint(levelFiles) && Gapless(levelFiles, compaction) ==> Gapless(levelFiles, inputs)
    ensures NoBoundaryLeft(levelFiles, compaction) ==> inputs == compaction
  {
    inputs := compaction;
    var largest := FindLargestKey(compaction);
    if largest.None? {
      return;
    }
    var largestKey := largest.value;
    var continueSearching := true;
    while continueSearching
      invariant compaction <= inputs && AllWellFormed(inputs) && IsLargest(inputs, largestKey)
      invariant BoundaryChain(levelFiles, inputs, |compaction|)
      invariant Disjoint(levelFiles) && Gapless(levelFiles, compaction) ==> Gapless(levelFiles, inputs)
      invariant NoBoundaryLeft(levelFiles, compaction) ==> inputs == compaction
      invariant !continueSearching ==> forall f :: f in levelFiles ==> !IsBoundary(f, largestKey)
      decreases StartingAfter(levelFiles, largestKey), continueSearching
    {
      var boundary := FindSmallestBoundaryFile(levelFiles, largestKey);
      if boundary.Some? {
        var b := boundary.value;
        BoundaryExtends(levelFiles, inputs, largestKey, b);
        ChainExtends(levelFiles, inputs, |compaction|, largestKey, b);
        inputs := inputs + [b];
        largestKey := Largest(b);
      } else {
        continueSearching := false;
      }
    }
    LargestIsUnique(inputs, largestKey);
  }

  lemma LargestIsUnique(fs: seq<File>, key: Key)
    requires AllWellFormed(fs) && IsLargest(fs, key)
    ensures forall other :: IsLargest(fs, other) ==> other == key
  {
    forall other | IsLargest(fs, other) ensures other == key {
      var f :| f in fs && Largest(f) == key;
      var g :| g in fs && Largest(g) == other;
    }
  }

  /** Adding the smallest boundary file advances the bound and leaves no gap. */
  lemma BoundaryExtends(levelFiles: seq<File>, inputs: seq<File>, largest: Key, b: File)
    requires AllWellFormed(levelFiles) && AllWellFormed(inputs) && IsLargest(inputs, largest)
    requires b in levelFiles && IsBoundary(b, largest)
    requires forall f :: f in levelFiles && IsBoundary(f, largest) ==> LessEq(Smallest(b), Smallest(f))
    ensures Less(largest, Largest(b)) && IsLargest(inputs + [b], Largest(b))
    ensures StartingAfter(levelFiles, Largest(b)) < StartingAfter(levelFiles, largest)
    ensures Disjoint(levelFiles) && Gapless(levelFiles, inputs) ==> Gapless(levelFiles, inputs + [b])
    ensures !NoBoundaryLeft(levelFiles, inputs)
  {
    BoundaryAdvances(levelFiles, inputs, largest, b);
    if Disjoint(levelFiles) && Gapless(levelFiles, inputs) {
      var longer := inputs + [b];
      forall g | g in levelFiles && g !in longer
        ensures (forall f :: f in longer ==> Less(Largest(g), Smallest(f)))
                || (forall f :: f in longer ==> Less(Largest(f), Smallest(g)))
      {
        BoundaryLeavesNoGap(levelFiles, inputs, largest, b, g);
      }
    }
  }

  lemma BoundaryAdvances(levelFiles: seq<File>, inputs: seq<File>, largest: Key, b: File)
    requires AllWellFormed(levelFiles) && AllWellFormed(inputs) && IsLargest(inputs, largest)
    requires b in levelFiles && IsBoundary(b, largest)
    ensures Less(largest, Largest(b)) && IsLargest(inputs + [b], Largest(b))
    ensures StartingAfter(levelFiles, Largest(b)) < StartingAfter(levelFiles, largest)
    ensures !NoBoundaryLeft(levelFiles, inputs)
  {
    BoundsHold(b, b.entries[0]);
    var k :| 0 <= k < |levelFiles| && levelFiles[k] == b;
    AdvancingLowersCount(levelFiles, largest, Largest(b), k);
    assert (inputs + [b])[|inputs|] == b;
  }

  lemma BoundaryLeavesNoGap(levelFiles: seq<File>, inputs: seq<File>, largest: Key, b: File, g: File)
    requires AllWellFormed(levelFiles) && AllWellFormed(inputs) && IsLargest(inputs, largest)
    requires b in levelFiles && IsBoundary(b, largest)
    requires forall f :: f in levelFiles && IsBoundary(f, largest) ==> LessEq(Smallest(b), Smallest(f))
    requires Disjoint(levelFiles) && Gapless(levelFiles, inputs)
    requires g in levelFiles && g !in inputs && g != b
    ensures (forall f :: f in inputs + [b] ==> Less(Largest(g), Smallest(f))) ||
            (forall f :: f in inputs + [b] ==> Less(Largest(f), Smallest(g)))
  {
    BoundsHold(g, g.entries[0]);
    BoundsHold(b, b.entries[0]);
    DisjointAreApart(levelFiles, g, b);
    var top :| top in inputs && Largest(top) == largest;
    BoundsHold(top, top.entries[0]);
    assert forall f :: f in inputs + [b] ==> f in inputs || f == b;
    if forall f :: f in inputs ==> Less(Largest(g), Smallest(f)) {
      assert Less(Largest(g), Smallest(top));
    } else {
      assert Less(largest, Smallest(g));
    }
  }

  // ---------- Compaction inputs ----------

  /** Level-zero files outside of the list share no user key with its range. */
  ghost predicate ApartInUsers(files: seq<File>, inputs: seq<File>)
    requires AllWellFormed(files) && AllWellFormed(inputs)
  {
    forall g :: g in files && g !in inputs ==>
                  || (forall f :: f in inputs ==> Largest(g).user < Smallest(f).user)
                  || (forall f :: f in inputs ==> Largest(f).user < Smallest(g).user)
  }

  /** What the first choice of input files promises. */
  ghost predicate Pickable(level: nat, files: seq<File>, inputs: seq<File>)
    requires AllWellFormed(files)
  {
    && inputs != [] && (forall f :: f in inputs ==> f in files) && AllWellFormed(inputs)
    && if level == 0 then ApartInUsers(files, inputs) else Gapless(files, inputs)
  }

  lemma OverlappingIsPickable(level: nat, files: seq<File>, begin: Bound, end: Bound)
    requires AllWellFormed(files) && Overlapping(files, begin, end) != []
    requires if level == 0 then ClosedRange(files, begin, end) else Disjoint(files)
    ensures Pickable(level, files, Overlapping(files, begin, end))
  {
    var inputs := Overlapping(files, begin, end);
    OverlappingExactly(files, begin, end);
    forall g | g in files && g !in inputs
      ensures level == 0 ==> (forall f :: f in inputs ==> Largest(g).user < Smallest(f).user) ||
                             (forall f :: f in inputs ==> Largest(f).user < Smallest(g).user)
      ensures level > 0 ==> (forall f :: f in inputs ==> Less(Largest(g), Smallest(f))) ||
                            (forall f :: f in inputs ==> Less(Largest(f), Smallest(g)))
    {
      BoundsHold(g, g.entries[0]);
      forall f | f in inputs && level > 0
        ensures if BeforeRange(g, begin) then Less(Largest(g), Smallest(f)) else Less(Largest(f), Smallest(g))
      {
        BoundsHold(f, f.entries[0]);
        DisjointAreApart(files, f, g);
      }
    }
  }

  /** With a boundary-complete list the left-out files are as input selection promises. */
  lemma PickedIsGood(v: Version, level: nat, upper: seq<File>, lower: seq<File>, smallest: Key, largest: Key)
    requires Versions.Valid(v) && level + 1 < NUM_LEVELS
    requires Pickable(level, v.files[level], upper) && NoBoundaryLeft(v.files[level], upper)
    requires IsSmallest(upper, smallest) && IsLargest(upper, largest)
    requires lower == Overlapping(v.files[level + 1], Some(smallest.user), Some(largest.user))
    ensures GoodInputs(v, Inputs(level, FileSet(upper), FileSet(lower), smallest, largest))
  {
    var c := Inputs(level, FileSet(upper), FileSet(lower), smallest, largest);
    forall g ensures g in c.lower <==> g in v.files[level + 1] && OverlapsUsers(g, c.smallest.user, c.largest.user) {
      OverlappingExactly(v.files[level + 1], Some(smallest.user), Some(largest.user));
    }
    forall g | g in v.files[level] && g !in c.upper
      ensures c.largest.user < Smallest(g).user ||
              (if c.level == 0 then Largest(g).user < c.smallest.user else Less(Largest(g), c.smallest))
    {
      LeftOutFile(level, v.files[level], upper, smallest, largest, g);
    }
  }

  lemma LeftOutFile(level: nat, files: seq<File>, upper: seq<File>, smallest: Key, largest: Key, g: File)
    requires AllWellFormed(files) && Pickable(level, files, upper) && NoBoundaryLeft(files, upper)
    requires IsSmallest(upper, smallest) && IsLargest(upper, largest)
    requires g in files && g !in upper
    ensures largest.user < Smallest(g).user ||
            (if level == 0 then Largest(g).user < smallest.user else Less(Largest(g), smallest))
  {
    var bottom :| bottom in upper && Smallest(bottom) == smallest;
    var top :| top in upper && Largest(top) == largest;
    assert !IsBoundary(g, Largest(top));
    if level > 0 {
      assert Less(Largest(g), Smallest(bottom)) || Less(Largest(top), Smallest(g));
    }
  }

  lemma ZeroHasNoBoundary(files: seq<File>, inputs: seq<File>)
    requires AllWellFormed(files) && AllWellFormed(inputs) && ApartInUsers(files, inputs)
    ensures NoBoundaryLeft(files, inputs)
  {
    forall f, g | f in files && g in inputs && IsLargest(inputs, Largest(g)) ensures !IsBoundary(f, Largest(g)) {
      BoundsHold(f, f.entries[0]);
      BoundsHold(g, g.entries[0]);
    }
  }

  function TotalFileSize(files: seq<File>): nat {
    if files == [] then 0 else TotalFileSize(files[..|files| - 1]) + files[|files| - 1].size
  }

  /** Completes the boundaries of the chosen files and fetches what they overlap one level down. */
  method CompleteInputs(v: Version, level: nat, chosen: seq<File>)
    returns (upper: seq<File>, lower: seq<File>, smallest: Key, largest: Key)
    requires Versions.Valid(v) && level + 1 < NUM_LEVELS && Pickable(level, v.files[level], chosen)
    ensures AllWellFormed(upper) && chosen <= upper && BoundaryChain(v.files[level], upper, |chosen|)
    ensures forall f :: f in upper ==> f in v.files[level]
    ensures AllWellFormed(lower) && forall f :: f in chosen ==> f in upper
    ensures IsSmallest(upper, smallest) && IsLargest(upper, largest)
    ensures lower == Overlapping(v.files[level + 1], Some(smallest.user), Some(largest.user))
    ensures GoodInputs(v, Inputs(level, FileSet(upper), FileSet(lower), smallest, largest))
  {
    upper := AddBoundaryInputs(v.files[level], chosen);
    if level == 0 {
      ZeroHasNoBoundary(v.files[0], chosen);
    }
    ChainFromLevel(v.files[level], upper, |chosen|);
    assert Pickable(level, v.files[level], upper) by {
      assert upper[..|chosen|] == chosen;
    }
    smallest, largest := GetRange(upper);
    ghost var lo, hi;
    lower, lo, hi := GetOverlappingInputs(level + 1, v.files[level + 1], Some(smallest.user), Some(largest.user));
    PickedIsGood(v, level, upper, lower, smallest, largest);
    OverlappingExactly(v.files[level + 1], Some(smallest.user), Some(largest.user));
    assert forall f :: f in chosen ==> f in upper by {
      assert upper[..|chosen|] == chosen;
    }
  }

  lemma ChainFromLevel(levelFiles: seq<File>, inputs: seq<File>, from: nat)
    requires AllWellFormed(levelFiles) && AllWellFormed(inputs) && from <= |inputs|
    requires BoundaryChain(levelFiles, inputs, from)
    requires forall f :: f in inputs[..from] ==> f in levelFiles
    ensures forall f :: f in inputs ==> f in levelFiles
  {
    forall f | f in inputs ensures f in levelFiles {
      var k :| 0 <= k < |inputs| && inputs[k] == f;
      if k < from {
        assert inputs[..from][k] == f;
      } else {
        assert ContinuesPrefix(levelFiles, inputs, k);
      }
    }
  }

  /** The files of the upper level that overlap everything read so far; all upper inputs are among them. */
  method ExpandUpper(v: Version, level: nat, upper: seq<File>, lower: seq<File>) returns (expanded: seq<File>)
    requires Versions.Valid(v) && level + 1 < NUM_LEVELS
    requires AllWellFormed(upper) && AllWellFormed(lower) && upper != []
    requires forall f :: f in upper ==> f in v.files[level]
    ensures Pickable(level, v.files[level], expanded)
    ensures forall f :: f in upper ==> f in expanded
  {
    var all := upper + lower;
    var allStart, allLimit := GetRange(all);
    ghost var lo, hi;
    expanded, lo, hi := GetOverlapping(level, v.files[level], allStart, allLimit);
    forall f | f in upper ensures f in expanded {
      StillOverlaps(v.files[level], all, allStart, allLimit, lo, hi, f);
    }
    assert upper[0] in upper;
    OverlappingIsPickable(level, v.files[level], lo, hi);
  }

  /**
   The inputs of a compaction, grown at the upper level when that adds no lower file and stays under
   the size limit.
   */
  method SetupOtherInputs(v: Version, level: nat, chosen: seq<File>, sizeLimit: nat)
    returns (upper: seq<File>, lower: seq<File>, smallest: Key, largest: Key)
    requires Versions.Valid(v) && level + 1 < NUM_LEVELS && Pickable(level, v.files[level], chosen)
    ensures AllWellFormed(upper) && forall f :: f in chosen ==> f in upper
    ensures IsSmallest(upper, smallest) && IsLargest(upper, largest)
    ensures GoodInputs(v, Inputs(level, FileSet(upper), FileSet(lower), smallest, largest))
  {
    upper, lower, smallest, largest := CompleteInputs(v, level, chosen);
    if lower != [] {
      var expanded := ExpandUpper(v, level, upper, lower);
      var grown, lower1, start, limit := CompleteInputs(v, level, expanded);
      if |grown| > |upper| && TotalFileSize(lower) + TotalFileSize(grown) < sizeLimit && |lower1| == |lower| {
        upper, lower, smallest, largest := grown, lower1, start, limit;
      }
    }
  }

  /** Overlapping inputs of a key range. */
  method GetOverlapping(level: nat, files: seq<File>, start: Key, limit: Key)
    returns (inputs: seq<File>, ghost lo: Bound, ghost hi: Bound)
    requires AllWellFormed(files)
    ensures inputs == Overlapping(files, lo, hi) && Contains(lo, hi, Some(start.user), Some(limit.user))
    ensures if level == 0 then LeastClosedRange(files, Some(start.user), Some(limit.user), lo, hi)
            else lo == Some(start.user) && hi == Some(limit.user)
  {
    inputs, lo, hi := GetOverlappingInputs(level, files, Some(start.user), Some(limit.user));
  }

  lemma StillOverlaps(files: seq<File>, all: seq<File>, start: Key, limit: Key, lo: Bound, hi: Bound, f: File)
    requires AllWellFormed(files) && AllWellFormed(all) && f in files && f in all
    requires IsSmallest(all, start) && IsLargest(all, limit)
    requires Contains(lo, hi, Some(start.user), Some(limit.user))
    ensures f in Overlapping(files, lo, hi)
  {
    OverlappingExactly(files, lo, hi);
    BoundsHold(f, f.entries[0]);
  }

  /** The first file after the compaction pointer, or the first one if there is none. */
  method PickFile(files: seq<File>, pointer: Option<Key>) returns (f: File)
    requires AllWellFormed(files) && files != []
    ensures f in files
    ensures pointer.Some? && (exists g :: g in files && Less(pointer.value, Largest(g))) ==>
            Less(pointer.value, Largest(f))
  {
    var i := 0;
    while i < |files|
      invariant 0 <= i <= |files|
      invariant forall j :: 0 <= j < i ==> pointer.Some? && !Less(pointer.value, Largest(files[j]))
    {
      if pointer.None? {
        return files[i];
      }
      CompareIsTotalOrder(Largest(files[i]), pointer.value);
      if Compare(Largest(files[i]), pointer.value) > 0 {
        return files[i];
      }
      i := i + 1;
    }
    return files[0];
  }

  /** An automatic compaction of the file that the size or seek policy points at. */
  method PickCompaction(v: Version, level: nat, pointer: Option<Key>, seekFile: Option<File>, sizeLimit: nat)
    returns (upper: seq<File>, lower: seq<File>, smallest: Key, largest: Key)
    requires Versions.Valid(v) && level + 1 < NUM_LEVELS && v.files[level] != []
    requires seekFile.Some? ==> seekFile.value in v.files[level]
    ensures AllWellFormed(upper) && (seekFile.Some? ==> seekFile.value in upper)
    ensures GoodInputs(v, Inputs(level, FileSet(upper), FileSet(lower), smallest, largest))
    ensures IsSmallest(upper, smallest) && IsLargest(upper, largest)
  {
    var picked;
    if seekFile.Some? {
      picked := seekFile.value;
    } else {
      picked := PickFile(v.files[level], pointer);
    }
    var chosen := [picked];
    SinglePick(level, v.files[level], picked);
    if level == 0 {
      // Level-zero files may overlap each other, so take all that overlap the picked one.
      var start, limit := GetRange(chosen);
      ghost var lo, hi;
      chosen, lo, hi := GetOverlapping(0, v.files[0], start, limit);
      StillOverlaps(v.files[0], [picked], start, limit, lo, hi, picked);
      OverlappingIsPickable(0, v.files[0], lo, hi);
    }
    upper, lower, smallest, largest := SetupOtherInputs(v, level, chosen, sizeLimit);
  }

  lemma SinglePick(level: nat, files: seq<File>, f: File)
    requires AllWellFormed(files) && f in files
    ensures level > 0 && Disjoint(files) ==> Pickable(level, files, [f])
  {
    if level > 0 && Disjoint(files) {
      forall g | g in files && g !in [f] ensures Apart(f, g) {
        DisjointAreApart(files, f, g);
      }
    }
  }

  /** The shortest beginning of the files that reaches the limit, or all of them if they do not. */
  ghost predicate CutAtLimit(files: seq<File>, n: nat, limit: nat) {
    && 0 < n <= |files|
    && (forall k :: 0 < k < n ==> TotalFileSize(files[..k]) < limit)
    && (n == |files| || TotalFileSize(files[..n]) >= limit)
  }

  /** How many files there are up to the size limit. */
  method FilesUpTo(files: seq<File>, limit: nat) returns (n: nat)
    requires files != []
    ensures CutAtLimit(files, n, limit)
  {
    var total := 0;
    n := 0;
    while n < |files|
      invariant 0 <= n <= |files| && total == TotalFileSize(files[..n])
      invariant forall k :: 0 < k <= n ==> TotalFileSize(files[..k]) < limit
    {
      assert files[..n + 1][..n] == files[..n];
      total := total + files[n].size;
      n := n + 1;
      if total >= limit {
        return;
      }
    }
  }

  /**
     A manual compaction of a key range: all files of level zero that the least closed range around it takes in;
     above level zero the files that overlap it, in order, only so many that the size limit is reached.
   */
  method CompactRange(v: Version, level: nat, begin: Bound, end: Bound, fileLimit: nat, sizeLimit: nat)
    returns (found: bool, upper: seq<File>, lower: seq<File>, smallest: Key, largest: Key, ghost chosen: seq<File>)
    requires Versions.Valid(v) && level + 1 < NUM_LEVELS
    ensures !found ==> forall f :: f in v.files[level] ==> !Overlaps(f, begin, end)
    ensures found ==>
              AllWellFormed(upper) && GoodInputs(v, Inputs(level, FileSet(upper), FileSet(lower), smallest, largest))
    ensures found ==> RangeChosen(v, level, begin, end, fileLimit, chosen) && forall f :: f in chosen ==> f in upper
  {
    ghost var lo, hi;
    var inputs;
    inputs, lo, hi := GetOverlappingInputs(level, v.files[level], begin, end);
    OverlappingExactly(v.files[level], lo, hi);
    smallest, largest := LookupKey(0.0, 0), LookupKey(0.0, 0);
    upper, lower, chosen := [], [], [];
    if inputs == [] {
      forall f | f in v.files[level] ensures !Overlaps(f, begin, end) {
        assert f !in inputs;
      }
      return false, upper, lower, smallest, largest, chosen;
    }
    OverlappingIsPickable(level, v.files[level], lo, hi);
    if level > 0 {
      var n := FilesUpTo(inputs, fileLimit);
      PrefixIsPickable(v.files[level], lo, hi, n);
      inputs := inputs[..n];
    }
    chosen := inputs;
    upper, lower, smallest, largest := SetupOtherInputs(v, level, inputs, sizeLimit);
    found := true;
  }

  ghost predicate RangeChosen(v: Version, level: nat, begin: Bound, end: Bound, fileLimit: nat, chosen: seq<File>)
    requires Versions.Valid(v) && level < NUM_LEVELS
  {
    var files := v.files[level];
    if level == 0 then
      exists lo, hi :: LeastClosedRange(files, begin, end, lo, hi) && chosen == Overlapping(files, lo, hi)
    else
      var all := Overlapping(files, begin, end);
      CutAtLimit(all, |chosen|, fileLimit) && chosen == all[..|chosen|]
  }

  /** Files of a sorted list stay in order when filtered. */
  lemma {:induction false} OverlappingInOrder(files: seq<File>, begin: Bound, end: Bound)
    requires AllWellFormed(files) && Disjoint(files)
    ensures AllWellFormed(Overlapping(files, begin, end)) && Disjoint(Overlapping(files, begin, end))
  {
    if files != [] {
      var n := |files| - 1;
      OverlappingInOrder(files[..n], begin, end);
      var before := Overlapping(files[..n], begin, end);
      if Overlaps(files[n], begin, end) {
        var all := before + [files[n]];
        forall i, j | 0 <= i < j < |all| ensures WellFormed(all[i]) && WellFormed(all[j])
            && Less(Largest(all[i]), Smallest(all[j])) {
          if j == |before| {
            AllBeforeLast(files, begin, end, before[i]);
          } else {
            assert all[j] == before[j];
          }
          assert all[i] == before[i];
        }
      }
    }
  }

  lemma AllBeforeLast(files: seq<File>, begin: Bound, end: Bound, f: File)
    requires AllWellFormed(files) && Disjoint(files) && files != []
    requires f in Overlapping(files[..|files| - 1], begin, end)
    ensures WellFormed(f) && Less(Largest(f), Smallest(files[|files| - 1]))
  {
    var n := |files| - 1;
    OverlappingExactly(files[..n], begin, end);
    var k :| 0 <= k < n && files[..n][k] == f;
    assert files[k] == f;
  }

  lemma LaterFileIsAfter(all: seq<File>, n: nat, g: File)
    requires AllWellFormed(all) && Disjoint(all) && n <= |all| && g in all && g !in all[..n]
    ensures forall f :: f in all[..n] ==> WellFormed(f) && Less(Largest(f), Smallest(g))
  {
    var k :| 0 <= k < |all| && all[k] == g;
    forall i | 0 <= i < n ensures all[i] in all[..n] {
      assert all[..n][i] == all[i];
    }
    assert k >= n;
    forall f | f in all[..n] ensures WellFormed(f) && Less(Largest(f), Smallest(g)) {
      var i :| 0 <= i < n && all[..n][i] == f;
      assert all[i] == f;
    }
  }

  lemma PrefixIsPickable(files: seq<File>, begin: Bound, end: Bound, n: nat)
    requires AllWellFormed(files) && Disjoint(files) && 0 < n <= |Overlapping(files, begin, end)|
    ensures Pickable(1, files, Overlapping(files, begin, end)[..n])
  {
    var all := Overlapping(files, begin, end);
    OverlappingExactly(files, begin, end);
    OverlappingIsPickable(1, files, begin, end);
    OverlappingInOrder(files, begin, end);
    var some := all[..n];
    assert forall f :: f in some ==> f in all;
    forall g | g in files && g !in some
      ensures (forall f :: f in some ==> Less(Largest(g), Smallest(f)))
              || (forall f :: f in some ==> Less(Largest(f), Smallest(g)))
    {
      if g in all {
        LaterFileIsAfter(all, n, g);
      }
    }
  }

  // ---------- Flush level ----------

  /** Sequence numbers have 56 bits. */
  ghost predicate SequencesFit(files: seq<File>)
    requires AllWellFormed(files)
  {
    forall f :: f in files ==> Largest(f).sequence <= MAX_SEQUENCE
  }

  /** Does some file of a level overlap a user-key range? */
  method SomeFileOverlapsRange(disjointSorted: bool, files: seq<File>, smallest: UserKey, largest: UserKey)
    returns (overlap: bool)
    requires AllWellFormed(files) && SequencesFit(files) && (disjointSorted ==> Disjoint(files))
    requires smallest <= largest
    ensures overlap <==> exists f :: f in files && OverlapsUsers(f, smallest, largest)
  {
    if !disjointSorted {
      for i := 0 to |files|
        invariant forall j :: 0 <= j < i ==> !OverlapsUsers(files[j], smallest, largest)
      {
        if smallest > Largest(files[i]).user || largest < Smallest(files[i]).user {
          // No overlap.
        } else {
          assert files[i] in files;
          return true;
        }
      }
      return false;
    }
    var index := FindFile(files, LookupKey(smallest, MAX_SEQUENCE));
    OnlyFoundFileOverlaps(files, index, smallest, largest);
    if index >= |files| {
      return false;
    }
    return !(largest < Smallest(files[index]).user);
  }

  /** In a disjoint level the range is overlapped exactly if the file found for its start begins within it. */
  lemma OnlyFoundFileOverlaps(files: seq<File>, index: nat, smallest: UserKey, largest: UserKey)
    requires AllWellFormed(files) && Disjoint(files) && SequencesFit(files) && index <= |files|
    requires forall i :: 0 <= i < index ==> Less(Largest(files[i]), LookupKey(smallest, MAX_SEQUENCE))
    requires forall i :: index <= i < |files| ==> LessEq(LookupKey(smallest, MAX_SEQUENCE), Largest(files[i]))
    ensures (exists f :: f in files && OverlapsUsers(f, smallest, largest)) <==>
            index < |files| && Smallest(files[index]).user <= largest
  {
    forall i | 0 <= i < |files|
      ensures i < index ==> !OverlapsUsers(files[i], smallest, largest)
      ensures i >= index && Smallest(files[index]).user > largest ==> !OverlapsUsers(files[i], smallest, largest)
    {
      BoundsHold(files[i], files[i].entries[0]);
      if i > index {
        BoundsHold(files[index], files[index].entries[0]);
        assert Less(Largest(files[index]), Smallest(files[i]));
      }
    }
    if index < |files| {
      LookupKeyDividesVersions(Largest(files[index]), smallest, MAX_SEQUENCE);
      assert files[index] in files;
    }
  }

  ghost predicate NoneOverlaps(files: seq<File>, smallest: UserKey, largest: UserKey)
    requires AllWellFormed(files)
  {
    forall g :: g in files ==> !OverlapsUsers(g, smallest, largest)
  }

  /** Nothing at the level overlaps the range, and the level below has not too much that does. */
  ghost predicate CanDescend(v: Version, level: nat, smallest: UserKey, largest: UserKey, limitBytes: nat)
    requires Versions.Valid(v) && 0 < level <= MAX_MEM_COMPACT_LEVEL
  {
    && NoneOverlaps(v.files[level], smallest, largest)
    && TotalFileSize(Overlapping(v.files[level + 1], Some(smallest), Some(largest))) <= limitBytes
  }

  method Descends(v: Version, level: nat, smallest: UserKey, largest: UserKey, limitBytes: nat) returns (ok: bool)
    requires Versions.Valid(v) && 0 < level <= MAX_MEM_COMPACT_LEVEL && smallest <= largest
    requires SequencesFit(v.files[level])
    ensures ok <==> CanDescend(v, level, smallest, largest, limitBytes)
  {
    var overlap := SomeFileOverlapsRange(true, v.files[level], smallest, largest);
    if overlap {
      return false;
    }
    var tooMuch := OverlapsTooMuch(level + 1, v.files[level + 1], smallest, largest, limitBytes);
    ok := !tooMuch;
  }

  lemma NothingAbove(v: Version, level: nat, smallest: UserKey, largest: UserKey, limitBytes: nat)
    requires Versions.Valid(v) && level <= MAX_MEM_COMPACT_LEVEL
    requires forall l :: 1 <= l <= level ==> CanDescend(v, l, smallest, largest, limitBytes)
    ensures NoneOverlaps(v.files[0], smallest, largest) ==>
              forall l, g :: 0 <= l <= level && g in v.files[l] ==> !OverlapsUsers(g, smallest, largest)
  {
    forall l, g | 1 <= l <= level && g in v.files[l] ensures !OverlapsUsers(g, smallest, largest) {
      assert CanDescend(v, l, smallest, largest, limitBytes);
    }
  }

  /** Whether the files of a level that overlap a range hold more than a limit. */
  method OverlapsTooMuch(level: nat, files: seq<File>, smallest: UserKey, largest: UserKey, limitBytes: nat)
    returns (tooMuch: bool)
    requires AllWellFormed(files) && level > 0
    ensures tooMuch <==> TotalFileSize(Overlapping(files, Some(smallest), Some(largest))) > limitBytes
  {
    var overlaps, _, _ := GetOverlappingInputs(level, files, Some(smallest), Some(largest));
    tooMuch := TotalFileSize(overlaps) > limitBytes;
  }

  /**
   The level for a flushed memtable: zero, or the deepest of the next two such that nothing at that level or
   above overlaps it.  `limitBytes` bounds the overlap with the level after that.
   */
  method PickLevelForMemTableOutput(v: Version, smallest: UserKey, largest: UserKey, limitBytes: nat)
    returns (level: nat)
    requires Versions.Valid(v) && smallest <= largest
    requires forall l :: 0 <= l < NUM_LEVELS ==> SequencesFit(v.files[l])
    ensures level <= MAX_MEM_COMPACT_LEVEL
    ensures level > 0 ==> forall l, g :: 0 <= l <= level && g in v.files[l] ==> !OverlapsUsers(g, smallest, largest)
    ensures level > 0 <==>
              NoneOverlaps(v.files[0], smallest, largest) && CanDescend(v, 1, smallest, largest, limitBytes)
    ensures level > 0 && level < MAX_MEM_COMPACT_LEVEL ==> !CanDescend(v, level + 1, smallest, largest, limitBytes)
    ensures forall l :: 1 <= l <= level ==> CanDescend(v, l, smallest, largest, limitBytes)
  {
    level := 0;
    var overlap := SomeFileOverlapsRange(false, v.files[0], smallest, largest);
    if !overlap {
      while level < MAX_MEM_COMPACT_LEVEL
        invariant level <= MAX_MEM_COMPACT_LEVEL
        invariant NoneOverlaps(v.files[0], smallest, largest)
        invariant forall l :: 1 <= l <= level ==> CanDescend(v, l, smallest, largest, limitBytes)
      {
        var descends := Descends(v, level + 1, smallest, largest, limitBytes);
        if !descends {
          break;
        }
        level := level + 1;
      }
    }
    NothingAbove(v, level, smallest, largest, limitBytes);
  }
}
