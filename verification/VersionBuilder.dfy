/**
 Accumulates version edits and saves the resulting file lists, one sorted list per level, and shows
 that accumulating many edits gives the lists that applying them one at a time gives.

 A file is any value with a number; `before` is the order by smallest key and then by number.
 */
module VersionBuilder {

  /** What one edit does: (level, number) pairs to delete and (level, file) pairs to add. */
  datatype Edit<F> = Edit(deletedFiles: set<(nat, nat)>, newFiles: seq<(nat, F)>)

  /** What a builder remembers for one level. */
  datatype LevelState<F> = LevelState(deleted: set<nat>, added: seq<F>)

  datatype FileOrder<!F> = FileOrder(number: F -> nat, before: (F, F) -> bool)

  /** A strict total order on the files of a set. */
  ghost predicate Orders<F(!new)>(order: FileOrder<F>, S: set<F>) {
    && (forall a, b :: a in S && b in S && a != b ==> order.before(a, b) || order.before(b, a))
    && (forall a, b :: a in S && b in S && order.before(a, b) ==> !order.before(b, a))
    && (forall a, b, c :: a in S && b in S && c in S && order.before(a, b) && order.before(b, c) ==> order.before(a, c))
  }

  ghost predicate SortedBy<F(!new)>(order: FileOrder<F>, fs: seq<F>) {
    forall i, j :: 0 <= i < j < |fs| ==> order.before(fs[i], fs[j])
  }

  ghost function Elements<F>(fs: seq<F>): set<F> {
    set f | f in fs
  }

  ghost function DeletedAt<F>(edit: Edit<F>, level: nat): set<nat> {
    set d | d in edit.deletedFiles && d.0 == level :: d.1
  }

  ghost function AddedAt<F>(edit: Edit<F>, level: nat): set<F> {
    set a | a in edit.newFiles && a.0 == level :: a.1
  }

  ghost function NumbersOf<F>(order: FileOrder<F>, S: set<F>): set<nat> {
    set f | f in S :: order.number(f)
  }

  /** The files that a level state leaves. */
  ghost function Remaining<F>(order: FileOrder<F>, S: set<F>, deleted: set<nat>): set<F> {
    set f | f in S && order.number(f) !in deleted
  }

  /** A sorted list is determined by its elements. */
  lemma {:induction false} SortedListUnique<F(!new)>(order: FileOrder<F>, fs: seq<F>, gs: seq<F>)
    requires Orders(order, Elements(fs))
    requires SortedBy(order, fs) && SortedBy(order, gs) && Elements(fs) == Elements(gs)
    ensures fs == gs
  {
    NoElements(fs);
    NoElements(gs);
    if fs != [] {
      FirstIsLeast(order, fs, gs);
      FirstIsLeast(order, gs, fs);
      assert fs[0] in Elements(fs) && gs[0] in Elements(gs);
      assert fs[0] == gs[0];
      RestElements(order, fs);
      RestElements(order, gs);
      SortedListUnique(order, fs[1..], gs[1..]);
    }
  }

  lemma NoElements<F>(fs: seq<F>)
    ensures fs == [] <==> Elements(fs) == {}
  {
    if fs != [] {
      assert fs[0] in Elements(fs);
    }
  }

  lemma FirstIsLeast<F(!new)>(order: FileOrder<F>, fs: seq<F>, gs: seq<F>)
    requires SortedBy(order, fs) && |fs| > 0 && |gs| > 0 && Elements(fs) == Elements(gs)
    ensures gs[0] == fs[0] || order.before(fs[0], gs[0])
  {
    assert gs[0] in Elements(gs);
    var i :| 0 <= i < |fs| && fs[i] == gs[0];
  }

  lemma RestElements<F(!new)>(order: FileOrder<F>, fs: seq<F>)
    requires Orders(order, Elements(fs)) && SortedBy(order, fs) && |fs| > 0
    ensures Elements(fs[1..]) == Elements(fs) - {fs[0]}
    ensures SortedBy(order, fs[1..]) && Orders(order, Elements(fs[1..]))
  {
    forall f | f in fs[1..] ensures f != fs[0] {
      var i :| 0 <= i < |fs[1..]| && fs[1..][i] == f;
      assert order.before(fs[0], fs[i + 1]);
      assert fs[0] in Elements(fs);
    }
    forall f | f in Elements(fs) - {fs[0]} ensures f in fs[1..] {
      var i :| 0 <= i < |fs| && fs[i] == f;
      assert fs[1..][i - 1] == f;
    }
  }

  /** Inserts into the ordered set of added files; an equivalent file that is already there stays. */
  method InsertSorted<F(==,!new)>(order: FileOrder<F>, added: seq<F>, f: F) returns (r: seq<F>)
    requires Orders(order, Elements(added) + {f}) && SortedBy(order, added)
    ensures SortedBy(order, r) && Elements(r) == Elements(added) + {f}
  {
    var p := 0;
    while p < |added| && order.before(added[p], f)
      invariant 0 <= p <= |added|
      invariant forall i :: 0 <= i < p ==> order.before(added[i], f)
    {
      assert added[p] in Elements(added);
      p := p + 1;
    }
    if p < |added| && !order.before(f, added[p]) {
      assert added[p] in Elements(added);
      assert added[p] == f;
      r := added;
    } else {
      r := added[..p] + [f] + added[p..];
      forall i | p <= i < |added| ensures order.before(f, added[i]) {
        assert added[p] in Elements(added) && added[i] in Elements(added);
        assert i == p || order.before(added[p], added[i]);
      }
      assert forall x :: x in r <==> x in added || x == f;
    }
  }

  /** The first position whose file comes after `f`. */
  method UpperBound<F(!new)>(order: FileOrder<F>, base: seq<F>, from: nat, f: F) returns (p: nat)
    requires from <= |base|
    ensures from <= p <= |base|
    ensures forall i :: from <= i < p ==> !order.before(f, base[i])
    ensures p < |base| ==> order.before(f, base[p])
  {
    p := from;
    while p < |base| && !order.before(f, base[p])
      invariant from <= p <= |base|
      invariant forall i :: from <= i < p ==> !order.before(f, base[i])
    {
      p := p + 1;
    }
  }

  ghost predicate AllBefore<F(!new)>(order: FileOrder<F>, fs: seq<F>, f: F) {
    forall x :: x in fs ==> order.before(x, f)
  }

  method MaybeAddFile<F(==,!new)>(order: FileOrder<F>, files: seq<F>, f: F, deleted: set<nat>) returns (r: seq<F>)
    requires SortedBy(order, files) && AllBefore(order, files, f)
    ensures SortedBy(order, r)
    ensures Elements(r) == Elements(files) + Remaining(order, {f}, deleted)
  {
    r := files;
    if order.number(f) !in deleted {
      r := files + [f];
      assert forall i :: 0 <= i < |files| ==> files[i] in files;
    }
  }

  /** Adds base files up to the given position. */
  method AddBaseFiles<F(==,!new)>(order: FileOrder<F>, files: seq<F>, base: seq<F>, from: nat, to: nat,
                        deleted: set<nat>)
    returns (r: seq<F>)
    requires from <= to <= |base| && SortedBy(order, base) && SortedBy(order, files)
    requires forall i :: from <= i < to ==> AllBefore(order, files, base[i])
    ensures SortedBy(order, r)
    ensures Elements(r) == Elements(files) + Remaining(order, Elements(base[from..to]), deleted)
  {
    r := files;
    var i := from;
    while i < to
      invariant from <= i <= to
      invariant SortedBy(order, r)
      invariant Elements(r) == Elements(files) + Remaining(order, Elements(base[from..i]), deleted)
    {
      forall x | x in r ensures order.before(x, base[i]) {
        assert x in Elements(r);
        if x !in files {
          assert x in Elements(base[from..i]);
          var k :| 0 <= k < |base[from..i]| && base[from..i][k] == x;
          assert base[from + k] == x;
        } else {
          assert AllBefore(order, files, base[i]);
        }
      }
      r := MaybeAddFile(order, r, base[i], deleted);
      assert base[from..i + 1] == base[from..i] + [base[i]];
      i := i + 1;
    }
  }

  /** Copies the base files that come before one added file, then the added file. */
  method MergeOne<F(==,!new)>(order: FileOrder<F>, base: seq<F>, pos: nat, added: seq<F>, a: nat, deleted: set<nat>,
                    files: seq<F>)
    returns (r: seq<F>, next: nat)
    requires Orders(order, Elements(base) + Elements(added))
    requires SortedBy(order, base) && SortedBy(order, added) && Elements(base) !! Elements(added)
    requires pos <= |base| && a < |added|
    requires Separated(order, base, pos, added, a)
    requires Merged(order, base, pos, added, a, deleted, files)
    ensures next <= |base| && Separated(order, base, next, added, a + 1)
    ensures Merged(order, base, next, added, a + 1, deleted, r)
  {
    next := UpperBound(order, base, pos, added[a]);
    Interleave(order, base, pos, next, added, a);
    r := CopyBase(order, base, pos, next, added, a, deleted, files);
    WrittenBefore(order, base, next, added, a, deleted, r, added[a]);
    r := MaybeAddFile(order, r, added[a], deleted);
    assert added[..a + 1] == added[..a] + [added[a]];
  }

  method CopyBase<F(==,!new)>(order: FileOrder<F>, base: seq<F>, pos: nat, next: nat, added: seq<F>, a: nat,
                    deleted: set<nat>, files: seq<F>)
    returns (r: seq<F>)
    requires SortedBy(order, base) && SortedBy(order, added)
    requires pos <= next <= |base| && a <= |added|
    requires Separated(order, base, pos, added, a)
    requires Merged(order, base, pos, added, a, deleted, files)
    ensures Merged(order, base, next, added, a, deleted, r)
  {
    forall i | pos <= i < next ensures AllBefore(order, files, base[i]) {
      WrittenBefore(order, base, pos, added, a, deleted, files, base[i]);
    }
    r := AddBaseFiles(order, files, base, pos, next, deleted);
    assert base[..next] == base[..pos] + base[pos..next];
  }

  /** Merges the sorted base list with the sorted added files, leaving out the deleted numbers. */
  method SaveLevel<F(==,!new)>(order: FileOrder<F>, base: seq<F>, state: LevelState<F>) returns (files: seq<F>)
    requires Orders(order, Elements(base) + Elements(state.added))
    requires SortedBy(order, base) && SortedBy(order, state.added)
    requires Elements(base) !! Elements(state.added)
    ensures SortedBy(order, files)
    ensures Elements(files) == Remaining(order, Elements(base) + Elements(state.added), state.deleted)
  {
    var added := state.added;
    files := [];
    var pos := 0;
    var a := 0;
    while a < |added|
      invariant 0 <= a <= |added| && 0 <= pos <= |base|
      invariant Merged(order, base, pos, added, a, state.deleted, files)
      invariant Separated(order, base, pos, added, a)
    {
      files, pos := MergeOne(order, base, pos, added, a, state.deleted, files);
      a := a + 1;
    }
    files := CopyBase(order, base, pos, |base|, added, a, state.deleted, files);
    assert base[..|base|] == base && added[..|added|] == added;
  }

  /** The output holds what remains of the first files of both lists. */
  ghost predicate Merged<F(!new)>(order: FileOrder<F>, base: seq<F>, pos: nat, added: seq<F>, a: nat,
                           deleted: set<nat>, files: seq<F>)
    requires pos <= |base| && a <= |added|
  {
    && SortedBy(order, files)
    && Elements(files) == Remaining(order, Elements(base[..pos]) + Elements(added[..a]), deleted)
  }

  /** Everything already merged comes before everything still to merge. */
  ghost predicate Separated<F(!new)>(order: FileOrder<F>, base: seq<F>, pos: nat, added: seq<F>, a: nat)
    requires pos <= |base| && a <= |added|
  {
    && (forall i, j :: 0 <= i < pos && a <= j < |added| ==> order.before(base[i], added[j]))
    && (forall i, j :: pos <= i < |base| && 0 <= j < a ==> order.before(added[j], base[i]))
  }

  lemma Interleave<F(!new)>(order: FileOrder<F>, base: seq<F>, pos: nat, next: nat, added: seq<F>, a: nat)
    requires Orders(order, Elements(base) + Elements(added))
    requires SortedBy(order, base) && SortedBy(order, added) && Elements(base) !! Elements(added)
    requires pos <= next <= |base| && a < |added|
    requires Separated(order, base, pos, added, a)
    requires forall i :: pos <= i < next ==> !order.before(added[a], base[i])
    requires next < |base| ==> order.before(added[a], base[next])
    ensures Separated(order, base, next, added, a) && Separated(order, base, next, added, a + 1)
  {
    var S := Elements(base) + Elements(added);
    forall i, j | 0 <= i < next && a <= j < |added| ensures order.before(base[i], added[j]) {
      assert base[i] in S && added[a] in S && added[j] in S;
      if i >= pos {
        assert base[i] in Elements(base) && added[a] in Elements(added);
        assert order.before(base[i], added[a]);
      }
    }
    forall i, j | next <= i < |base| && 0 <= j <= a ensures order.before(added[j], base[i]) {
      assert base[i] in S && added[j] in S && base[next] in S && added[a] in S;
      assert order.before(added[a], base[i]) by {
        assert i == next || order.before(base[next], base[i]);
      }
    }
  }

  lemma WrittenBefore<F(!new)>(order: FileOrder<F>, base: seq<F>, pos: nat, added: seq<F>, a: nat, deleted: set<nat>,
                               files: seq<F>, f: F)
    requires SortedBy(order, base) && SortedBy(order, added)
    requires pos <= |base| && a <= |added|
    requires Separated(order, base, pos, added, a)
    requires Elements(files) == Remaining(order, Elements(base[..pos]) + Elements(added[..a]), deleted)
    requires f in base[pos..] || f in added[a..]
    ensures AllBefore(order, files, f)
  {
    forall x | x in files ensures order.before(x, f) {
      assert x in Elements(files);
      if x in Elements(base[..pos]) {
        var i :| 0 <= i < pos && base[..pos][i] == x;
        assert base[i] == x;
      } else {
        var j :| 0 <= j < a && added[..a][j] == x;
        assert added[j] == x;
      }
      if f in base[pos..] {
        var k :| 0 <= k < |base[pos..]| && base[pos..][k] == f;
        assert base[pos + k] == f;
      } else {
        var k :| 0 <= k < |added[a..]| && added[a..][k] == f;
        assert added[a + k] == f;
      }
    }
  }

  /** The numbers a level has marked deleted after a sequence of edits. */
  ghost function FoldDeleted<F>(order: FileOrder<F>, edits: seq<Edit<F>>, level: nat): set<nat> {
    if edits == [] then {}
    else
      var last := edits[|edits| - 1];
      (FoldDeleted(order, edits[..|edits| - 1], level)
          + DeletedAt(last, level)) - NumbersOf(order, AddedAt(last, level))
  }

  ghost function FoldAdded<F>(edits: seq<Edit<F>>, level: nat): set<F> {
    if edits == [] then {} else FoldAdded(edits[..|edits| - 1], level) + AddedAt(edits[|edits| - 1], level)
  }

  /** The files of a level when each edit makes a version of its own. */
  ghost function OneAtATime<F>(order: FileOrder<F>, base: set<F>, edits: seq<Edit<F>>, level: nat): set<F> {
    if edits == [] then base
    else
      var last := edits[|edits| - 1];
      Remaining(order, OneAtATime(order, base, edits[..|edits| - 1], level) + AddedAt(last, level),
                DeletedAt(last, level) - NumbersOf(order, AddedAt(last, level)))
  }

  /** No file number is added to a level that has, or ever had, that number. */
  ghost predicate NeverAddedTwice<F>(order: FileOrder<F>, base: set<F>, edits: seq<Edit<F>>, level: nat) {
    forall k :: 0 <= k < |edits| ==>
                  NumbersOf(order, AddedAt(edits[k], level)) !! NumbersOf(order, base + FoldAdded(edits[..k], level))
  }

  /** Folding all edits through one builder leaves the files that one version per edit leaves. */
  lemma {:induction false} FoldMatchesOneAtATime<F>(order: FileOrder<F>, base: set<F>, edits: seq<Edit<F>>, level: nat)
    requires NeverAddedTwice(order, base, edits, level)
    ensures Remaining(order, base + FoldAdded(edits, level), FoldDeleted(order, edits, level)) ==
              OneAtATime(order, base, edits, level)
  {
    if edits != [] {
      var n := |edits| - 1;
      var init, last := edits[..n], edits[n];
      assert NeverAddedTwice(order, base, init, level) by {
        forall k | 0 <= k < n ensures init[k] == edits[k] && init[..k] == edits[..k] {}
      }
      FoldMatchesOneAtATime(order, base, init, level);
      var older, news := base + FoldAdded(init, level), AddedAt(last, level);
      assert NumbersOf(order, news) !! NumbersOf(order, older);
      forall f | f in older ensures order.number(f) !in NumbersOf(order, news) {
        assert order.number(f) in NumbersOf(order, older);
      }
    }
  }

  function MarkDeleted<F>(levels: seq<LevelState<F>>, edit: Edit<F>): (r: seq<LevelState<F>>)
    ensures |r| == |levels|
    ensures forall l :: 0 <= l < |r| ==>
                          && r[l].deleted == levels[l].deleted + DeletedAt(edit, l)
                          && r[l].added == levels[l].added
  {
    seq(|levels|, l requires 0 <= l < |levels| =>
                    levels[l].(deleted := levels[l].deleted + set d | d in edit.deletedFiles && d.0 == l :: d.1))
  }

  /** The new states of the levels after one edit, deletions first so that a file the edit adds stays. */
  method AddNewFiles<F(==,!new)>(order: FileOrder<F>, levels: seq<LevelState<F>>, edit: Edit<F>,
                       ghost edits: seq<Edit<F>>)
    returns (now: seq<LevelState<F>>)
    requires forall a :: a in edit.newFiles ==> a.0 < |levels|
    requires forall l :: 0 <= l < |levels| ==>
                           && SortedBy(order, levels[l].added)
                           && Elements(levels[l].added) == FoldAdded(edits, l)
                           && Orders(order, FoldAdded(edits + [edit], l))
    ensures |now| == |levels|
    ensures forall l :: 0 <= l < |levels| ==> AfterSome(order, levels[l], edit, |edit.newFiles|, l, now[l])
  {
    now := MarkDeleted(levels, edit);
    var i := 0;
    while i < |edit.newFiles|
      invariant 0 <= i <= |edit.newFiles| && |now| == |levels|
      invariant forall l :: 0 <= l < |levels| ==> AfterSome(order, levels[l], edit, i, l, now[l])
    {
      var (level, f) := edit.newFiles[i];
      assert edit.newFiles[i] in edit.newFiles;
      var next := AddNewFile(order, levels[level], edits, edit, i, now[level]);
      forall l | 0 <= l < |levels| && l != level ensures AfterSome(order, levels[l], edit, i + 1, l, now[l]) {
        AfterOneMore(order, levels[l], edit, i, l, now[l], now[l]);
      }
      now := now[level := next];
      i := i + 1;
    }
  }

  /** Adds the `i`th new file of an edit to its level. */
  method AddNewFile<F(==,!new)>(order: FileOrder<F>, ghost before: LevelState<F>, ghost edits: seq<Edit<F>>,
                      edit: Edit<F>, i: nat,
                                now: LevelState<F>)
    returns (next: LevelState<F>)
    requires i < |edit.newFiles|
    requires var level := edit.newFiles[i].0;
             && AfterSome(order, before, edit, i, level, now)
             && Elements(before.added) == FoldAdded(edits, level)
             && Orders(order, FoldAdded(edits + [edit], level))
    ensures AfterSome(order, before, edit, i + 1, edit.newFiles[i].0, next)
  {
    var (level, f) := edit.newFiles[i];
    InsertionFits(order, before, edits, edit, i, now);
    var added := InsertSorted(order, now.added, f);
    next := LevelState(now.deleted - {order.number(f)}, added);
    AfterOneMore(order, before, edit, i, level, now, next);
  }

  class Builder<F(==,!new)> {
    const order: FileOrder<F>
    const base: seq<seq<F>>
    var levels: seq<LevelState<F>>
    /** The edits applied so far. */
    ghost var edits: seq<Edit<F>>

    constructor (order: FileOrder<F>, base: seq<seq<F>>)
      ensures this.order == order && this.base == base && edits == []
      ensures Valid()
    {
      this.order := order;
      this.base := base;
      levels := seq(|base|, _ => LevelState({}, []));
      edits := [];
    }

    ghost predicate Valid()
      reads this
    {
      && |levels| == |base|
      && forall l :: 0 <= l < |levels| ==>
                       && SortedBy(order, levels[l].added)
                       && Elements(levels[l].added) == FoldAdded(edits, l)
                       && levels[l].deleted == FoldDeleted(order, edits, l)
    }

    method Apply(edit: Edit<F>)
      requires Valid()
      requires forall a :: a in edit.newFiles ==> a.0 < |base|
      requires forall l :: 0 <= l < |base| ==> Orders(order, FoldAdded(edits + [edit], l))
      modifies this
      ensures Valid() && edits == old(edits) + [edit]
    {
      levels := AddNewFiles(order, levels, edit, edits);
      edits := edits + [edit];
      assert edits[..|edits| - 1] == old(edits);
      assert Edit(edit.deletedFiles, edit.newFiles[..|edit.newFiles|]) == edit;
    }

    /** One sorted list of files per level. */
    method SaveTo() returns (files: seq<seq<F>>)
      requires Valid()
      requires forall l :: 0 <= l < |base| ==>
              SortedBy(order, base[l]) && Orders(order, Elements(base[l]) + FoldAdded(edits, l))
      requires forall l :: 0 <= l < |base| ==> NeverAddedTwice(order, Elements(base[l]), edits, l)
      ensures |files| == |base|
      ensures forall l :: 0 <= l < |base| ==> SortedBy(order, files[l])
      ensures forall l :: 0 <= l < |base| ==> Elements(files[l]) == OneAtATime(order, Elements(base[l]), edits, l)
    {
      files := [];
      for l := 0 to |base|
        invariant |files| == l
        invariant forall k :: 0 <= k < l ==> SortedBy(order, files[k])
        invariant forall k :: 0 <= k < l ==> Elements(files[k]) == OneAtATime(order, Elements(base[k]), edits, k)
      {
        AddedAreNew(order, Elements(base[l]), edits, l);
        var saved := SaveLevel(order, base[l], levels[l]);
        FoldMatchesOneAtATime(order, Elements(base[l]), edits, l);
        files := files + [saved];
      }
    }
  }

  /** The state of a level after the deletions and the first `i` additions of an edit. */
  ghost predicate AfterSome<F(!new)>(order: FileOrder<F>, before: LevelState<F>, edit: Edit<F>, i: nat, level: nat,
                              now: LevelState<F>)
    requires i <= |edit.newFiles|
  {
    var some := Edit(edit.deletedFiles, edit.newFiles[..i]);
    && SortedBy(order, now.added)
    && Elements(now.added) == Elements(before.added) + AddedAt(some, level)
    && now.deleted == (before.deleted + DeletedAt(edit, level)) - NumbersOf(order, AddedAt(some, level))
  }

  lemma InsertionFits<F(!new)>(order: FileOrder<F>, before: LevelState<F>, edits: seq<Edit<F>>, edit: Edit<F>, i: nat,
                        now: LevelState<F>)
    requires i < |edit.newFiles|
    requires var level := edit.newFiles[i].0;
             && AfterSome(order, before, edit, i, level, now)
             && Elements(before.added) == FoldAdded(edits, level)
             && Orders(order, FoldAdded(edits + [edit], level))
    ensures Orders(order, Elements(now.added) + {edit.newFiles[i].1})
  {
    var (level, f) := edit.newFiles[i];
    assert edit.newFiles[i] in edit.newFiles;
    assert (edits + [edit])[..|edits|] == edits;
    assert Elements(now.added) + {f} <= FoldAdded(edits + [edit], level);
  }

  lemma AfterOneMore<F(!new)>(order: FileOrder<F>, before: LevelState<F>, edit: Edit<F>, i: nat, l: nat,
                              now: LevelState<F>, next: LevelState<F>)
    requires i < |edit.newFiles|
    requires AfterSome(order, before, edit, i, l, now)
    requires var (level, f) := edit.newFiles[i];
             if l != level then next == now
             else && SortedBy(order, next.added)
                  && Elements(next.added) == Elements(now.added) + {f}
                  && next.deleted == now.deleted - {order.number(f)}
    ensures AfterSome(order, before, edit, i + 1, l, next)
  {
    var (level, f) := edit.newFiles[i];
    assert edit.newFiles[..i + 1] == edit.newFiles[..i] + [edit.newFiles[i]];
    var some, more := Edit(edit.deletedFiles, edit.newFiles[..i]), Edit(edit.deletedFiles, edit.newFiles[..i + 1]);
    assert AddedAt(more, l) == AddedAt(some, l) + (if level == l then {f} else {});
    assert NumbersOf(order, AddedAt(more, l)) ==
        NumbersOf(order, AddedAt(some, l)) + (if level == l then {order.number(f)} else {});
  }

  lemma DisjointNumbers<F>(order: FileOrder<F>, A: set<F>, B: set<F>)
    requires NumbersOf(order, A) !! NumbersOf(order, B)
    ensures A !! B
  {
    forall f | f in A ensures f !in B {
      assert order.number(f) in NumbersOf(order, A);
    }
  }

  lemma {:induction false} AddedAreNew<F>(order: FileOrder<F>, base: set<F>, edits: seq<Edit<F>>, level: nat)
    requires NeverAddedTwice(order, base, edits, level)
    ensures base !! FoldAdded(edits, level)
  {
    if edits != [] {
      var n := |edits| - 1;
      assert NeverAddedTwice(order, base, edits[..n], level) by {
        forall k | 0 <= k < n ensures edits[..n][k] == edits[k] && edits[..n][..k] == edits[..k] {}
      }
      AddedAreNew(order, base, edits[..n], level);
      DisjointNumbers(order, AddedAt(edits[n], level), base + FoldAdded(edits[..n], level));
    }
  }

  /** The base lists are sorted, all files involved are ordered, and no number is reused. */
  ghost predicate Replayable<F(!new)>(order: FileOrder<F>, base: seq<seq<F>>, edits: seq<Edit<F>>) {
    && (forall k, a :: 0 <= k < |edits| && a in edits[k].newFiles ==> a.0 < |base|)
    && forall l :: 0 <= l < |base| ==>
                     && SortedBy(order, base[l])
                     && Orders(order, Elements(base[l]) + FoldAdded(edits, l))
                     && NeverAddedTwice(order, Elements(base[l]), edits, l)
  }

  /** Sorted lists holding the files that one version per edit leaves. */
  ghost predicate ListsAfter<F(!new)>(order: FileOrder<F>, base: seq<seq<F>>, edits: seq<Edit<F>>, files: seq<seq<F>>) {
    && |files| == |base|
    && forall l :: 0 <= l < |base| ==>
                     && SortedBy(order, files[l])
                     && Elements(files[l]) == OneAtATime(order, Elements(base[l]), edits, l)
  }

  lemma {:induction false} PrefixAdded<F>(edits: seq<Edit<F>>, k: nat, level: nat)
    requires k <= |edits|
    ensures FoldAdded(edits[..k], level) <= FoldAdded(edits, level)
    decreases |edits|
  {
    if k == |edits| {
      assert edits[..k] == edits;
    } else {
      var n := |edits| - 1;
      PrefixAdded(edits[..n], k, level);
      assert edits[..n][..k] == edits[..k];
    }
  }

  lemma {:induction false} NothingElseAppears<F>(order: FileOrder<F>, base: set<F>, edits: seq<Edit<F>>, level: nat)
    ensures OneAtATime(order, base, edits, level) <= base + FoldAdded(edits, level)
  {
    if edits != [] {
      NothingElseAppears(order, base, edits[..|edits| - 1], level);
    }
  }

  /** Recovery: all edits of a manifest through one builder. */
  method ReplayAll<F(==,!new)>(order: FileOrder<F>, base: seq<seq<F>>, edits: seq<Edit<F>>) returns (files: seq<seq<F>>)
    requires Replayable(order, base, edits)
    ensures ListsAfter(order, base, edits, files)
  {
    var builder := new Builder(order, base);
    for k := 0 to |edits|
      invariant fresh(builder) && builder.order == order && builder.base == base
      invariant builder.Valid() && builder.edits == edits[..k]
    {
      ghost var upToNow := edits[..k + 1];
      assert builder.edits + [edits[k]] == upToNow;
      forall l | 0 <= l < |base| ensures Orders(order, FoldAdded(upToNow, l)) {
        PrefixAdded(edits, k + 1, l);
      }
      builder.Apply(edits[k]);
    }
    assert edits[..|edits|] == edits;
    files := builder.SaveTo();
  }

  lemma NextStepReplayable<F(!new)>(order: FileOrder<F>, base: seq<seq<F>>, edits: seq<Edit<F>>, k: nat,
                             files: seq<seq<F>>)
    requires Replayable(order, base, edits) && k < |edits|
    requires ListsAfter(order, base, edits[..k], files)
    ensures Replayable(order, files, [edits[k]])
  {
    forall l | 0 <= l < |base|
      ensures Orders(order, Elements(files[l]) + FoldAdded([edits[k]], l))
      ensures NeverAddedTwice(order, Elements(files[l]), [edits[k]], l)
    {
      NextLevelReplayable(order, Elements(base[l]), edits, k, l, Elements(files[l]));
    }
  }

  lemma NextLevelReplayable<F(!new)>(order: FileOrder<F>, base: set<F>, edits: seq<Edit<F>>, k: nat, l: nat,
                              now: set<F>)
    requires k < |edits| && Orders(order, base + FoldAdded(edits, l)) && NeverAddedTwice(order, base, edits, l)
    requires now == OneAtATime(order, base, edits[..k], l)
    ensures Orders(order, now + FoldAdded([edits[k]], l))
    ensures NeverAddedTwice(order, now, [edits[k]], l)
  {
    NothingElseAppears(order, base, edits[..k], l);
    PrefixAdded(edits, k, l);
    PrefixAdded(edits, k + 1, l);
    assert edits[..k + 1][..k] == edits[..k];
    assert [edits[k]][..0] == [];
    assert FoldAdded([edits[k]], l) == AddedAt(edits[k], l);
    assert now + FoldAdded<F>([], l) == now;
    assert now <= base + FoldAdded(edits[..k], l);
    assert NumbersOf(order, now) <= NumbersOf(order, base + FoldAdded(edits[..k], l));
  }

  /** Normal operation: each edit builds the next version from the current one. */
  method InstallEach<F(==,!new)>(order: FileOrder<F>, base: seq<seq<F>>, edits: seq<Edit<F>>)
    returns (files: seq<seq<F>>)
    requires Replayable(order, base, edits)
    ensures ListsAfter(order, base, edits, files)
  {
    files := base;
    for k := 0 to |edits|
      invariant ListsAfter(order, base, edits[..k], files)
    {
      NextStepReplayable(order, base, edits, k, files);
      var next := ReplayAll(order, files, [edits[k]]);
      assert edits[..k + 1][..k] == edits[..k];
      assert [edits[k]][..0] == [];
      forall l | 0 <= l < |base| ensures Elements(next[l]) == OneAtATime(order, Elements(base[l]), edits[..k + 1], l) {
        assert OneAtATime(order, Elements(files[l]), [], l) == Elements(files[l]);
      }
      files := next;
    }
    assert edits[..|edits|] == edits;
  }

  /** Recovery rebuilds exactly the lists that were in use. */
  lemma {:induction false} ReplayRebuildsLists<F(!new)>(order: FileOrder<F>, base: seq<seq<F>>, edits: seq<Edit<F>>,
                                                        recovered: seq<seq<F>>, inUse: seq<seq<F>>)
    requires Replayable(order, base, edits)
    requires ListsAfter(order, base, edits, recovered) && ListsAfter(order, base, edits, inUse)
    ensures recovered == inUse
  {
    forall l | 0 <= l < |base| ensures recovered[l] == inUse[l] {
      NothingElseAppears(order, Elements(base[l]), edits, l);
      SortedListUnique(order, recovered[l], inUse[l]);
    }
  }
}
