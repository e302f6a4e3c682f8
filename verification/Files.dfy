/**
 Table files and the levels they live in.  A file is taken together with the entries of its
 table; its metadata bounds are its first and last keys, as they are recorded when the table is built.
 */
module Files {
  import opened InternalKeys
  import opened Reads

  datatype File = File(number: nat, size: nat, entries: seq<Entry>)

  ghost predicate WellFormed(f: File) {
    |f.entries| > 0 && Sorted(f.entries)
  }

  ghost predicate AllWellFormed(fs: seq<File>) {
    forall i :: 0 <= i < |fs| ==> WellFormed(fs[i])
  }

  function Smallest(f: File): Key
    requires |f.entries| > 0
  {
    f.entries[0].key
  }

  function Largest(f: File): Key
    requires |f.entries| > 0
  {
    f.entries[|f.entries| - 1].key
  }

  lemma BoundsHold(f: File, e: Entry)
    requires WellFormed(f) && e in f.entries
    ensures LessEq(Smallest(f), e.key) && LessEq(e.key, Largest(f))
  {
    var i :| 0 <= i < |f.entries| && f.entries[i] == e;
  }

  /** The user keys of a file lie in its range. */
  predicate RangeContains(f: File, user: UserKey)
    requires |f.entries| > 0
  {
    Smallest(f).user <= user <= Largest(f).user
  }

  /** The order of the set that a version builder sorts its files with. */
  predicate BySmallestKey(f: File, g: File)
    requires |f.entries| > 0 && |g.entries| > 0
  {
    || Less(Smallest(f), Smallest(g))
    || (Smallest(f) == Smallest(g) && f.number < g.number)
  }

  ghost predicate SortedBySmallest(fs: seq<File>)
    requires AllWellFormed(fs)
  {
    forall i, j :: 0 <= i < j < |fs| ==> BySmallestKey(fs[i], fs[j])
  }

  /** Levels above zero: consecutive files do not overlap in internal-key order. */
  ghost predicate Disjoint(fs: seq<File>)
    requires AllWellFormed(fs)
  {
    forall i, j :: 0 <= i < j < |fs| ==> Less(Largest(fs[i]), Smallest(fs[j]))
  }

  ghost function FileSet(fs: seq<File>): set<File> {
    set f | f in fs
  }

  ghost function EntriesOf(fs: seq<File>): set<Entry> {
    set f, e | f in fs && e in f.entries :: e
  }

  function EntriesPerFile(fs: seq<File>): (es: seq<seq<Entry>>)
    ensures |es| == |fs| && forall i :: 0 <= i < |fs| ==> es[i] == fs[i].entries
  {
    seq(|fs|, i requires 0 <= i < |fs| => fs[i].entries)
  }

  /** One sorted run: the entries of disjoint files laid end to end. */
  function Flatten(fs: seq<File>): seq<Entry> {
    if fs == [] then [] else fs[0].entries + Flatten(fs[1..])
  }

  lemma {:induction false} FlattenHolds(fs: seq<File>, e: Entry)
    ensures e in Flatten(fs) <==> e in EntriesOf(fs)
  {
    if fs != [] {
      FlattenHolds(fs[1..], e);
      if e in EntriesOf(fs) {
        var f :| f in fs && e in f.entries;
        assert f == fs[0] || f in fs[1..];
      }
    }
  }

  lemma FileBeforeFile(fs: seq<File>, a: Entry, b: Entry)
    requires AllWellFormed(fs) && Disjoint(fs)
    requires |fs| > 0 && a in fs[0].entries && b in EntriesOf(fs[1..])
    ensures Less(a.key, b.key)
  {
    var f :| f in fs[1..] && b in f.entries;
    var k :| 0 <= k < |fs[1..]| && fs[1..][k] == f;
    assert f == fs[k + 1];
    BoundsHold(f, b);
    BoundsHold(fs[0], a);
  }

  lemma {:induction false} FlattenSorted(fs: seq<File>)
    requires AllWellFormed(fs) && Disjoint(fs)
    ensures Sorted(Flatten(fs))
  {
    if fs != [] {
      var rest := fs[1..];
      FlattenSorted(rest);
      forall i, j | 0 <= i < |fs[0].entries| && 0 <= j < |Flatten(rest)|
        ensures Less(fs[0].entries[i].key, Flatten(rest)[j].key)
      {
        FlattenHolds(rest, Flatten(rest)[j]);
        FileBeforeFile(fs, fs[0].entries[i], Flatten(rest)[j]);
      }
      SortedConcat(fs[0].entries, Flatten(rest));
    }
  }
}
