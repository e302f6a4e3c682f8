/**
 When a compaction uncovers an old value: the tombstone that hides it is an input, and the file that goes
 on with the older entries of its user key is left out one level down.
 */
module Straddling {
  import opened InternalKeys
  import opened Reads
  import opened Files
  import opened Versions
  import opened Compactions
  import opened Installs

  /** A file that stays behind one level down and starts with an older entry of the user key of `top`. */
  ghost predicate StartsOlder(v: Version, c: Inputs, top: Entry, g: File)
    requires Versions.Valid(v) && GoodInputs(v, c)
  {
    && g in v.files[c.level + 1] && g !in c.lower
    && Smallest(g).user == top.key.user && Smallest(g).sequence < top.key.sequence
  }

  /** Of the files that start with older entries of the user key, the newest starts with a value. */
  ghost predicate GoesOnWithValue(v: Version, c: Inputs, top: Entry)
    requires Versions.Valid(v) && GoodInputs(v, c)
  {
    exists g :: GoesOnWith(v, c, top, g) && Smallest(g).kind.Value?
  }

  ghost predicate GoesOnWith(v: Version, c: Inputs, top: Entry, g: File)
    requires Versions.Valid(v) && GoodInputs(v, c)
  {
    && StartsOlder(v, c, top, g)
    && forall h :: StartsOlder(v, c, top, h) ==> Smallest(h).sequence <= Smallest(g).sequence
  }

  /**
   The user key is deleted at the smallest snapshot, the compaction may drop the tombstone, and the next
   file of the lower level goes on with a value of the same user key.
   */
  ghost predicate Uncovers(v: Version, c: Inputs, stored: set<Entry>, smallestSnapshot: nat, user: UserKey)
    requires Versions.Valid(v) && GoodInputs(v, c)
  {
    var top := Lookup(stored, user, smallestSnapshot);
    && top.Some? && top.value in InputEntries(c)
    && ObsoleteTombstone(v, c.level, top.value, smallestSnapshot)
    && GoesOnWithValue(v, c, top.value)
  }

  /** Where a remaining entry with the user key of an input entry can be, if deeper levels cannot hold it. */
  lemma WhereRemainingIs(v: Version, c: Inputs, m: nat, f: File, top: Entry, l: nat, g: File, y: Entry)
    requires Versions.Valid(v) && GoodInputs(v, c)
    requires (m == c.level && f in c.upper) || (m == c.level + 1 && f in c.lower)
    requires l < NUM_LEVELS && Remains(v, c, l, g) && top in f.entries && y in g.entries
    requires y.key.user == top.key.user && IsBaseLevel(v, c.level, top.key.user)
    ensures y.key.sequence > top.key.sequence || (l == m == c.level + 1)
  {
    BoundsHold(g, y);
    BoundsHold(f, top);
    assert RangeContains(g, top.key.user);
    if l < m {
      OldLevelsShadow(v, l, g, y, m, f, top);
    } else if m == c.level {
      assert l == c.level by {
        assert l == c.level + 1 ==> OverlapsUsers(g, c.smallest.user, c.largest.user);
      }
      UpperFileNewer(v, c, g, y, f, top);
    }
  }

  /** Two entries of one user key in different files of a disjoint level: the files meet at that user key. */
  lemma FilesMeet(v: Version, l: nat, f: File, top: Entry, g: File, y: Entry)
    requires Versions.Valid(v) && 1 <= l < NUM_LEVELS
    requires f in v.files[l] && g in v.files[l] && f != g && top in f.entries && y in g.entries
    requires y.key.user == top.key.user
    ensures y.key.sequence < top.key.sequence ==>
              && Smallest(g).user == Largest(f).user == top.key.user
              && Less(top.key, Smallest(g)) && LessEq(Smallest(g), y.key)
  {
    BoundsHold(g, y);
    BoundsHold(f, top);
    BoundsHold(g, g.entries[0]);
    BoundsHold(f, f.entries[0]);
    DisjointAreApart(v.files[l], f, g);
  }

  /** The entries of the version, and newer ones above it. */
  ghost predicate Above(v: Version, above: set<Entry>)
    requires Versions.Valid(v)
  {
    Shadows(above, EntriesFrom(v, 0)) && UniqueSequences(above + EntriesFrom(v, 0))
  }

  /** An older entry that stays behind lies in a file that starts with an older entry. */
  lemma OlderStaysBehind(v: Version, c: Inputs, above: set<Entry>, top: Entry, y: Entry) returns (g: File)
    requires Versions.Valid(v) && GoodInputs(v, c) && Above(v, above)
    requires top in InputEntries(c) && y in above + RemainingEntries(v, c)
    requires y.key.user == top.key.user && y.key.sequence < top.key.sequence
    requires IsBaseLevel(v, c.level, top.key.user)
    ensures StartsOlder(v, c, top, g) && y in g.entries && y.key.sequence <= Smallest(g).sequence
  {
    OldEntries(v, c);
    assert y in RemainingEntries(v, c);
    var l;
    l, g :| 0 <= l < |v.files| && g in v.files[l] && Remains(v, c, l, g) && y in g.entries;
    var f :| f in c.upper + c.lower && top in f.entries;
    WhereRemainingIs(v, c, if f in c.upper then c.level else c.level + 1, f, top, l, g, y);
    FilesMeet(v, l, f, top, g, y);
    FirstStays(v, c, l, g);
    assert top in EntriesFrom(v, 0);
    EntryInOneFile(v, l, f, l, g, top);
  }

  lemma FirstStays(v: Version, c: Inputs, l: nat, g: File)
    requires Versions.Valid(v) && l < NUM_LEVELS && Remains(v, c, l, g)
    ensures g.entries[0] in RemainingEntries(v, c) && g.entries[0] in EntriesFrom(v, 0)
  {
    var e := g.entries[0];
    assert e in g.entries;
    RemainingEntry(v, c, l, g, e);
    assert e in EntriesOf(v.files[l]);
  }

  lemma InputsDoNotStay(v: Version, c: Inputs, above: set<Entry>, top: Entry)
    requires Versions.Valid(v) && GoodInputs(v, c) && Above(v, above) && top in InputEntries(c)
    ensures top !in above + RemainingEntries(v, c)
  {
    OldEntries(v, c);
    assert top in EntriesFrom(v, 0);
    if top in RemainingEntries(v, c) {
      var l, g :| 0 <= l < |v.files| && g in v.files[l] && Remains(v, c, l, g) && top in g.entries;
      var f :| f in c.upper + c.lower && top in f.entries;
      EntryInOneFile(v, if f in c.upper then c.level else c.level + 1, f, l, g, top);
    }
  }

  lemma PartsOfStored(v: Version, c: Inputs, above: set<Entry>)
    requires Versions.Valid(v) && GoodInputs(v, c) && Above(v, above)
    ensures (above + RemainingEntries(v, c)) + InputEntries(c) == above + EntriesFrom(v, 0)
    ensures UniqueSequences((above + RemainingEntries(v, c)) + InputEntries(c))
  {
    OldEntries(v, c);
  }

  /** What comes back is the newest entry that stays, and older than the tombstone. */
  lemma ResurrectedFacts(v: Version, level: nat, rest: set<Entry>, inputs: set<Entry>, smallestSnapshot: nat,
                         user: UserKey)
    returns (top: Entry, left: Entry)
    requires Versions.Valid(v) && UniqueSequences(rest + inputs)
    requires Resurrected(v, level, rest, inputs, smallestSnapshot, user)
    ensures Lookup(rest + inputs, user, smallestSnapshot) == Some(top)
    ensures top in inputs && Visible(top, user, smallestSnapshot) && ObsoleteTombstone(v, level, top, smallestSnapshot)
    ensures IsNewest(rest, user, smallestSnapshot, left) && left.key.kind.Value?
    ensures left.key.sequence < top.key.sequence
  {
    LookupCharacterized(rest + inputs, user, smallestSnapshot);
    LookupCharacterized(rest, user, smallestSnapshot);
    top, left := Lookup(rest + inputs, user, smallestSnapshot).value, Lookup(rest, user, smallestSnapshot).value;
    assert left in rest + inputs && left.key.kind.Value?;
    assert top in rest + inputs && top.key.kind.Deletion?;
  }

  lemma {:induction false} ResurrectedIsUncovered(v: Version, c: Inputs, above: set<Entry>, smallestSnapshot: nat,
                                                  user: UserKey)
    requires Versions.Valid(v) && GoodInputs(v, c) && Above(v, above)
    requires Resurrected(v, c.level, above + RemainingEntries(v, c), InputEntries(c), smallestSnapshot, user)
    ensures Uncovers(v, c, above + EntriesFrom(v, 0), smallestSnapshot, user)
  {
    PartsOfStored(v, c, above);
    var rest := above + RemainingEntries(v, c);
    var top, left := ResurrectedFacts(v, c.level, rest, InputEntries(c), smallestSnapshot, user);
    GoesOnWithNewest(v, c, above, smallestSnapshot, user, top, left);
  }

  lemma GoesOnWithNewest(v: Version, c: Inputs, above: set<Entry>, smallestSnapshot: nat, user: UserKey, top: Entry,
                         left: Entry)
    requires Versions.Valid(v) && GoodInputs(v, c) && Above(v, above)
    requires top in InputEntries(c) && Visible(top, user, smallestSnapshot) && IsBaseLevel(v, c.level, user)
    requires IsNewest(above + RemainingEntries(v, c), user, smallestSnapshot, left) && left.key.kind.Value?
    requires left.key.sequence < top.key.sequence
    ensures GoesOnWithValue(v, c, top)
  {
    var g := OlderStaysBehind(v, c, above, top, left);
    forall h | StartsOlder(v, c, top, h) ensures Smallest(h).sequence <= left.key.sequence {
      FirstIsBelow(v, c, above, smallestSnapshot, user, top, left, h);
    }
    SameEntry(v, c, g, left);
    assert GoesOnWith(v, c, top, g);
  }

  lemma FirstIsBelow(v: Version, c: Inputs, above: set<Entry>, smallestSnapshot: nat, user: UserKey, top: Entry,
                     left: Entry, h: File)
    requires Versions.Valid(v) && GoodInputs(v, c) && StartsOlder(v, c, top, h)
    requires Visible(top, user, smallestSnapshot)
    requires IsNewest(above + RemainingEntries(v, c), user, smallestSnapshot, left)
    ensures Smallest(h).sequence <= left.key.sequence
  {
    FirstStays(v, c, c.level + 1, h);
    assert Visible(h.entries[0], user, smallestSnapshot);
  }

  lemma SameEntry(v: Version, c: Inputs, g: File, left: Entry)
    requires Versions.Valid(v) && GoodInputs(v, c) && g in v.files[c.level + 1]
    requires left in g.entries && left.key.user == Smallest(g).user && left.key.sequence == Smallest(g).sequence
    ensures g.entries[0] == left
  {
    var l, first := c.level + 1, g.entries[0];
    assert first in g.entries && first in EntriesOf(v.files[l]) && left in EntriesOf(v.files[l]);
    assert first in EntriesFrom(v, 0) && left in EntriesFrom(v, 0);
  }

  lemma {:induction false} UncoveredIsResurrected(v: Version, c: Inputs, above: set<Entry>, smallestSnapshot: nat,
                                                  user: UserKey)
    requires Versions.Valid(v) && GoodInputs(v, c) && Above(v, above)
    requires Uncovers(v, c, above + EntriesFrom(v, 0), smallestSnapshot, user)
    ensures Resurrected(v, c.level, above + RemainingEntries(v, c), InputEntries(c), smallestSnapshot, user)
  {
    var rest, inputs := above + RemainingEntries(v, c), InputEntries(c);
    PartsOfStored(v, c, above);
    LookupCharacterized(rest + inputs, user, smallestSnapshot);
    var top := Lookup(rest + inputs, user, smallestSnapshot).value;
    var left := NewestThatStays(v, c, above, smallestSnapshot, user, top);
    assert UniqueSequences(rest);
    LookupIs(rest, user, smallestSnapshot, left);
  }

  lemma NewestThatStays(v: Version, c: Inputs, above: set<Entry>, smallestSnapshot: nat, user: UserKey, top: Entry)
    returns (left: Entry)
    requires Versions.Valid(v) && GoodInputs(v, c) && Above(v, above) && GoesOnWithValue(v, c, top)
    requires top in InputEntries(c) && IsBaseLevel(v, c.level, user)
    requires IsNewest((above + RemainingEntries(v, c)) + InputEntries(c), user, smallestSnapshot, top)
    ensures IsNewest(above + RemainingEntries(v, c), user, smallestSnapshot, left) && left.key.kind.Value?
  {
    var g :| GoesOnWith(v, c, top, g) && Smallest(g).kind.Value?;
    FirstStays(v, c, c.level + 1, g);
    left := g.entries[0];
    AllStayBelow(v, c, above, smallestSnapshot, user, top, g);
  }

  lemma AllStayBelow(v: Version, c: Inputs, above: set<Entry>, smallestSnapshot: nat, user: UserKey, top: Entry,
                     g: File)
    requires Versions.Valid(v) && GoodInputs(v, c) && Above(v, above) && top in InputEntries(c)
    requires IsNewest((above + RemainingEntries(v, c)) + InputEntries(c), user, smallestSnapshot, top)
    requires IsBaseLevel(v, c.level, user) && GoesOnWith(v, c, top, g)
    ensures forall y :: y in above + RemainingEntries(v, c) && Visible(y, user, smallestSnapshot) ==>
                          y.key.sequence <= Smallest(g).sequence
  {
    forall y | y in above + RemainingEntries(v, c) && Visible(y, user, smallestSnapshot)
      ensures y.key.sequence <= Smallest(g).sequence
    {
      StaysBelowNext(v, c, above, smallestSnapshot, user, top, y, g);
    }
  }

  lemma StaysBelowNext(v: Version, c: Inputs, above: set<Entry>, smallestSnapshot: nat, user: UserKey, top: Entry,
                       y: Entry, g: File)
    requires Versions.Valid(v) && GoodInputs(v, c) && Above(v, above) && top in InputEntries(c)
    requires IsNewest((above + RemainingEntries(v, c)) + InputEntries(c), user, smallestSnapshot, top)
    requires y in above + RemainingEntries(v, c) && Visible(y, user, smallestSnapshot)
    requires IsBaseLevel(v, c.level, user) && GoesOnWith(v, c, top, g)
    ensures y.key.sequence <= Smallest(g).sequence
  {
    StaysBelow(v, c, above, smallestSnapshot, user, top, y);
    var h := OlderStaysBehind(v, c, above, top, y);
  }

  lemma StaysBelow(v: Version, c: Inputs, above: set<Entry>, smallestSnapshot: nat, user: UserKey, top: Entry, y: Entry)
    requires Versions.Valid(v) && GoodInputs(v, c) && Above(v, above) && top in InputEntries(c)
    requires IsNewest((above + RemainingEntries(v, c)) + InputEntries(c), user, smallestSnapshot, top)
    requires y in above + RemainingEntries(v, c) && Visible(y, user, smallestSnapshot)
    ensures y.key.sequence < top.key.sequence
  {
    var all := (above + RemainingEntries(v, c)) + InputEntries(c);
    PartsOfStored(v, c, above);
    InputsDoNotStay(v, c, above, top);
    assert y in all && top in all;
  }

  /** A key comes back exactly when its tombstone is dropped and the next file goes on with a value of it. */
  lemma {:induction false} ResurrectedExactly(v: Version, c: Inputs, above: set<Entry>, smallestSnapshot: nat,
                                              user: UserKey)
    requires Versions.Valid(v) && GoodInputs(v, c) && Above(v, above)
    ensures Resurrected(v, c.level, above + RemainingEntries(v, c), InputEntries(c), smallestSnapshot, user) <==>
              Uncovers(v, c, above + EntriesFrom(v, 0), smallestSnapshot, user)
  {
    if Resurrected(v, c.level, above + RemainingEntries(v, c), InputEntries(c), smallestSnapshot, user) {
      ResurrectedIsUncovered(v, c, above, smallestSnapshot, user);
    }
    if Uncovers(v, c, above + EntriesFrom(v, 0), smallestSnapshot, user) {
      UncoveredIsResurrected(v, c, above, smallestSnapshot, user);
    }
  }

  /** No file that stays at the lower level starts with the user key that ends a lower input. */
  ghost predicate BoundaryClean(v: Version, c: Inputs)
    requires Versions.Valid(v) && GoodInputs(v, c)
  {
    forall f, g :: f in c.lower && g in v.files[c.level + 1] && g !in c.lower ==> Smallest(g).user != Largest(f).user
  }

  /** With clean boundaries nothing is uncovered. */
  lemma {:induction false} CleanUncoversNothing(v: Version, c: Inputs, stored: set<Entry>, smallestSnapshot: nat,
                                                user: UserKey)
    requires Versions.Valid(v) && GoodInputs(v, c) && BoundaryClean(v, c)
    ensures !Uncovers(v, c, stored, smallestSnapshot, user)
  {
    LookupCharacterized(stored, user, smallestSnapshot);
    var top := Lookup(stored, user, smallestSnapshot);
    forall g | top.Some? && top.value in InputEntries(c) && IsBaseLevel(v, c.level, user)
      ensures !StartsOlder(v, c, top.value, g)
    {
      NoneStartsOlder(v, c, top.value, g);
    }
  }

  lemma NoneStartsOlder(v: Version, c: Inputs, top: Entry, g: File)
    requires Versions.Valid(v) && GoodInputs(v, c) && BoundaryClean(v, c)
    requires top in InputEntries(c) && IsBaseLevel(v, c.level, top.key.user)
    ensures !StartsOlder(v, c, top, g)
  {
    var l := c.level + 1;
    var f :| f in c.upper + c.lower && top in f.entries;
    if g in v.files[l] && g !in c.lower && Smallest(g).user == top.key.user {
      var first := g.entries[0];
      assert first in g.entries && Remains(v, c, l, g);
      WhereRemainingIs(v, c, if f in c.upper then c.level else l, f, top, l, g, first);
      if f in c.lower {
        FilesMeet(v, l, f, top, g, first);
      }
    }
  }
}
