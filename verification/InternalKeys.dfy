/**
 Internal keys: a user key, a sequence number and a value type, ordered by user key
 ascending and then by packed (sequence, type) tag descending.

 A user key is represented by its rank, a real number.  Every theorem in the project
 uses user keys only through the comparator's total order, and `Bytewise.RankPreservesOrder`
 proves that the byte strings ordered by the default comparator embed into the reals.
 */
module InternalKeys {

  type UserKey = real

  type Byte = b: nat | b < 256

  type Bytes = seq<Byte>

  datatype Option<+T> = None | Some(value: T)

  /** The largest sequence number: 56 bits, because eight bits of the tag hold the type. */
  const MAX_SEQUENCE: nat := 0xFF_FFFF_FFFF_FFFF

  const NUM_LEVELS: nat := 7

  /** The deepest level that a memtable is flushed to. */
  const MAX_MEM_COMPACT_LEVEL: nat := 2

  datatype ValueType = Deletion | Value

  datatype Key = Key(user: UserKey, sequence: nat, kind: ValueType)

  datatype Entry = Entry(key: Key, value: Bytes)

  /** What a batch asks for: a value for a user key, or its deletion. */
  datatype Op = Op(user: UserKey, kind: ValueType, value: Bytes)

  function TypeCode(kind: ValueType): nat {
    if kind.Value? then 1 else 0
  }

  /** The 64-bit trailer of an encoded internal key. */
  function PackSequenceAndType(sequence: nat, kind: ValueType): nat {
    sequence * 256 + TypeCode(kind)
  }

  /** Inverse of the packing, as done when an internal key is parsed. */
  function UnpackTag(tag: nat): Option<(nat, ValueType)> {
    var code := tag % 256;
    if code == 0 then Some((tag / 256, Deletion))
    else if code == 1 then Some((tag / 256, Value))
    else None
  }

  /** The three-way comparison of two internal keys. */
  function Compare(a: Key, b: Key): int {
    if a.user < b.user then -1
    else if a.user > b.user then 1
    else
      var aTag, bTag := PackSequenceAndType(a.sequence, a.kind), PackSequenceAndType(b.sequence, b.kind);
      if aTag > bTag then -1 else if aTag < bTag then 1 else 0
  }

  /** The order on keys, without the packing. */
  predicate Less(a: Key, b: Key) {
    || a.user < b.user
    || (a.user == b.user && (a.sequence > b.sequence ||
                             (a.sequence == b.sequence && a.kind.Value? && b.kind.Deletion?)))
  }

  predicate LessEq(a: Key, b: Key) {
    a == b || Less(a, b)
  }

  /** A key that sorts before every entry of `user` visible at `sequence` and after every newer one. */
  function LookupKey(user: UserKey, sequence: nat): Key {
    Key(user, sequence, Value)
  }

  lemma {:induction false} TagRoundTrip(sequence: nat, kind: ValueType)
    ensures UnpackTag(PackSequenceAndType(sequence, kind)) == Some((sequence, kind))
  {
    assert (sequence * 256 + TypeCode(kind)) / 256 == sequence;
  }

  /** The packed comparison is the order `Less`, which is total; zero means equal keys. */
  lemma {:induction false} CompareIsTotalOrder(a: Key, b: Key)
    ensures Compare(a, b) < 0 <==> Less(a, b)
    ensures Compare(a, b) > 0 <==> Less(b, a)
    ensures Compare(a, b) == 0 <==> a == b
  {
    TagRoundTrip(a.sequence, a.kind);
    TagRoundTrip(b.sequence, b.kind);
  }

  /** A lookup key divides the entries of its user key exactly at the snapshot. */
  lemma LookupKeyDividesVersions(k: Key, user: UserKey, sequence: nat)
    ensures LessEq(LookupKey(user, sequence), k) <==> (k.user > user || (k.user == user && k.sequence <= sequence))
  {
  }

  /** Strictly increasing internal keys: what every memtable, block and table holds. */
  predicate Sorted(es: seq<Entry>) {
    forall i, j :: 0 <= i < j < |es| ==> Less(es[i].key, es[j].key)
  }

  lemma {:induction false} SortedConcat(xs: seq<Entry>, ys: seq<Entry>)
    requires Sorted(xs) && Sorted(ys)
    requires forall i, j :: 0 <= i < |xs| && 0 <= j < |ys| ==> Less(xs[i].key, ys[j].key)
    ensures Sorted(xs + ys)
  {
    var zs := xs + ys;
    forall i, j | 0 <= i < j < |zs| ensures Less(zs[i].key, zs[j].key) {
      if j < |xs| {
        assert zs[i] == xs[i] && zs[j] == xs[j];
      } else if i < |xs| {
        assert zs[i] == xs[i] && zs[j] == ys[j - |xs|];
      } else {
        assert zs[i] == ys[i - |xs|] && zs[j] == ys[j - |xs|];
      }
    }
  }
}
