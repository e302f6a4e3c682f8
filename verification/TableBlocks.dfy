/**
 The blocks of a table as bytes: internal keys order the encoded keys of a block, so the block that is
 written for some entries reads back as those entries and is searched as the table's cursor demands.
 */
module TableBlocks {
  import opened InternalKeys
  import opened Coding
  import opened Cursors
  import opened Blocks
  import opened Tables
  import Bytewise

  /** A byte string that no other one is a prefix of, in the same order. */
  function Escaped(u: Bytes): Bytes {
    if u == [] then [0] else [1, u[0]] + Escaped(u[1..])
  }

  lemma {:induction false} EscapedOrder(u: Bytes, w: Bytes, x: Bytes, y: Bytes)
    ensures Bytewise.LexLess(Escaped(u) + x, Escaped(w) + y) <==>
              Bytewise.LexLess(u, w) || (u == w && Bytewise.LexLess(x, y))
  {
    var a, b := Escaped(u) + x, Escaped(w) + y;
    if u == [] || w == [] {
      assert u == [] ==> a[1..] == x;
      assert w == [] ==> b[1..] == y;
    } else {
      EscapedOrder(u[1..], w[1..], x, y);
      assert a[1..][1..] == Escaped(u[1..]) + x && b[1..][1..] == Escaped(w[1..]) + y;
      assert a[1..][0] == u[0] && b[1..][0] == w[0];
      assert u == w <==> u[0] == w[0] && u[1..] == w[1..] by {
        assert u == [u[0]] + u[1..] && w == [w[0]] + w[1..];
      }
    }
  }

  function BigEndian(v: nat, width: nat): (s: Bytes)
    ensures |s| == width
  {
    if width == 0 then [] else BigEndian(v / 256, width - 1) + [v % 256]
  }

  lemma {:induction false} LastByteDecides(a: Bytes, b: Bytes, x: Byte, y: Byte)
    requires |a| == |b|
    ensures Bytewise.LexLess(a + [x], b + [y]) <==> Bytewise.LexLess(a, b) || (a == b && x < y)
  {
    if a != [] {
      LastByteDecides(a[1..], b[1..], x, y);
      assert (a + [x])[1..] == a[1..] + [x] && (b + [y])[1..] == b[1..] + [y];
      assert a == [a[0]] + a[1..] && b == [b[0]] + b[1..];
    }
  }

  lemma {:induction false} BigEndianOrder(v: nat, w: nat, width: nat)
    requires v < Pow256(width) && w < Pow256(width)
    ensures Bytewise.LexLess(BigEndian(v, width), BigEndian(w, width)) <==> v < w
    ensures BigEndian(v, width) == BigEndian(w, width) <==> v == w
  {
    if width > 0 {
      var a, b := BigEndian(v / 256, width - 1), BigEndian(w / 256, width - 1);
      BigEndianOrder(v / 256, w / 256, width - 1);
      LastByteDecides(a, b, v % 256, w % 256);
      assert (a + [v % 256])[..width - 1] == a && (b + [w % 256])[..width - 1] == b;
      assert BigEndian(v, width)[width - 1] == v % 256 && BigEndian(w, width)[width - 1] == w % 256;
    }
  }

  function TagOf(key: Bytes): (tag: nat) {
    if |key| < 8 then 0 else DecodeFixed(key[|key| - 8..])
  }

  /** The larger the tag, the earlier the key. */
  function Inverted(tag: nat): nat {
    if tag < WORD64 then WORD64 - 1 - tag else 0
  }

  /** The place of an encoded internal key in the order of a block. */
  function InternalOrder(key: Bytes): real {
    Bytewise.Rank(Escaped(ExtractUserKey(key)) + BigEndian(Inverted(TagOf(key)), 8))
  }

  predicate Fits(k: ByteKey) {
    k.sequence <= MAX_SEQUENCE
  }

  lemma EncodedParts(k: ByteKey)
    requires Fits(k)
    ensures ExtractUserKey(Encoded(k)) == k.user
            && TagOf(Encoded(k)) == PackSequenceAndType(k.sequence, k.kind) < WORD64
  {
    ExtractEncoded(k);
    Fixed64RoundTrip(PackSequenceAndType(k.sequence, k.kind));
    assert Encoded(k)[|Encoded(k)| - 8..] == Fixed64(PackSequenceAndType(k.sequence, k.kind));
  }

  /** The parts of an internal key, if its type is one that there is. */
  function ParseInternalKey(key: Bytes): Option<ByteKey> {
    if |key| < 8 then None
    else
      match UnpackTag(TagOf(key))
      case None => None
      case Some(tag) => Some(ByteKey(ExtractUserKey(key), tag.0, tag.1))
  }

  /** Parsing takes apart what was put together. */
  lemma {:induction false} ParsedEncoded(k: ByteKey)
    requires Fits(k)
    ensures ParseInternalKey(Encoded(k)) == Some(k)
  {
    EncodedParts(k);
    TagRoundTrip(k.sequence, k.kind);
  }

  /** The order of encoded keys is the order of internal keys. */
  lemma {:induction false} InternalOrderIs(a: ByteKey, b: ByteKey)
    requires Fits(a) && Fits(b)
    ensures InternalOrder(Encoded(a)) < InternalOrder(Encoded(b)) <==> Less(KeyOf(a), KeyOf(b))
  {
    EncodedParts(a);
    EncodedParts(b);
    var s, t := PackSequenceAndType(a.sequence, a.kind), PackSequenceAndType(b.sequence, b.kind);
    var x, y := BigEndian(Inverted(s), 8), BigEndian(Inverted(t), 8);
    Bytewise.RankPreservesOrder(Escaped(a.user) + x, Escaped(b.user) + y);
    EscapedOrder(a.user, b.user, x, y);
    EightBytes();
    BigEndianOrder(Inverted(s), Inverted(t), 8);
    Bytewise.RankPreservesOrder(a.user, b.user);
    CompareIsTotalOrder(KeyOf(a), KeyOf(b));
  }

  lemma EightBytes()
    ensures Pow256(8) == WORD64
  {
    assert Pow256(4) == 0x1_0000_0000;
    assert Pow256(6) == 0x1_0000_0000_0000;
  }

  function PairsOf(es: seq<ByteEntry>): (ps: seq<Pair>)
    ensures |ps| == |es| && forall i :: 0 <= i < |es| ==> ps[i] == Pair(Encoded(es[i].key), es[i].value)
  {
    seq(|es|, i requires 0 <= i < |es| => Pair(Encoded(es[i].key), es[i].value))
  }

  ghost predicate AllFit(es: seq<ByteEntry>) {
    forall i :: 0 <= i < |es| ==> Fits(es[i].key) && |es[i].key.user| + 8 + |es[i].value| < WORD32
  }

  lemma BlockIsAscending(es: seq<ByteEntry>)
    requires AllFit(es) && Sorted(Ranked(es))
    ensures Ascending(InternalOrder, PairsOf(es))
  {
    forall i, j | 0 <= i < j < |es| ensures InternalOrder(PairsOf(es)[i].key) < InternalOrder(PairsOf(es)[j].key) {
      assert Less(Ranked(es)[i].key, Ranked(es)[j].key);
      InternalOrderIs(es[i].key, es[j].key);
    }
  }

  /** A seek in the encoded block lands where the cursor over its entries does. */
  lemma {:induction false} SeeksAgree(es: seq<ByteEntry>, target: ByteKey)
    requires AllFit(es) && Sorted(Ranked(es)) && Fits(target)
    ensures SeekPair(InternalOrder, PairsOf(es), Encoded(target)) == SeekPosition(Ranked(es), KeyOf(target))
  {
    var p := SeekPair(InternalOrder, PairsOf(es), Encoded(target));
    if p > 0 {
      assert InternalOrder(PairsOf(es)[p - 1].key) < InternalOrder(Encoded(target));
      InternalOrderIs(es[p - 1].key, target);
    }
    if p < |es| {
      InternalOrderIs(es[p].key, target);
    }
    SeekPositionIsUnique(Ranked(es), KeyOf(target), p);
  }

  /** Writes the entries of a block. */
  method WriteBlock(es: seq<ByteEntry>, restartInterval: nat)
    returns (contents: Bytes, ghost buffer: Bytes, ghost restarts: seq<nat>, ghost layout: Layout)
    requires AllFit(es) && Sorted(Ranked(es)) && restartInterval >= 1
    ensures contents == BlockBytes(buffer, restarts) && Lies(buffer, restarts, layout)
    ensures layout.pairs == PairsOf(es)
  {
    var builder := new BlockBuilder(InternalOrder, restartInterval);
    BlockIsAscending(es);
    assert PairsOf(es)[..0] == [];
    for i := 0 to |es|
      invariant fresh(builder) && builder.Valid() && builder.order == InternalOrder
      invariant builder.layout.pairs == PairsOf(es)[..i]
    {
      assert i > 0 ==> PairsOf(es)[..i][i - 1] == PairsOf(es)[i - 1];
      assert PairsOf(es)[..i + 1] == PairsOf(es)[..i] + [PairsOf(es)[i]];
      builder.Add(Encoded(es[i].key), es[i].value);
    }
    assert PairsOf(es)[..|es|] == PairsOf(es);
    buffer, restarts, layout := builder.buffer, builder.restarts, builder.layout;
    contents := builder.Finish();
  }

  /** The block of some entries, as it was written. */
  ghost predicate IsBlock(contents: Bytes, buffer: Bytes, restarts: seq<nat>, layout: Layout, es: seq<ByteEntry>) {
    && contents == BlockBytes(buffer, restarts) && |contents| < WORD32
    && Lies(buffer, restarts, layout) && layout.pairs == PairsOf(es)
    && AllFit(es) && Sorted(Ranked(es))
  }

  /** A seek in the bytes of a block finds what the table's cursor finds in its entries. */
  method SeekInBlock(contents: Bytes, target: ByteKey,
                     ghost buffer: Bytes, ghost restarts: seq<nat>, ghost layout: Layout, ghost es: seq<ByteEntry>)
    returns (found: Option<ByteEntry>)
    requires IsBlock(contents, buffer, restarts, layout, es) && Fits(target)
    ensures var p := SeekPosition(Ranked(es), KeyOf(target));
            found == if p < |es| then Some(es[p]) else None
  {
    BlockIsAscending(es);
    SeeksAgree(es, target);
    OpenBlock(buffer, restarts);
    var iter := new BlockIter(InternalOrder, contents, Open(contents).value, buffer, restarts, layout);
    iter.Seek(Encoded(target));
    iter.IsValidHolds();
    if !iter.IsValid() {
      return None;
    }
    ParsedEncoded(es[iter.position].key);
    found := Some(ByteEntry(ParseInternalKey(iter.Key()).value, iter.Value()));
  }

  /** Reading the bytes of a block gives its entries back. */
  method ReadBlock(contents: Bytes, ghost buffer: Bytes, ghost restarts: seq<nat>, ghost layout: Layout,
                   ghost es: seq<ByteEntry>)
    returns (entries: seq<ByteEntry>)
    requires IsBlock(contents, buffer, restarts, layout, es)
    ensures entries == es
  {
    BlockIsAscending(es);
    var pairs := ReadAllPairs(InternalOrder, contents, buffer, restarts, layout);
    entries := [];
    for i := 0 to |pairs|
      invariant entries == es[..i]
    {
      ParsedEncoded(es[i].key);
      entries := entries + [ByteEntry(ParseInternalKey(pairs[i].key).value, pairs[i].value)];
    }
  }
}
