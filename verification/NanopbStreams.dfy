/**
 The encoder as it runs over output streams: a stream either writes into a buffer of limited size or only
 counts.  Submessages and packed arrays are encoded twice, once to learn their size.
 */
module NanopbStreams {
  import opened InternalKeys
  import opened Coding
  import opened Nanopb

  class OStream {
    /** A stream without a callback only counts. */
    const sizing: bool
    const maxSize: nat
    var out: Bytes
    var bytesWritten: nat

    constructor (sizing: bool, maxSize: nat)
      ensures this.sizing == sizing && this.maxSize == maxSize
      ensures Valid() && out == [] && bytesWritten == 0
    {
      this.sizing, this.maxSize := sizing, maxSize;
      out, bytesWritten := [], 0;
    }

    ghost predicate Valid()
      reads this
    {
      !sizing ==> bytesWritten <= maxSize
    }

    /** Whether this many bytes more can go to the stream. */
    predicate Fits(count: nat)
      reads this
    {
      sizing || bytesWritten + count <= maxSize
    }

    /** The stream after `enc` went to it; `ok` tells whether there was room. */
    twostate predicate Took(enc: Bytes, ok: bool)
      reads this
    {
      && Valid() && old(out) <= out
      && ok == old(Fits(|enc|))
      && (ok ==> bytesWritten == old(bytesWritten) + |enc| && (!sizing ==> out == old(out) + enc))
    }

    method Write(buf: Bytes) returns (ok: bool)
      requires Valid()
      modifies this
      ensures Took(buf, ok)
    {
      if |buf| > 0 && !sizing {
        if bytesWritten + |buf| > maxSize {
          // Stream full.
          return false;
        }
        out := out + buf;
      }
      bytesWritten := bytesWritten + |buf|;
      ok := true;
    }

    /** Counts bytes that were sized before. */
    method WriteCount(ghost enc: Bytes, count: nat) returns (ok: bool)
      requires Valid() && sizing && count == |enc|
      modifies this
      ensures Took(enc, ok)
    {
      bytesWritten := bytesWritten + count;
      ok := true;
    }

    method EncodeVarint(value: nat) returns (ok: bool)
      requires Valid() && value < WORD64
      modifies this
      ensures Took(Varint(value), ok)
    {
      if value <= 0x7f {
        ok := Write([value]);
        return;
      }
      var buffer := Coding.EncodeVarint64(value);
      ok := Write(buffer);
    }

    method EncodeTag(wireType: nat, tag: nat) returns (ok: bool)
      requires Valid() && wireType < 8 && tag < MAX_TAG
      modifies this
      ensures Took(Nanopb.EncodeTag(tag, wireType), ok)
    {
      ok := EncodeVarint(tag * 8 + wireType);
    }

    method EncodeString(b: Bytes) returns (ok: bool)
      requires Valid() && |b| < WORD64
      modifies this
      ensures Took(LengthPrefixed(b), ok)
    {
      ok := EncodeVarint(|b|);
      if !ok {
        return;
      }
      ok := Write(b);
    }

    /** Writes a string up to its terminator, or to the end of its storage. */
    method EncodeText(b: Bytes) returns (ok: bool)
      requires Valid() && |Text(b)| < WORD64
      modifies this
      ensures Took(LengthPrefixed(Text(b)), ok)
    {
      var size := 0;
      while size < |b| && b[size] != 0
        invariant size <= |Text(b)|
      {
        size := size + 1;
      }
      assert b[..size] == Text(b);
      ok := EncodeString(b[..size]);
    }

    /** Writes a value that is not a message. */
    method EncodeScalar(kind: Kind, v: Value) returns (ok: bool)
      requires Valid() && !kind.Submessage? && ValueOk(kind, v) && |EncodeValue(kind, v)| < WORD64
      modifies this
      ensures Took(EncodeValue(kind, v), ok)
    {
      match kind {
        case Bool => ok := EncodeVarint(if v.n != 0 then 1 else 0);
        case Signed(size) =>
          SignedWordRestores(v.n, size);
          ok := EncodeVarint(AsWord(v.n));
        case Unsigned(_) => ok := EncodeVarint(AsWord(v.n));
        case ZigZag(size) =>
          ZigZagRestores(v.n, size);
          ok := EncodeVarint(ZigZagged(v.n));
        case Fixed32Bits => ok := Write(Fixed32(AsWord(v.n)));
        case Fixed64Bits => ok := Write(Fixed64(AsWord(v.n)));
        case BytesOf(_) => ok := EncodeString(v.b);
        case StringOf(_) => ok := EncodeText(v.b);
        case FixedBytes(_) => ok := EncodeString(v.b);
      }
    }
  }

  lemma {:induction false} EncodeAllSplit(kind: Kind, vs: seq<Value>, i: nat)
    requires i < |vs|
    ensures EncodeAll(kind, vs[..i + 1]) == EncodeAll(kind, vs[..i]) + EncodeValue(kind, vs[i])
  {
    if i == 0 {
      assert vs[..1] == [vs[0]] && vs[..0] == [];
      assert vs[..1][1..] == [];
    } else {
      EncodeAllSplit(kind, vs[1..], i - 1);
      assert vs[..i + 1][1..] == vs[1..][..i] && vs[..i][1..] == vs[1..][..i - 1];
    }
  }

  lemma {:induction false} PrefixIsShorter(kind: Kind, vs: seq<Value>, i: nat)
    requires i <= |vs|
    ensures |EncodeAll(kind, vs[..i])| <= |EncodeAll(kind, vs)|
    decreases |vs| - i
  {
    if i == |vs| {
      assert vs[..i] == vs;
    } else {
      EncodeAllSplit(kind, vs, i);
      PrefixIsShorter(kind, vs, i + 1);
    }
  }

  lemma {:induction false} FixedArraySize(kind: Kind, vs: seq<Value>)
    requires kind.Fixed32Bits? || kind.Fixed64Bits?
    requires forall j :: 0 <= j < |vs| ==> ValueOk(kind, vs[j])
    ensures |EncodeAll(kind, vs)| == (if kind.Fixed32Bits? then 4 else 8) * |vs|
  {
    if vs != [] {
      FixedArraySize(kind, vs[1..]);
    }
  }

  /** The size of a packed array: known for fixed widths, counted on a sizing stream otherwise. */
  method PackedSize(kind: Kind, vs: seq<Value>) returns (size: nat)
    requires Packable(kind) && |EncodeAll(kind, vs)| < WORD64 && forall j :: 0 <= j < |vs| ==> ValueOk(kind, vs[j])
    ensures size == |EncodeAll(kind, vs)|
  {
    if kind.Fixed32Bits? {
      FixedArraySize(kind, vs);
      return 4 * |vs|;
    }
    if kind.Fixed64Bits? {
      FixedArraySize(kind, vs);
      return 8 * |vs|;
    }
    var sizestream := new OStream(true, 0);
    assert vs[..0] == [];
    for i := 0 to |vs|
      invariant fresh(sizestream) && sizestream.Valid() && sizestream.sizing
      invariant sizestream.bytesWritten == |EncodeAll(kind, vs[..i])|
    {
      EncodeAllSplit(kind, vs, i);
      PrefixIsShorter(kind, vs, i + 1);
      var ok := sizestream.EncodeScalar(kind, vs[i]);
    }
    assert vs[..|vs|] == vs;
    size := sizestream.bytesWritten;
  }

  lemma {:induction false} EncodeTaggedSplit(tag: nat, kind: Kind, vs: seq<Value>, i: nat)
    requires i < |vs|
    ensures EncodeTagged(tag, kind, vs[..i + 1]) ==
              EncodeTagged(tag, kind, vs[..i]) + (Nanopb.EncodeTag(tag, WireType(kind)) + EncodeValue(kind, vs[i]))
  {
    if i == 0 {
      assert vs[..1] == [vs[0]] && vs[..0] == [];
      assert vs[..1][1..] == [];
    } else {
      EncodeTaggedSplit(tag, kind, vs[1..], i - 1);
      assert vs[..i + 1][1..] == vs[1..][..i] && vs[..i][1..] == vs[1..][..i - 1];
    }
  }

  lemma {:induction false} TaggedPrefixIsShorter(tag: nat, kind: Kind, vs: seq<Value>, i: nat)
    requires i <= |vs|
    ensures |EncodeTagged(tag, kind, vs[..i])| <= |EncodeTagged(tag, kind, vs)|
    decreases |vs| - i
  {
    if i == |vs| {
      assert vs[..i] == vs;
    } else {
      EncodeTaggedSplit(tag, kind, vs, i);
      TaggedPrefixIsShorter(tag, kind, vs, i + 1);
    }
  }

  /** Writes the values of a packed array one after the other. */
  method EncodeItems(stream: OStream, kind: Kind, vs: seq<Value>) returns (ok: bool)
    requires stream.Valid() && Packable(kind) && |EncodeAll(kind, vs)| < WORD64
    requires forall j :: 0 <= j < |vs| ==> ValueOk(kind, vs[j])
    modifies stream
    ensures stream.Took(EncodeAll(kind, vs), ok)
  {
    ghost var done: Bytes := [];
    assert vs[..0] == [];
    for i := 0 to |vs|
      invariant stream.Valid() && old(stream.out) <= stream.out
      invariant done == EncodeAll(kind, vs[..i])
      invariant stream.bytesWritten == old(stream.bytesWritten) + |done|
      invariant !stream.sizing ==> stream.out == old(stream.out) + done
    {
      ghost var enc := EncodeValue(kind, vs[i]);
      EncodeAllSplit(kind, vs, i);
      PrefixIsShorter(kind, vs, i + 1);
      Associates(old(stream.out), done, enc);
      ok := stream.EncodeScalar(kind, vs[i]);
      if !ok {
        return;
      }
      done := done + enc;
    }
    assert vs[..|vs|] == vs;
    ok := true;
  }

  method EncodePacked(stream: OStream, tag: nat, kind: Kind, vs: seq<Value>) returns (ok: bool)
    requires stream.Valid() && Packable(kind) && tag < MAX_TAG && |EncodeAll(kind, vs)| < WORD64
    requires forall j :: 0 <= j < |vs| ==> ValueOk(kind, vs[j])
    modifies stream
    ensures stream.Took(Nanopb.EncodeTag(tag, WT_STRING) + LengthPrefixed(EncodeAll(kind, vs)), ok)
  {
    ghost var head, body := Nanopb.EncodeTag(tag, WT_STRING), EncodeAll(kind, vs);
    Associates(head, Varint(|body|), body);
    Associates(old(stream.out), head, Varint(|body|));
    Associates(old(stream.out), head + Varint(|body|), body);
    ok := stream.EncodeTag(WT_STRING, tag);
    if !ok {
      return;
    }
    var size := PackedSize(kind, vs);
    ok := stream.EncodeVarint(size);
    if !ok {
      return;
    }
    if stream.sizing {
      // Just sizing.
      ok := stream.WriteCount(EncodeAll(kind, vs), size);
      return;
    }
    ok := EncodeItems(stream, kind, vs);
  }

  /** The fields of a message in order. */
  method EncodeMessage(stream: OStream, m: Kind, slots: seq<Slot>) returns (ok: bool)
    requires stream.Valid() && m.Submessage? && ValueOk(m, Message(slots)) && |EncodeSlots(m, slots, 0)| < WORD64
    modifies stream
    ensures stream.Took(EncodeSlots(m, slots, 0), ok)
    decreases m, 2
  {
    ghost var done: Bytes := [];
    assert [] + EncodeSlots(m, slots, 0) == EncodeSlots(m, slots, 0);
    for i := 0 to |m.fields|
      invariant stream.Valid() && old(stream.out) <= stream.out
      invariant done + EncodeSlots(m, slots, i) == EncodeSlots(m, slots, 0)
      invariant stream.bytesWritten == old(stream.bytesWritten) + |done|
      invariant !stream.sizing ==> stream.out == old(stream.out) + done
    {
      var f := m.fields[i];
      SlotsOkAt(m, slots, 0, i);
      ghost var enc := EncodeSlot(f.tag, f.kind, f.rule, slots[i]);
      Associates(done, enc, EncodeSlots(m, slots, i + 1));
      Associates(old(stream.out), done, enc);
      ok := EncodeField(stream, f, slots[i]);
      if !ok {
        return;
      }
      done := done + enc;
    }
    ok := true;
  }

  /** One field, according to its rule. */
  method EncodeField(stream: OStream, f: Field, slot: Slot) returns (ok: bool)
    requires stream.Valid() && f.tag < MAX_TAG && SlotOk(f.kind, f.rule, f.default, slot)
    requires |EncodeSlot(f.tag, f.kind, f.rule, slot)| < WORD64
    modifies stream
    ensures stream.Took(EncodeSlot(f.tag, f.kind, f.rule, slot), ok)
    decreases f.kind, 5
  {
    match f.rule {
      case Required => ok := EncodeTagAndValue(stream, f, slot.v);
      case Optional =>
        if slot.has {
          ok := EncodeTagAndValue(stream, f, slot.v);
        } else {
          ok := true;
        }
      case Implicit =>
        if !IsZero(f.kind, slot.v) {
          ok := EncodeTagAndValue(stream, f, slot.v);
        } else {
          ok := true;
        }
      case Oneof(_) =>
        if slot.chosen.Some? {
          ok := EncodeTagAndValue(stream, f, slot.chosen.value);
        } else {
          ok := true;
        }
      case Repeated(_) => ok := EncodeArray(stream, f, slot.vs);
    }
  }

  method EncodeTagAndValue(stream: OStream, f: Field, v: Value) returns (ok: bool)
    requires stream.Valid() && f.tag < MAX_TAG && ValueOk(f.kind, v) && |EncodeValue(f.kind, v)| < WORD64
    modifies stream
    ensures stream.Took(Nanopb.EncodeTag(f.tag, WireType(f.kind)) + EncodeValue(f.kind, v), ok)
    decreases f.kind, 3, 2
  {
    ok := stream.EncodeTag(WireType(f.kind), f.tag);
    if !ok {
      return;
    }
    ghost var tag := Nanopb.EncodeTag(f.tag, WireType(f.kind));
    Associates(old(stream.out), tag, EncodeValue(f.kind, v));
    ok := EncodeOne(stream, f.kind, v);
  }

  method EncodeOne(stream: OStream, kind: Kind, v: Value) returns (ok: bool)
    requires stream.Valid() && ValueOk(kind, v) && |EncodeValue(kind, v)| < WORD64
    modifies stream
    ensures stream.Took(EncodeValue(kind, v), ok)
    decreases kind, 3, 1
  {
    if kind.Submessage? {
      ok := EncodeSubmessage(stream, kind, v.slots);
    } else {
      ok := stream.EncodeScalar(kind, v);
    }
  }

  /** A repeated field, packed if its type allows. */
  method EncodeArray(stream: OStream, f: Field, vs: seq<Value>) returns (ok: bool)
    requires stream.Valid() && f.tag < MAX_TAG && forall j :: 0 <= j < |vs| ==> ValueOk(f.kind, vs[j])
    requires |EncodeSlot(f.tag, f.kind, Repeated(0), Many(vs))| < WORD64
    modifies stream
    ensures stream.Took(EncodeSlot(f.tag, f.kind, Repeated(0), Many(vs)), ok)
    decreases f.kind, 4, 1
  {
    if |vs| == 0 {
      return true;
    }
    if Packable(f.kind) {
      ok := EncodePacked(stream, f.tag, f.kind, vs);
      return;
    }
    ok := EncodeUnpacked(stream, f, vs);
  }

  /** A tag before every value. */
  method EncodeUnpacked(stream: OStream, f: Field, vs: seq<Value>) returns (ok: bool)
    requires stream.Valid() && f.tag < MAX_TAG && forall j :: 0 <= j < |vs| ==> ValueOk(f.kind, vs[j])
    requires |EncodeTagged(f.tag, f.kind, vs)| < WORD64
    modifies stream
    ensures stream.Took(EncodeTagged(f.tag, f.kind, vs), ok)
    decreases f.kind, 4, 0
  {
    ghost var done: Bytes := [];
    assert vs[..0] == [];
    for i := 0 to |vs|
      invariant stream.Valid() && old(stream.out) <= stream.out
      invariant done == EncodeTagged(f.tag, f.kind, vs[..i])
      invariant stream.bytesWritten == old(stream.bytesWritten) + |done|
      invariant !stream.sizing ==> stream.out == old(stream.out) + done
    {
      ghost var enc := Nanopb.EncodeTag(f.tag, WireType(f.kind)) + EncodeValue(f.kind, vs[i]);
      EncodeTaggedSplit(f.tag, f.kind, vs, i);
      TaggedPrefixIsShorter(f.tag, f.kind, vs, i + 1);
      Associates(old(stream.out), done, enc);
      ok := EncodeTagAndValue(stream, f, vs[i]);
      if !ok {
        return;
      }
      done := done + enc;
    }
    assert vs[..|vs|] == vs;
    ok := true;
  }

  /**
     A submessage: a sizing pass, its length, and a second pass on a stream that is limited to exactly that
     length.  The second pass writes as many bytes as the first one counted.
   */
  method EncodeSubmessage(stream: OStream, m: Kind, slots: seq<Slot>) returns (ok: bool)
    requires stream.Valid() && m.Submessage? && ValueOk(m, Message(slots)) && |EncodeValue(m, Message(slots))| < WORD64
    modifies stream
    ensures stream.Took(EncodeValue(m, Message(slots)), ok)
    decreases m, 3, 0
  {
    var substream := new OStream(true, 0);
    var sized := EncodeMessage(substream, m, slots);
    assert sized;
    var size := substream.bytesWritten;
    ok := stream.EncodeVarint(size);
    if !ok {
      return;
    }
    if stream.sizing {
      ok := stream.WriteCount(EncodeSlots(m, slots, 0), size);
      return;
    }
    if stream.bytesWritten + size > stream.maxSize {
      // Stream full.
      return false;
    }
    var writing := new OStream(false, size);
    ok := EncodeMessage(writing, m, slots);
    stream.out := stream.out + writing.out;
    stream.bytesWritten := stream.bytesWritten + writing.bytesWritten;
    if writing.bytesWritten != size {
      // The submessage never changes its size between the passes.
      assert false;
    }
  }

  /** The size of the encoding, without writing it. */
  method GetEncodedSize(m: Kind, slots: seq<Slot>) returns (size: nat)
    requires m.Submessage? && ValueOk(m, Message(slots)) && |EncodeSlots(m, slots, 0)| < WORD64
    ensures size == |EncodeSlots(m, slots, 0)|
  {
    var stream := new OStream(true, 0);
    var ok := EncodeMessage(stream, m, slots);
    size := stream.bytesWritten;
  }

  /** A buffer holds the message exactly when it is large enough, and decoding it restores the message. */
  method EncodeToBuffer(m: Kind, slots: seq<Slot>, bufsize: nat) returns (ok: bool, buffer: Bytes)
    requires m.Submessage? && ValueOk(m, Message(slots)) && |EncodeSlots(m, slots, 0)| < WORD32
    ensures ok <==> |EncodeSlots(m, slots, 0)| <= bufsize
    ensures ok ==> Decode(m, buffer) == Some(RestoredSlots(m, slots, 0))
  {
    var stream := new OStream(false, bufsize);
    ok := EncodeMessage(stream, m, slots);
    buffer := stream.out;
    assert [] + EncodeSlots(m, slots, 0) == EncodeSlots(m, slots, 0);
    MessageRoundTrip(m, slots);
  }
}
