/**
 Protocol buffer messages with static descriptors: what the encoder writes and what the decoder does with
 any bytes.  A message is a slot for each field of its descriptor.
 */
module Nanopb {
  import opened InternalKeys
  import opened Coding

  /** The storage type of a field; sizes are in bytes. */
  datatype Kind =
    | Bool
    | Signed(size: nat)
    | Unsigned(size: nat)
    | ZigZag(size: nat)
    | Fixed32Bits
    | Fixed64Bits
    | BytesOf(max: nat)
    | StringOf(dataSize: nat)
    | FixedBytes(length: nat)
    | Submessage(fields: seq<Field>)

  /** Optional fields have a flag, implicit ones are present when they are not zero. */
  datatype Rule = Required | Optional | Implicit | Repeated(max: nat) | Oneof(group: nat)

  datatype Field = Field(tag: nat, kind: Kind, rule: Rule, default: Value)

  datatype Value = Number(n: int) | Blob(b: Bytes) | Message(slots: seq<Slot>)

  datatype Slot = One(v: Value) | Maybe(has: bool, v: Value) | Many(vs: seq<Value>) | Choice(chosen: Option<Value>)

  const WT_VARINT: nat := 0

  const WT_64BIT: nat := 1

  const WT_STRING: nat := 2

  const WT_32BIT: nat := 5

  const MAX_TAG: nat := 0x2000_0000

  const MAX_REQUIRED_FIELDS: nat := 64

  function WireType(kind: Kind): (wt: nat)
    ensures wt < 8
  {
    match kind
    case Bool => WT_VARINT
    case Signed(_) => WT_VARINT
    case Unsigned(_) => WT_VARINT
    case ZigZag(_) => WT_VARINT
    case Fixed32Bits => WT_32BIT
    case Fixed64Bits => WT_64BIT
    case BytesOf(_) => WT_STRING
    case StringOf(_) => WT_STRING
    case FixedBytes(_) => WT_STRING
    case Submessage(_) => WT_STRING
  }

  predicate Packable(kind: Kind) {
    kind.Bool? || kind.Signed? || kind.Unsigned? || kind.ZigZag? || kind.Fixed32Bits? || kind.Fixed64Bits?
  }

  /** Half the number of values of an integer of this many bytes. */
  function Half(size: nat): nat {
    if size == 1 then 0x80 else if size == 2 then 0x8000 else if size == 4 then 0x8000_0000 else 0x8000_0000_0000_0000
  }

  predicate IsSize(size: nat) {
    size == 1 || size == 2 || size == 4 || size == 8
  }

  /** A signed value as an unsigned word of 64 bits. */
  function AsWord(n: int): nat {
    if n >= 0 then n else if n + WORD64 >= 0 then n + WORD64 else 0
  }

  function ZigZagged(n: int): nat {
    if n >= 0 then 2 * n else -2 * n - 1
  }

  function EncodeTag(tag: nat, wireType: nat): Bytes {
    Varint(tag * 8 + wireType)
  }

  /** The text of a string field: its storage up to the first zero byte, or all of it. */
  function Text(b: Bytes): (t: Bytes)
    ensures |t| <= |b| && t == b[..|t|] && 0 !in t
    ensures |t| < |b| ==> b[|t|] == 0
  {
    if b == [] || b[0] == 0 then [] else [b[0]] + Text(b[1..])
  }

  function EncodeValue(kind: Kind, v: Value): Bytes
    decreases kind, 2
  {
    match (kind, v)
    case (Bool, Number(n)) => Varint(if n != 0 then 1 else 0)
    case (Signed(_), Number(n)) => Varint(AsWord(n))
    case (Unsigned(_), Number(n)) => Varint(AsWord(n))
    case (ZigZag(_), Number(n)) => Varint(ZigZagged(n))
    case (Fixed32Bits, Number(n)) => Fixed32(AsWord(n))
    case (Fixed64Bits, Number(n)) => Fixed64(AsWord(n))
    case (BytesOf(_), Blob(b)) => LengthPrefixed(b)
    case (StringOf(_), Blob(b)) => LengthPrefixed(Text(b))
    case (FixedBytes(_), Blob(b)) => LengthPrefixed(b)
    case (Submessage(_), Message(slots)) => LengthPrefixed(EncodeSlots(kind, slots, 0))
    case _ => []
  }

  function EncodeAll(kind: Kind, vs: seq<Value>): Bytes
    decreases kind, 3, |vs|
  {
    if vs == [] then [] else EncodeValue(kind, vs[0]) + EncodeAll(kind, vs[1..])
  }

  function EncodeTagged(tag: nat, kind: Kind, vs: seq<Value>): Bytes
    decreases kind, 3, |vs|
  {
    if vs == [] then []
    else (EncodeTag(tag, WireType(kind)) + EncodeValue(kind, vs[0])) + EncodeTagged(tag, kind, vs[1..])
  }

  function EncodeSlot(tag: nat, kind: Kind, rule: Rule, slot: Slot): Bytes
    decreases kind, 4
  {
    match (rule, slot)
    case (Required, One(v)) => EncodeTag(tag, WireType(kind)) + EncodeValue(kind, v)
    case (Optional, Maybe(has, v)) => if has then EncodeTag(tag, WireType(kind)) + EncodeValue(kind, v) else []
    case (Implicit, One(v)) => if IsZero(kind, v) then [] else EncodeTag(tag, WireType(kind)) + EncodeValue(kind, v)
    case (Oneof(_), Choice(Some(v))) => EncodeTag(tag, WireType(kind)) + EncodeValue(kind, v)
    case (Repeated(_), Many(vs)) =>
      if vs == [] then []
      else if Packable(kind) then EncodeTag(tag, WT_STRING) + LengthPrefixed(EncodeAll(kind, vs))
      else EncodeTagged(tag, kind, vs)
    case _ => []
  }

  /** The fields of a message from the `i`th on. */
  function EncodeSlots(m: Kind, slots: seq<Slot>, i: nat): Bytes
    requires m.Submessage?
    decreases m, 1, if i < |m.fields| then |m.fields| - i else 0
  {
    if i >= |m.fields| || i >= |slots| then []
    else
      var f := m.fields[i];
      EncodeSlot(f.tag, f.kind, f.rule, slots[i]) + EncodeSlots(m, slots, i + 1)
  }

  /** Whether an implicit field is taken to be absent. */
  predicate IsZero(kind: Kind, v: Value)
    decreases kind, 1, 0
  {
    match (kind, v)
    case (_, Number(n)) => n == 0
    case (FixedBytes(length), Blob(b)) => length == 0
    case (StringOf(_), Blob(b)) => Text(b) == []
    case (_, Blob(b)) => b == []
    case (Submessage(fields), Message(slots)) => AllAbsent(kind, slots, 0)
    case _ => true
  }

  predicate AllAbsent(m: Kind, slots: seq<Slot>, i: nat)
    requires m.Submessage?
    decreases m, 0, if i < |m.fields| then |m.fields| - i else 0
  {
    if i >= |m.fields| || i >= |slots| then true
    else IsAbsent(m.fields[i].kind, m.fields[i].rule, slots[i]) && AllAbsent(m, slots, i + 1)
  }

  predicate IsAbsent(kind: Kind, rule: Rule, slot: Slot)
    decreases kind, 2, 0
  {
    match (rule, slot)
    case (Required, _) => false
    case (Optional, Maybe(has, _)) => !has
    case (Repeated(_), Many(vs)) => vs == []
    case (Oneof(_), Choice(chosen)) => chosen.None?
    case (Implicit, One(v)) => IsZero(kind, v)
    case _ => true
  }

  /** The rest of the bytes that are left after something was decoded. */
  datatype Result<+T> = Done(value: T, rest: Bytes) | Fail

  /** The second and later bytes of a 32-bit varint, where overlong forms and sign extension are accepted. */
  function MoreVarint32(s: Bytes, bitpos: nat, result: nat): (r: Result<nat>)
    ensures r.Done? ==> |r.rest| < |s|
    decreases |s|
  {
    if s == [] then Fail
    else
      var byte := s[0];
      if bitpos >= 32 && byte % 128 != 0 && (result / 0x8000_0000 % 2 == 0
          || byte != (if bitpos < 63 then 255 else 1)) then Fail
      else
        var next := if bitpos >= 32 then result else Low32(result + ShiftLeft(byte % 128, bitpos / 7));
        if byte >= 128 then MoreVarint32(s[1..], bitpos + 7, next)
        else if bitpos == 28 && byte / 16 % 8 != 0 then Fail
        else Done(next, s[1..])
  }

  function DecodeVarint32(s: Bytes): (r: Result<nat>)
    ensures r.Done? ==> |r.rest| < |s|
  {
    if s == [] then Fail
    else if s[0] < 128 then Done(s[0], s[1..])
    else MoreVarint32(s[1..], 7, s[0] % 128)
  }

  function DecodeVarint64(s: Bytes): (r: Result<nat>)
    ensures r.Done? ==> |r.rest| < |s|
  {
    match Coding.GetVarint64(s)
    case Some(d) => Done(d.value, s[d.used..])
    case None => Fail
  }

  /** A 64-bit word read as a signed integer of 64 bits, or as one of 32 bits. */
  function SignedWord(w: nat, size: nat): int {
    if size == 8 then if w < 0x8000_0000_0000_0000 then w else w - WORD64
    else
      var low := Low32(w);
      if low < 0x8000_0000 then low else low - WORD32
  }

  predicate InRange(n: int, size: nat) {
    0 <= Half(size) + n && n < Half(size)
  }

  function Unzigzag(w: nat): int {
    if w % 2 == 1 then -(w / 2) - 1 else w / 2
  }

  function Read(s: Bytes, count: nat): (r: Result<Bytes>)
    ensures r.Done? ==> |r.value| == count && |r.rest| + count == |s|
  {
    if |s| < count then Fail else Done(s[..count], s[count..])
  }

  /** What the decoder starts from. */
  function DefaultSlots(m: Kind, i: nat): (slots: seq<Slot>)
    requires m.Submessage?
    ensures i <= |m.fields| ==> |slots| == |m.fields| - i
    decreases m, 1, if i < |m.fields| then |m.fields| - i else 0
  {
    if i >= |m.fields| then []
    else
      var f := m.fields[i];
      [DefaultSlot(f.kind, f.rule, f.default)] + DefaultSlots(m, i + 1)
  }

  function DefaultSlot(kind: Kind, rule: Rule, default: Value): Slot
    decreases kind, 2, 0
  {
    match rule
    case Required => One(DefaultValue(kind, default))
    case Optional => Maybe(false, DefaultValue(kind, default))
    case Implicit => One(DefaultValue(kind, default))
    case Repeated(_) => Many([])
    case Oneof(_) => Choice(None)
  }

  function DefaultValue(kind: Kind, default: Value): Value
    decreases kind, 1, |(if kind.Submessage? then kind.fields else [])| + 1
  {
    if kind.Submessage? then Message(DefaultSlots(kind, 0)) else default
  }

  /** The first field with a tag. */
  function Find(fields: seq<Field>, tag: nat, from: nat): (r: Option<nat>)
    ensures r.Some? ==> from <= r.value < |fields| && fields[r.value].tag == tag
    decreases if from < |fields| then |fields| - from else 0
  {
    if from >= |fields| then None
    else if fields[from].tag == tag then Some(from)
    else Find(fields, tag, from + 1)
  }

  function SkipVarint(s: Bytes): (r: Result<Bytes>)
    ensures r.Done? ==> |r.rest| < |s|
  {
    if s == [] then Fail
    else if s[0] >= 128 then SkipVarint(s[1..])
    else Done([], s[1..])
  }

  function SkipField(s: Bytes, wireType: nat): (r: Result<Bytes>)
    ensures r.Done? ==> |r.rest| <= |s|
  {
    if wireType == WT_VARINT then SkipVarint(s)
    else if wireType == WT_64BIT then Read(s, 8)
    else if wireType == WT_32BIT then Read(s, 4)
    else if wireType == WT_STRING then
      match DecodeVarint32(s)
      case Fail => Fail
      case Done(length, rest) => Read(rest, length)
    else Fail
  }

  /** The bytes that a length announces, and what follows them. */
  function Substream(s: Bytes): (r: Result<Bytes>)
    ensures r.Done? ==> |r.value| + |r.rest| < |s|
  {
    match DecodeVarint32(s)
    case Fail => Fail
    case Done(length, rest) => Read(rest, length)
  }

  /** Decodes a value over `was`, which matters for submessages only. */
  function DecodeValue(kind: Kind, was: Value, s: Bytes): (r: Result<Value>)
    ensures r.Done? ==> |r.rest| < |s|
    decreases |s|, 0
  {
    match kind
    case Bool =>
      (match DecodeVarint32(s)
       case Fail => Fail
       case Done(w, rest) => Done(Number(if w != 0 then 1 else 0), rest))
    case Signed(size) =>
      (match DecodeVarint64(s)
       case Fail => Fail
       case Done(w, rest) =>
         var n := SignedWord(w, size);
         if IsSize(size) && InRange(n, size) then Done(Number(n), rest) else Fail)
    case Unsigned(size) =>
      (match DecodeVarint64(s)
       case Fail => Fail
       case Done(w, rest) => if IsSize(size) && w < 2 * Half(size) then Done(Number(w), rest) else Fail)
    case ZigZag(size) =>
      (match DecodeVarint64(s)
       case Fail => Fail
       case Done(w, rest) =>
         var n := Unzigzag(w);
         if IsSize(size) && InRange(n, size) then Done(Number(n), rest) else Fail)
    case Fixed32Bits =>
      (match Read(s, 4)
       case Fail => Fail
       case Done(b, rest) => Done(Number(DecodeFixed(b)), rest))
    case Fixed64Bits =>
      (match Read(s, 8)
       case Fail => Fail
       case Done(b, rest) => Done(Number(DecodeFixed(b)), rest))
    case BytesOf(max) =>
      (match DecodeVarint32(s)
       case Fail => Fail
       case Done(size, rest) => if size > max then Fail else BlobOf(Read(rest, size)))
    case StringOf(dataSize) =>
      // One byte of the storage is for the terminator.
      (match DecodeVarint32(s)
       case Fail => Fail
       case Done(size, rest) => if size + 1 > dataSize then Fail else BlobOf(Read(rest, size)))
    case FixedBytes(length) =>
      (match DecodeVarint32(s)
       case Fail => Fail
       case Done(size, rest) =>
         if size == 0 then Done(Blob(Zeros(length)), rest)
         else if size != length then Fail
         else BlobOf(Read(rest, size)))
    case Submessage(fields) =>
      (match Substream(s)
       case Fail => Fail
       case Done(sub, rest) =>
         var slots := if was.Message? && |was.slots| == |fields| then was.slots else DefaultSlots(kind, 0);
         match DecodeLoop(fields, slots, {}, sub)
         case None => Fail
         case Some(decoded) => Done(Message(decoded), rest))
  }

  function BlobOf(r: Result<Bytes>): (v: Result<Value>)
    ensures v.Done? ==> r.Done? && v.rest == r.rest
  {
    match r
    case Fail => Fail
    case Done(b, rest) => Done(Blob(b), rest)
  }

  /** A packed array: values until the substream ends or the array is full. */
  function DecodePacked(kind: Kind, max: nat, vs: seq<Value>, s: Bytes): Option<seq<Value>>
    decreases |s|, 1
  {
    if s == [] then Some(vs)
    else if |vs| >= max then None
    else
      match DecodeValue(kind, Number(0), s)
      case Fail => None
      case Done(v, rest) => DecodePacked(kind, max, vs + [v], rest)
  }

  /** Decodes one occurrence of a field into its slot. */
  function DecodeField(f: Field, slot: Slot, wireType: nat, s: Bytes): (r: Result<Slot>)
    ensures r.Done? ==> |r.rest| < |s|
    decreases |s|, 2
  {
    match f.rule
    case Required =>
      (match DecodeValue(f.kind, if slot.One? then slot.v else f.default, s)
       case Fail => Fail
       case Done(v, rest) => Done(One(v), rest))
    case Implicit =>
      (match DecodeValue(f.kind, if slot.One? then slot.v else f.default, s)
       case Fail => Fail
       case Done(v, rest) => Done(One(v), rest))
    case Optional =>
      (match DecodeValue(f.kind, if slot.Maybe? then slot.v else f.default, s)
       case Fail => Fail
       case Done(v, rest) => Done(Maybe(true, v), rest))
    case Oneof(_) =>
      (match DecodeValue(f.kind, DefaultValue(f.kind, f.default), s)
       case Fail => Fail
       case Done(v, rest) => Done(Choice(Some(v)), rest))
    case Repeated(max) =>
      var vs := if slot.Many? then slot.vs else [];
      if wireType == WT_STRING && Packable(f.kind) then
        match Substream(s)
        case Fail => Fail
        case Done(sub, rest) =>
          (match DecodePacked(f.kind, max, vs, sub)
           case None => Fail
           case Some(all) => Done(Many(all), rest))
      else if |vs| >= max then Fail
      else
        match DecodeValue(f.kind, DefaultValue(f.kind, f.default), s)
        case Fail => Fail
        case Done(v, rest) => Done(Many(vs + [v]), rest)
  }

  /** Choosing one member of a union discards the others. */
  function WithSlot(fields: seq<Field>, slots: seq<Slot>, i: nat, slot: Slot): (r: seq<Slot>)
    requires i < |fields| == |slots|
    ensures |r| == |slots|
  {
    seq(|slots|, j requires 0 <= j < |slots| =>
      if j == i then slot
      else if fields[i].rule.Oneof? && fields[j].rule == fields[i].rule then Choice(None)
      else slots[j])
  }

  function RequiredBefore(fields: seq<Field>, i: nat): nat
    requires i <= |fields|
  {
    if i == 0 then 0 else RequiredBefore(fields, i - 1) + if fields[i - 1].rule.Required? then 1 else 0
  }

  /** The required fields that are tracked: the first 64. */
  function Tracked(fields: seq<Field>): set<nat> {
    set i: nat | i < |fields| && fields[i].rule.Required? && RequiredBefore(fields, i) < MAX_REQUIRED_FIELDS
  }

  /** Decodes fields until the bytes end or a zero tag stops the message; then the required ones must have been seen. */
  function DecodeLoop(fields: seq<Field>, slots: seq<Slot>, seen: set<nat>, s: Bytes): (r: Option<seq<Slot>>)
    requires |slots| == |fields|
    ensures r.Some? ==> |r.value| == |fields|
    decreases |s|, 3
  {
    if s == [] then Finish(fields, slots, seen)
    else
      match DecodeVarint32(s)
      case Fail => None
      case Done(key, rest) =>
        if key == 0 then Finish(fields, slots, seen)
        else
          match Find(fields, key / 8, 0)
          case None =>
            (match SkipField(rest, key % 8)
             case Fail => None
             case Done(_, after) => DecodeLoop(fields, slots, seen, after))
          case Some(i) =>
            (match DecodeField(fields[i], slots[i], key % 8, rest)
             case Fail => None
             case Done(slot, after) => DecodeLoop(fields, WithSlot(fields, slots, i, slot), seen + {i}, after))
  }

  function Finish(fields: seq<Field>, slots: seq<Slot>, seen: set<nat>): (r: Option<seq<Slot>>)
    ensures r.Some? ==> r.value == slots
  {
    if Tracked(fields) <= seen then Some(slots) else None
  }

  /** Decodes a message over defaults. */
  function Decode(m: Kind, s: Bytes): Option<seq<Slot>>
    requires m.Submessage?
  {
    DecodeLoop(m.fields, DefaultSlots(m, 0), {}, s)
  }

  predicate ValueOk(kind: Kind, v: Value)
    decreases kind, 1
  {
    match (kind, v)
    case (Bool, Number(n)) => n == 0 || n == 1
    case (Signed(size), Number(n)) => IsSize(size) && InRange(n, size)
    case (Unsigned(size), Number(n)) => IsSize(size) && 0 <= n < 2 * Half(size)
    case (ZigZag(size), Number(n)) => IsSize(size) && InRange(n, size)
    case (Fixed32Bits, Number(n)) => 0 <= n < WORD32
    case (Fixed64Bits, Number(n)) => 0 <= n < WORD64
    case (BytesOf(max), Blob(b)) => |b| <= max
    case (StringOf(dataSize), Blob(b)) => |b| <= dataSize && |Text(b)| < dataSize
    case (FixedBytes(length), Blob(b)) => |b| == length
    case (Submessage(fields), Message(slots)) => |slots| == |fields| && SlotsOk(kind, slots, 0)
    case _ => false
  }

  predicate SlotsOk(m: Kind, slots: seq<Slot>, i: nat)
    requires m.Submessage?
    decreases m, 0, if i < |m.fields| then |m.fields| - i else 0
  {
    i >= |m.fields| || i >= |slots|
    || (FieldOk(m.fields, i) && OneofOk(m.fields, slots, i)
          && SlotOk(m.fields[i].kind, m.fields[i].rule, m.fields[i].default, slots[i]) && SlotsOk(m, slots, i + 1))
  }

  /** Tags are different, and none is zero. */
  predicate FieldOk(fields: seq<Field>, i: nat)
    requires i < |fields|
  {
    0 < fields[i].tag < MAX_TAG && forall j :: 0 <= j < i ==> fields[j].tag != fields[i].tag
  }

  /** At most one member of a union is chosen. */
  predicate OneofOk(fields: seq<Field>, slots: seq<Slot>, i: nat)
    requires i < |fields| && i < |slots|
  {
    fields[i].rule.Oneof? && IsChosen(slots[i]) ==>
      forall j :: 0 <= j < i && fields[j].rule == fields[i].rule ==> !IsChosen(slots[j])
  }

  predicate IsChosen(slot: Slot) {
    slot.Choice? && slot.chosen.Some?
  }

  predicate SlotOk(kind: Kind, rule: Rule, default: Value, slot: Slot)
    decreases kind, 2
  {
    match (rule, slot)
    case (Required, One(v)) => ValueOk(kind, v)
    case (Optional, Maybe(has, v)) => has ==> ValueOk(kind, v)
    case (Implicit, One(v)) => ValueOk(kind, v)
    case (Repeated(max), Many(vs)) => |vs| <= max && forall j :: 0 <= j < |vs| ==> ValueOk(kind, vs[j])
    case (Oneof(_), Choice(chosen)) => chosen.Some? ==> ValueOk(kind, chosen.value)
    case _ => false
  }

  /** What is restored: every present field, strings up to their terminator, and the default of every absent one. */
  function RestoredValue(kind: Kind, v: Value): Value
    decreases kind, 1
  {
    if kind.Submessage? && v.Message? then Message(RestoredSlots(kind, v.slots, 0))
    else if kind.StringOf? && v.Blob? then Blob(Text(v.b))
    else v
  }

  function RestoredSlots(m: Kind, slots: seq<Slot>, i: nat): (r: seq<Slot>)
    requires m.Submessage?
    ensures i <= |m.fields| == |slots| ==> |r| == |m.fields| - i
    decreases m, 0, if i < |m.fields| then |m.fields| - i else 0
  {
    if i >= |m.fields| || i >= |slots| then []
    else
      [RestoredSlot(m.fields[i].kind, m.fields[i].rule, m.fields[i].default, slots[i])] + RestoredSlots(m, slots, i + 1)
  }

  function RestoredAll(kind: Kind, vs: seq<Value>): (r: seq<Value>)
    ensures |r| == |vs|
    decreases kind, 2, |vs|
  {
    if vs == [] then [] else [RestoredValue(kind, vs[0])] + RestoredAll(kind, vs[1..])
  }

  function RestoredSlot(kind: Kind, rule: Rule, default: Value, slot: Slot): Slot
    decreases kind, 3
  {
    match (rule, slot)
    case (Required, One(v)) => One(RestoredValue(kind, v))
    case (Optional, Maybe(has, v)) => if has then Maybe(true, RestoredValue(kind, v))
          else DefaultSlot(kind, rule, default)
    case (Implicit, One(v)) => if IsZero(kind, v) then DefaultSlot(kind, rule, default) else One(RestoredValue(kind, v))
    case (Repeated(_), Many(vs)) => Many(RestoredAll(kind, vs))
    case (Oneof(_), Choice(Some(v))) => Choice(Some(RestoredValue(kind, v)))
    case _ => slot
  }

  /** The byte that ends a canonical varint carries its top bits. */
  lemma {:induction false} MoreVarintRoundTrip(v: nat, low: nat, bytes: nat, rest: Bytes)
    requires 0 < bytes <= 4 && v * Pow128(bytes) + low < WORD32 && low < Pow128(bytes) && v > 0
    ensures MoreVarint32(Varint(v) + rest, 7 * bytes, low) == Done(low + ShiftLeft(v, bytes), rest)
    decreases 4 - bytes
  {
    var s := Varint(v) + rest;
    ShiftIsProduct(v, bytes);
    if v >= 128 {
      assert s[1..] == Varint(v / 128) + rest;
      ShiftSum(v % 128, v / 128, bytes);
      ShiftIsProduct(v % 128, bytes);
      ShiftIsProduct(v / 128, bytes + 1);
      assert Pow128(4) == 0x1000_0000;
      MoreVarintRoundTrip(v / 128, low + ShiftLeft(v % 128, bytes), bytes + 1, rest);
    } else {
      assert s[1..] == rest;
    }
  }

  lemma {:induction false} ShiftIsProduct(v: nat, bytes: nat)
    ensures ShiftLeft(v, bytes) == v * Pow128(bytes)
  {
    if bytes > 0 {
      ShiftIsProduct(v, bytes - 1);
    }
  }

  lemma {:induction false} Varint32Decodes(v: nat, rest: Bytes)
    requires v < WORD32
    ensures DecodeVarint32(Varint(v) + rest) == Done(v, rest)
  {
    var s := Varint(v) + rest;
    if v < 128 {
      assert s[1..] == rest;
    } else {
      assert s[1..] == Varint(v / 128) + rest;
      assert Pow128(1) == 128;
      MoreVarintRoundTrip(v / 128, v % 128, 1, rest);
      ShiftIsProduct(v / 128, 1);
    }
  }

  lemma {:induction false} Varint64Decodes(v: nat, rest: Bytes)
    requires v < WORD64
    ensures DecodeVarint64(Varint(v) + rest) == Done(v, rest)
  {
    Varint64RoundTrip(v, rest);
    assert (Varint(v) + rest)[|Varint(v)|..] == rest;
  }

  lemma {:induction false} LengthPrefixedDecodes(b: Bytes, rest: Bytes)
    requires |b| < WORD32
    ensures Substream(LengthPrefixed(b) + rest) == Done(b, rest)
    ensures DecodeVarint32(LengthPrefixed(b) + rest) == Done(|b|, b + rest)
    ensures Read(b + rest, |b|) == Done(b, rest)
  {
    assert LengthPrefixed(b) + rest == Varint(|b|) + (b + rest);
    Varint32Decodes(|b|, b + rest);
  }

  lemma SignedWordRestores(n: int, size: nat)
    requires IsSize(size) && InRange(n, size)
    ensures AsWord(n) < WORD64 && SignedWord(AsWord(n), size) == n
  {
  }

  lemma ZigZagRestores(n: int, size: nat)
    requires IsSize(size) && InRange(n, size)
    ensures ZigZagged(n) < WORD64 && Unzigzag(ZigZagged(n)) == n
  {
  }

  lemma FixedDecodes(v: nat, width: nat, rest: Bytes)
    requires (width == 4 && v < WORD32) || (width == 8 && v < WORD64)
    ensures Read(Fixed(v, width) + rest, width) == Done(Fixed(v, width), rest) && DecodeFixed(Fixed(v, width)) == v
  {
    if width == 4 {
      Fixed32RoundTrip(v);
    } else {
      Fixed64RoundTrip(v);
    }
  }

  /** A value that is not a message decodes to itself, a string to its text. */
  lemma {:induction false} ScalarRoundTrip(kind: Kind, v: Value, was: Value, rest: Bytes)
    requires !kind.Submessage? && ValueOk(kind, v) && |EncodeValue(kind, v)| < WORD32
    ensures DecodeValue(kind, was, EncodeValue(kind, v) + rest) == Done(RestoredValue(kind, v), rest)
  {
    match kind {
      case Bool => Varint32Decodes(if v.n != 0 then 1 else 0, rest);
      case Signed(size) =>
        SignedWordRestores(v.n, size);
        Varint64Decodes(AsWord(v.n), rest);
      case Unsigned(size) => Varint64Decodes(AsWord(v.n), rest);
      case ZigZag(size) =>
        ZigZagRestores(v.n, size);
        Varint64Decodes(ZigZagged(v.n), rest);
      case Fixed32Bits => FixedDecodes(v.n, 4, rest);
      case Fixed64Bits => FixedDecodes(v.n, 8, rest);
      case BytesOf(max) => LengthPrefixedDecodes(v.b, rest);
      case StringOf(dataSize) => LengthPrefixedDecodes(Text(v.b), rest);
      case FixedBytes(length) =>
        LengthPrefixedDecodes(v.b, rest);
        assert length == 0 ==> v.b == Zeros(0) && v.b + rest == rest;
    }
  }

  lemma {:induction false} KeyDecodes(tag: nat, wireType: nat, rest: Bytes)
    requires 0 < tag < MAX_TAG && wireType < 8
    ensures var key := tag * 8 + wireType;
            DecodeVarint32(EncodeTag(tag, wireType) + rest) == Done(key, rest) && key != 0 && key / 8 == tag
                && key % 8 == wireType
  {
    Varint32Decodes(tag * 8 + wireType, rest);
  }

  lemma {:induction false} FindOwn(fields: seq<Field>, k: nat, from: nat)
    requires from <= k < |fields| && FieldOk(fields, k)
    ensures Find(fields, fields[k].tag, from) == Some(k)
    decreases k - from
  {
    if from < k {
      FindOwn(fields, k, from + 1);
    }
  }

  /** One occurrence of a field takes the loop one step further. */
  lemma {:induction false} LoopStep(fields: seq<Field>, cur: seq<Slot>, seen: set<nat>, k: nat, wireType: nat,
                                    slot: Slot, payload: Bytes, rest: Bytes)
    requires |cur| == |fields| && k < |fields| && FieldOk(fields, k) && wireType < 8
    requires DecodeField(fields[k], cur[k], wireType, payload + rest) == Done(slot, rest)
    ensures DecodeLoop(fields, cur, seen, EncodeTag(fields[k].tag, wireType) + payload + rest) ==
              DecodeLoop(fields, WithSlot(fields, cur, k, slot), seen + {k}, rest)
  {
    var all := EncodeTag(fields[k].tag, wireType) + payload + rest;
    assert all == EncodeTag(fields[k].tag, wireType) + (payload + rest);
    KeyDecodes(fields[k].tag, wireType, payload + rest);
    FindOwn(fields, k, 0);
  }

  lemma {:induction false} PackedRoundTrip(kind: Kind, max: nat, done: seq<Value>, vs: seq<Value>)
    requires Packable(kind) && |done| + |vs| <= max && |EncodeAll(kind, vs)| < WORD32
    requires forall j :: 0 <= j < |vs| ==> ValueOk(kind, vs[j])
    ensures DecodePacked(kind, max, done, EncodeAll(kind, vs)) == Some(done + vs)
    decreases |vs|
  {
    if vs == [] {
      assert done + vs == done;
    } else {
      ScalarRoundTrip(kind, vs[0], Number(0), EncodeAll(kind, vs[1..]));
      PackedRoundTrip(kind, max, done + [vs[0]], vs[1..]);
      assert done + [vs[0]] + vs[1..] == done + vs;
      ScalarIsNotEmpty(kind, vs[0]);
    }
  }

  lemma ScalarIsNotEmpty(kind: Kind, v: Value)
    requires Packable(kind) && ValueOk(kind, v)
    ensures |EncodeValue(kind, v)| > 0
  {
  }

  lemma {:induction false} ScalarsRestored(kind: Kind, vs: seq<Value>)
    requires Packable(kind)
    ensures RestoredAll(kind, vs) == vs
  {
    if vs != [] {
      ScalarsRestored(kind, vs[1..]);
    }
  }

  /** Every value decodes, over its default, to what is restored of it. */
  lemma {:induction false} ValueRoundTrip(kind: Kind, v: Value, default: Value, rest: Bytes)
    requires ValueOk(kind, v) && |EncodeValue(kind, v)| < WORD32
    ensures DecodeValue(kind, DefaultValue(kind, default), EncodeValue(kind, v) + rest) ==
            Done(RestoredValue(kind, v), rest)
    decreases kind, 3
  {
    if kind.Submessage? {
      var inner := EncodeSlots(kind, v.slots, 0);
      LengthPrefixedDecodes(inner, rest);
      MixedStart(kind, v.slots);
      SlotsRoundTrip(kind, v.slots, 0, DefaultSlots(kind, 0), {});
    } else {
      ScalarRoundTrip(kind, v, DefaultValue(kind, default), rest);
    }
  }

  /** Restored up to slot `k`, and defaults from there on. */
  ghost predicate Mixed(m: Kind, slots: seq<Slot>, k: nat, cur: seq<Slot>)
    requires m.Submessage?
  {
    && |cur| == |slots| == |m.fields| && k <= |slots|
    && forall i :: 0 <= i < |cur| ==>
                     var f := m.fields[i];
                     cur[i] == if i < k then RestoredSlot(f.kind, f.rule, f.default, slots[i])
                         else DefaultSlot(f.kind, f.rule, f.default)
  }

  lemma {:induction false} DefaultAt(m: Kind, from: nat, i: nat)
    requires m.Submessage? && from <= i < |m.fields|
    ensures DefaultSlots(m, from)[i - from] == DefaultSlot(m.fields[i].kind, m.fields[i].rule, m.fields[i].default)
    decreases i - from
  {
    if from < i {
      DefaultAt(m, from + 1, i);
    }
  }

  lemma {:induction false} RestoredAt(m: Kind, slots: seq<Slot>, from: nat, i: nat)
    requires m.Submessage? && |slots| == |m.fields| && from <= i < |m.fields|
    ensures RestoredSlots(m, slots, from)[i - from] ==
            RestoredSlot(m.fields[i].kind, m.fields[i].rule, m.fields[i].default, slots[i])
    decreases i - from
  {
    if from < i {
      RestoredAt(m, slots, from + 1, i);
    }
  }

  lemma {:induction false} MixedStart(m: Kind, slots: seq<Slot>)
    requires m.Submessage? && |slots| == |m.fields|
    ensures Mixed(m, slots, 0, DefaultSlots(m, 0))
  {
    forall i | 0 <= i < |slots|
      ensures DefaultSlots(m, 0)[i] == DefaultSlot(m.fields[i].kind, m.fields[i].rule, m.fields[i].default)
    {
      DefaultAt(m, 0, i);
    }
  }

  lemma {:induction false} MixedEnd(m: Kind, slots: seq<Slot>, cur: seq<Slot>)
    requires m.Submessage? && Mixed(m, slots, |slots|, cur)
    ensures cur == RestoredSlots(m, slots, 0)
  {
    forall i | 0 <= i < |cur| ensures cur[i] == RestoredSlots(m, slots, 0)[i] {
      RestoredAt(m, slots, 0, i);
    }
  }

  lemma {:induction false} SlotsOkAt(m: Kind, slots: seq<Slot>, from: nat, i: nat)
    requires m.Submessage? && |slots| == |m.fields| && from <= i < |slots| && SlotsOk(m, slots, from)
    ensures FieldOk(m.fields, i) && OneofOk(m.fields, slots, i)
    ensures SlotOk(m.fields[i].kind, m.fields[i].rule, m.fields[i].default, slots[i])
    decreases i - from
  {
    if from < i {
      SlotsOkAt(m, slots, from + 1, i);
    }
  }

  /** Slot `k` still has its default, and if a member of a union is to be set there, no other is. */
  ghost predicate Free(m: Kind, slots: seq<Slot>, k: nat, cur: seq<Slot>)
    requires m.Submessage?
  {
    && |cur| == |slots| == |m.fields| && k < |slots|
    && cur[k] == DefaultSlot(m.fields[k].kind, m.fields[k].rule, m.fields[k].default)
    && (m.fields[k].rule.Oneof? && IsChosen(slots[k]) ==>
          forall j :: 0 <= j < |cur| && j != k && m.fields[j].rule == m.fields[k].rule ==> cur[j] == Choice(None))
  }

  lemma {:induction false} MixedIsFree(m: Kind, slots: seq<Slot>, k: nat, cur: seq<Slot>)
    requires m.Submessage? && Mixed(m, slots, k, cur) && k < |slots| && SlotsOk(m, slots, 0)
    ensures Free(m, slots, k, cur)
  {
    SlotsOkAt(m, slots, 0, k);
    forall j | 0 <= j < |cur| && j != k && m.fields[j].rule == m.fields[k].rule && m.fields[k].rule.Oneof?
        && IsChosen(slots[k])
      ensures cur[j] == Choice(None)
    {
      SlotsOkAt(m, slots, 0, j);
    }
  }

  /** Setting slot `k` touches no other member of its union, because none is chosen. */
  lemma {:induction false} SetsOnlyOne(m: Kind, slots: seq<Slot>, k: nat, cur: seq<Slot>, slot: Slot)
    requires m.Submessage? && Free(m, slots, k, cur)
    requires IsChosen(slots[k]) || !m.fields[k].rule.Oneof?
    ensures WithSlot(m.fields, cur, k, slot) == cur[k := slot]
  {
  }

  /** The rest of the message decodes field by field. */
  lemma {:induction false} SlotsRoundTrip(m: Kind, slots: seq<Slot>, k: nat, cur: seq<Slot>, seen: set<nat>)
    requires m.Submessage? && Mixed(m, slots, k, cur) && SlotsOk(m, slots, 0)
    requires |EncodeSlots(m, slots, k)| < WORD32
    requires forall i :: 0 <= i < k && m.fields[i].rule.Required? ==> i in seen
    ensures DecodeLoop(m.fields, cur, seen, EncodeSlots(m, slots, k)) == Some(RestoredSlots(m, slots, 0))
    decreases m, 2, |m.fields| - k
  {
    if k == |slots| {
      MixedEnd(m, slots, cur);
    } else {
      var rest := EncodeSlots(m, slots, k + 1);
      MixedIsFree(m, slots, k, cur);
      var next, more := SlotRoundTrip(m, slots, k, cur, seen, rest);
      SlotsRoundTrip(m, slots, k + 1, next, more);
    }
  }

  /** The encoding of slot `k` takes the loop to the state with that slot restored. */
  lemma {:induction false} SlotRoundTrip(m: Kind, slots: seq<Slot>, k: nat, cur: seq<Slot>, seen: set<nat>, rest: Bytes)
    returns (next: seq<Slot>, more: set<nat>)
    requires m.Submessage? && Free(m, slots, k, cur) && SlotsOk(m, slots, 0)
    requires |EncodeSlot(m.fields[k].tag, m.fields[k].kind, m.fields[k].rule, slots[k])| < WORD32
    ensures var f := m.fields[k]; next == cur[k := RestoredSlot(f.kind, f.rule, f.default, slots[k])]
    ensures seen <= more <= seen + {k} && (m.fields[k].rule.Required? ==> k in more)
    ensures DecodeLoop(m.fields, cur, seen, EncodeSlot(m.fields[k].tag, m.fields[k].kind, m.fields[k].rule, slots[k])
            + rest) ==
              DecodeLoop(m.fields, next, more, rest)
    decreases m, 1, 1
  {
    var f, slot := m.fields[k], slots[k];
    SlotsOkAt(m, slots, 0, k);
    var enc := EncodeSlot(f.tag, f.kind, f.rule, slot);
    var restored := RestoredSlot(f.kind, f.rule, f.default, slot);
    next := cur[k := restored];
    if enc == [] && !f.rule.Required? {
      assert enc + rest == rest;
      AbsentIsDefault(f, slot);
      assert next == cur;
      more := seen;
    } else if f.rule.Repeated? {
      more := seen + {k};
      RepeatedRoundTrip(m, slots, k, cur, seen, rest);
    } else {
      more := seen + {k};
      SetsOnlyOne(m, slots, k, cur, restored);
      var v := PresentValue(slot);
      ValueRoundTrip(f.kind, v, f.default, rest);
      assert enc == EncodeTag(f.tag, WireType(f.kind)) + EncodeValue(f.kind, v);
      assert DecodeField(f, cur[k], WireType(f.kind), EncodeValue(f.kind, v) + rest) == Done(restored, rest);
      LoopStep(m.fields, cur, seen, k, WireType(f.kind), restored, EncodeValue(f.kind, v), rest);
    }
  }

  lemma {:induction false} RepeatedRoundTrip(m: Kind, slots: seq<Slot>, k: nat, cur: seq<Slot>, seen: set<nat>,
                                             rest: Bytes)
    requires m.Submessage? && Free(m, slots, k, cur) && SlotsOk(m, slots, 0)
    requires m.fields[k].rule.Repeated? && slots[k].Many? && slots[k].vs != []
    requires |EncodeSlot(m.fields[k].tag, m.fields[k].kind, m.fields[k].rule, slots[k])| < WORD32
    ensures DecodeLoop(m.fields, cur, seen, EncodeSlot(m.fields[k].tag, m.fields[k].kind, m.fields[k].rule, slots[k])
            + rest) ==
              DecodeLoop(m.fields, cur[k := Many(RestoredAll(m.fields[k].kind, slots[k].vs))], seen + {k}, rest)
    decreases m, 1, 0
  {
    var f, vs := m.fields[k], slots[k].vs;
    SlotsOkAt(m, slots, 0, k);
    if Packable(f.kind) {
      var all := EncodeAll(f.kind, vs);
      SetsOnlyOne(m, slots, k, cur, Many(vs));
      ScalarsRestored(f.kind, vs);
      LengthPrefixedDecodes(all, rest);
      PackedRoundTrip(f.kind, f.rule.max, [], vs);
      assert [] + vs == vs;
      LoopStep(m.fields, cur, seen, k, WT_STRING, Many(vs), LengthPrefixed(all), rest);
    } else {
      TaggedRoundTrip(m, slots, k, cur, seen, [], vs, rest);
      assert [] + RestoredAll(f.kind, vs) == RestoredAll(f.kind, vs);
    }
  }

  function PresentValue(slot: Slot): Value {
    match slot
    case One(v) => v
    case Maybe(_, v) => v
    case Choice(Some(v)) => v
    case _ => Number(0)
  }

  lemma AbsentIsDefault(f: Field, slot: Slot)
    requires SlotOk(f.kind, f.rule, f.default, slot) && !f.rule.Required?
    requires EncodeSlot(f.tag, f.kind, f.rule, slot) == []
    ensures RestoredSlot(f.kind, f.rule, f.default, slot) == DefaultSlot(f.kind, f.rule, f.default)
  {
  }

  /** Unpacked repeated values are appended one by one. */
  lemma {:induction false} TaggedRoundTrip(m: Kind, slots: seq<Slot>, k: nat, cur: seq<Slot>, seen: set<nat>,
                                           done: seq<Value>, vs: seq<Value>, rest: Bytes)
    requires m.Submessage? && |cur| == |m.fields| && k < |m.fields| && FieldOk(m.fields, k)
    requires m.fields[k].rule.Repeated? && !Packable(m.fields[k].kind) && cur[k] == Many(done)
    requires |done| + |vs| <= m.fields[k].rule.max && forall j :: 0 <= j < |vs| ==> ValueOk(m.fields[k].kind, vs[j])
    requires |EncodeTagged(m.fields[k].tag, m.fields[k].kind, vs)| < WORD32
    ensures DecodeLoop(m.fields, cur, seen, EncodeTagged(m.fields[k].tag, m.fields[k].kind, vs) + rest) ==
              DecodeLoop(m.fields, cur[k := Many(done + RestoredAll(m.fields[k].kind, vs))],
                         if vs == [] then seen else seen + {k}, rest)
    decreases m, 0, |vs|
  {
    var f := m.fields[k];
    if vs == [] {
      assert EncodeTagged(f.tag, f.kind, vs) + rest == rest;
      assert done + [] == done;
      assert cur[k := Many(done)] == cur;
    } else {
      var tail := EncodeTagged(f.tag, f.kind, vs[1..]) + rest;
      var more := done + [RestoredValue(f.kind, vs[0])];
      TaggedStep(m, k, cur, seen, done, vs, tail);
      TaggedBytes(f, vs, rest);
      TaggedRoundTrip(m, slots, k, cur[k := Many(more)], seen + {k}, more, vs[1..], rest);
      TaggedSlots(f.kind, cur, k, done, vs);
      assert seen + {k} + {k} == seen + {k};
    }
  }

  lemma TaggedBytes(f: Field, vs: seq<Value>, rest: Bytes)
    requires vs != []
    ensures EncodeTagged(f.tag, f.kind, vs) + rest ==
              EncodeTag(f.tag, WireType(f.kind)) + EncodeValue(f.kind, vs[0])
                  + (EncodeTagged(f.tag, f.kind, vs[1..]) + rest)
    ensures |EncodeValue(f.kind, vs[0])| <= |EncodeTagged(f.tag, f.kind, vs)|
    ensures |EncodeTagged(f.tag, f.kind, vs[1..])| <= |EncodeTagged(f.tag, f.kind, vs)|
  {
    Associates(EncodeTag(f.tag, WireType(f.kind))
        + EncodeValue(f.kind, vs[0]), EncodeTagged(f.tag, f.kind, vs[1..]), rest);
  }

  lemma TaggedSlots(kind: Kind, cur: seq<Slot>, k: nat, done: seq<Value>, vs: seq<Value>)
    requires vs != [] && k < |cur|
    ensures var more := done + [RestoredValue(kind, vs[0])];
            cur[k := Many(more)][k := Many(more + RestoredAll(kind, vs[1..]))] ==
                cur[k := Many(done + RestoredAll(kind, vs))]
  {
    var more := done + [RestoredValue(kind, vs[0])];
    assert more + RestoredAll(kind, vs[1..]) == done + RestoredAll(kind, vs);
  }

  lemma {:induction false} TaggedStep(m: Kind, k: nat, cur: seq<Slot>, seen: set<nat>, done: seq<Value>,
                                      vs: seq<Value>, tail: Bytes)
    requires m.Submessage? && |cur| == |m.fields| && k < |m.fields| && FieldOk(m.fields, k)
    requires m.fields[k].rule.Repeated? && !Packable(m.fields[k].kind) && cur[k] == Many(done)
    requires vs != [] && |done| < m.fields[k].rule.max && ValueOk(m.fields[k].kind, vs[0])
    requires |EncodeValue(m.fields[k].kind, vs[0])| < WORD32
    ensures var f := m.fields[k];
            DecodeLoop(m.fields, cur, seen, EncodeTag(f.tag, WireType(f.kind)) + EncodeValue(f.kind, vs[0]) + tail) ==
              DecodeLoop(m.fields, cur[k := Many(done + [RestoredValue(f.kind, vs[0])])], seen + {k}, tail)
    decreases m, 0, 0
  {
    var f := m.fields[k];
    var slot := Many(done + [RestoredValue(f.kind, vs[0])]);
    ValueRoundTrip(f.kind, vs[0], f.default, tail);
    LoopStep(m.fields, cur, seen, k, WireType(f.kind), slot, EncodeValue(f.kind, vs[0]), tail);
    assert WithSlot(m.fields, cur, k, slot) == cur[k := slot];
  }

  /** Decoding what was encoded restores every present field and gives every absent one its default. */
  lemma {:induction false} MessageRoundTrip(m: Kind, slots: seq<Slot>)
    requires m.Submessage? && ValueOk(m, Message(slots)) && |EncodeSlots(m, slots, 0)| < WORD32
    ensures Decode(m, EncodeSlots(m, slots, 0)) == Some(RestoredSlots(m, slots, 0))
  {
    MixedStart(m, slots);
    SlotsRoundTrip(m, slots, 0, DefaultSlots(m, 0), {});
  }

  /**
     A string that fills its storage without a terminator is encoded but not accepted back.  Otherwise its
     text comes back, and that is all of the storage exactly if there is no zero byte in it.
   */
  lemma {:induction false} StringNeedsItsTerminator(dataSize: nat, b: Bytes, was: Value, rest: Bytes)
    requires |b| <= dataSize && |LengthPrefixed(Text(b))| < WORD32
    ensures var r := DecodeValue(StringOf(dataSize), was, EncodeValue(StringOf(dataSize), Blob(b)) + rest);
            && r == (if |b| == dataSize && 0 !in b then Fail else Done(Blob(Text(b)), rest))
            && (r == Done(Blob(b), rest) <==> |b| < dataSize && 0 !in b)
  {
    LengthPrefixedDecodes(Text(b), rest);
    TextIsAll(b);
  }

  lemma TextIsAll(b: Bytes)
    ensures Text(b) == b <==> 0 !in b
    ensures |Text(b)| == |b| <==> 0 !in b
  {
    var t := Text(b);
    assert |t| == |b| ==> b[..|t|] == b;
    if |t| < |b| {
      assert b[|t|] == 0;
    }
  }
}
