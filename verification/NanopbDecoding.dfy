/**
 What the decoder accepts: only messages that fit their descriptor, none without its required fields, and
 unknown fields anywhere.
 */
module NanopbDecoding {
  import opened InternalKeys
  import opened Coding
  import opened Nanopb

  // ---------- Unknown fields ----------

  datatype Unknown = Unknown(tag: nat, wireType: nat, payload: Bytes)

  /** Bytes with the top bit set up to the last one, which has it clear. */
  ghost predicate IsVarint(b: Bytes) {
    b != [] && b[|b| - 1] < 128 && forall i :: 0 <= i < |b| - 1 ==> b[i] >= 128
  }

  /** A field with a tag that the descriptor does not have, and a payload that its wire type delimits. */
  ghost predicate UnknownOk(fields: seq<Field>, u: Unknown) {
    && 0 < u.tag < MAX_TAG && (forall i :: 0 <= i < |fields| ==> fields[i].tag != u.tag)
    && ((u.wireType == WT_VARINT && IsVarint(u.payload))
        || (u.wireType == WT_64BIT && |u.payload| == 8)
        || (u.wireType == WT_32BIT && |u.payload| == 4)
        || (u.wireType == WT_STRING && exists b: Bytes :: |b| < WORD32 && u.payload == LengthPrefixed(b)))
  }

  function EncodeUnknown(us: seq<Unknown>): Bytes {
    if us == [] then []
    else if us[0].wireType < 8 then EncodeTag(us[0].tag, us[0].wireType) + us[0].payload + EncodeUnknown(us[1..])
    else EncodeUnknown(us[1..])
  }

  ghost predicate AllUnknown(fields: seq<Field>, us: seq<Unknown>) {
    forall u :: u in us ==> UnknownOk(fields, u)
  }

  lemma {:induction false} VarintSkipped(b: Bytes, rest: Bytes)
    requires IsVarint(b)
    ensures SkipVarint(b + rest) == Done([], rest)
  {
    if |b| == 1 {
      assert (b + rest)[1..] == rest;
    } else {
      assert (b + rest)[1..] == b[1..] + rest;
      VarintSkipped(b[1..], rest);
    }
  }

  /** A payload of any wire type is skipped as a whole. */
  lemma {:induction false} PayloadSkipped(fields: seq<Field>, u: Unknown, rest: Bytes)
    requires UnknownOk(fields, u)
    ensures var r := SkipField(u.payload + rest, u.wireType); r.Done? && r.rest == rest
  {
    if u.wireType == WT_VARINT {
      VarintSkipped(u.payload, rest);
    } else if u.wireType == WT_STRING {
      var b: Bytes :| |b| < WORD32 && u.payload == LengthPrefixed(b);
      LengthPrefixedDecodes(b, rest);
    } else {
      assert (u.payload + rest)[|u.payload|..] == rest;
    }
  }

  lemma {:induction false} FindNone(fields: seq<Field>, tag: nat, from: nat)
    requires from <= |fields| && forall i :: from <= i < |fields| ==> fields[i].tag != tag
    ensures Find(fields, tag, from) == None
    decreases |fields| - from
  {
    if from < |fields| {
      FindNone(fields, tag, from + 1);
    }
  }

  /** Unknown fields do not change what the rest of the bytes decodes to. */
  lemma {:induction false} UnknownSkipped(fields: seq<Field>, slots: seq<Slot>, seen: set<nat>, us: seq<Unknown>,
                                          rest: Bytes)
    requires |slots| == |fields| && AllUnknown(fields, us)
    ensures DecodeLoop(fields, slots, seen, EncodeUnknown(us) + rest) == DecodeLoop(fields, slots, seen, rest)
    decreases |us|
  {
    if us == [] {
      assert EncodeUnknown(us) + rest == rest;
    } else {
      var u, more := us[0], EncodeUnknown(us[1..]) + rest;
      assert UnknownOk(fields, u);
      OneUnknownSkipped(fields, slots, seen, u, more);
      Associates(EncodeTag(u.tag, u.wireType) + u.payload, EncodeUnknown(us[1..]), rest);
      Associates(EncodeTag(u.tag, u.wireType), u.payload, more);
      UnknownSkipped(fields, slots, seen, us[1..], rest);
    }
  }

  lemma OneUnknownSkipped(fields: seq<Field>, slots: seq<Slot>, seen: set<nat>, u: Unknown, rest: Bytes)
    requires |slots| == |fields| && UnknownOk(fields, u)
    ensures DecodeLoop(fields, slots, seen, EncodeTag(u.tag, u.wireType) + (u.payload + rest)) ==
              DecodeLoop(fields, slots, seen, rest)
  {
    KeyDecodes(u.tag, u.wireType, u.payload + rest);
    FindNone(fields, u.tag, 0);
    PayloadSkipped(fields, u, rest);
  }

  // ---------- Messages with fields left out and unknown fields put in ----------

  /**
     The encoding from field `i` on, without the fields in `out`, and with unknown fields before every field
     and at the end.
   */
  function EncodePartly(m: Kind, slots: seq<Slot>, extras: seq<seq<Unknown>>, out: set<nat>, i: nat): Bytes
    requires m.Submessage? && |slots| == |m.fields| && |extras| == |m.fields| + 1 && i <= |m.fields|
    decreases |m.fields| - i
  {
    if i == |m.fields| then EncodeUnknown(extras[i])
    else
      var f := m.fields[i];
      EncodeUnknown(extras[i])
      + ((if i in out then [] else EncodeSlot(f.tag, f.kind, f.rule, slots[i]))
          + EncodePartly(m, slots, extras, out, i + 1))
  }

  /** What is restored of it: the fields left out have their defaults. */
  function RestoredPartly(m: Kind, slots: seq<Slot>, out: set<nat>): (r: seq<Slot>)
    requires m.Submessage? && |slots| == |m.fields|
    ensures |r| == |slots|
  {
    seq(|slots|, i requires 0 <= i < |slots| =>
      var f := m.fields[i];
      if i in out then DefaultSlot(f.kind, f.rule, f.default) else RestoredSlot(f.kind, f.rule, f.default, slots[i]))
  }

  /** Restored up to field `k`, and defaults from there on. */
  ghost predicate PartlyMixed(m: Kind, slots: seq<Slot>, out: set<nat>, k: nat, cur: seq<Slot>)
    requires m.Submessage? && |slots| == |m.fields|
  {
    |cur| == |slots| && k <= |slots| && forall i :: 0 <= i < |cur| ==> cur[i] == PartlyAt(m, slots, out, k, i)
  }

  function PartlyAt(m: Kind, slots: seq<Slot>, out: set<nat>, k: nat, i: nat): Slot
    requires m.Submessage? && |slots| == |m.fields| && i < |slots|
  {
    var f := m.fields[i];
    if i >= k || i in out then DefaultSlot(f.kind, f.rule, f.default)
        else RestoredSlot(f.kind, f.rule, f.default, slots[i])
  }

  /** One of the first 64 required fields. */
  ghost predicate IsTracked(fields: seq<Field>, k: nat) {
    k < |fields| && fields[k].rule.Required? && |RequiredFields(fields, k)| < MAX_REQUIRED_FIELDS
  }

  /** The required fields before field `k`. */
  ghost function RequiredFields(fields: seq<Field>, k: nat): set<nat>
    requires k <= |fields|
  {
    set j: nat | j < k && fields[j].rule.Required?
  }

  lemma {:induction false} RequiredCounted(fields: seq<Field>, k: nat)
    requires k <= |fields|
    ensures RequiredBefore(fields, k) == |RequiredFields(fields, k)|
  {
    if k == 0 {
      assert RequiredFields(fields, 0) == {};
    } else {
      RequiredCounted(fields, k - 1);
      var before := RequiredFields(fields, k - 1);
      if fields[k - 1].rule.Required? {
        assert RequiredFields(fields, k) == before + {k - 1} && k - 1 !in before;
      } else {
        assert RequiredFields(fields, k) == before;
      }
    }
  }

  lemma TrackedExactly(fields: seq<Field>)
    ensures forall k: nat :: k in Tracked(fields) <==> IsTracked(fields, k)
  {
    forall k: nat ensures k in Tracked(fields) <==> IsTracked(fields, k) {
      if k < |fields| {
        RequiredCounted(fields, k);
      }
    }
  }

  lemma PartlyFree(m: Kind, slots: seq<Slot>, out: set<nat>, k: nat, cur: seq<Slot>)
    requires m.Submessage? && |slots| == |m.fields| && SlotsOk(m, slots, 0)
    requires PartlyMixed(m, slots, out, k, cur) && k < |slots|
    ensures Free(m, slots, k, cur)
  {
    assert cur[k] == PartlyAt(m, slots, out, k, k);
    if m.fields[k].rule.Oneof? && IsChosen(slots[k]) {
      forall j | 0 <= j < |cur| && j != k && m.fields[j].rule == m.fields[k].rule ensures cur[j] == Choice(None) {
        OthersUnchosen(m, slots, out, k, j);
      }
    }
  }

  lemma OthersUnchosen(m: Kind, slots: seq<Slot>, out: set<nat>, k: nat, j: nat)
    requires m.Submessage? && |slots| == |m.fields| && SlotsOk(m, slots, 0) && k < |slots| && j < |slots| && j != k
    requires m.fields[k].rule.Oneof? && m.fields[j].rule == m.fields[k].rule && IsChosen(slots[k])
    ensures PartlyAt(m, slots, out, k, j) == Choice(None)
  {
    SlotsOkAt(m, slots, 0, k);
    SlotsOkAt(m, slots, 0, j);
  }

  ghost predicate SlotsFit(m: Kind, slots: seq<Slot>)
    requires m.Submessage? && |slots| == |m.fields|
  {
    forall i :: 0 <= i < |slots| ==>
                  |EncodeSlot(m.fields[i].tag, m.fields[i].kind, m.fields[i].rule, slots[i])| < WORD32
  }

  ghost predicate ExtrasOk(m: Kind, extras: seq<seq<Unknown>>)
    requires m.Submessage?
  {
    |extras| == |m.fields| + 1 && forall i :: 0 <= i < |extras| ==> AllUnknown(m.fields, extras[i])
  }

  /** Field `k` and the unknown fields before it take the loop one step further. */
  lemma {:induction false} PartlyStep(m: Kind, slots: seq<Slot>, extras: seq<seq<Unknown>>, out: set<nat>, k: nat,
                                      cur: seq<Slot>, seen: set<nat>)
    returns (next: seq<Slot>, more: set<nat>)
    requires m.Submessage? && |slots| == |m.fields| && SlotsOk(m, slots, 0) && SlotsFit(m, slots) && ExtrasOk(m, extras)
    requires k < |slots| && PartlyMixed(m, slots, out, k, cur)
    ensures |next| == |slots| && PartlyMixed(m, slots, out, k + 1, next)
    ensures seen <= more <= seen + ({k} - out) && (m.fields[k].rule.Required? && k !in out ==> k in more)
    ensures DecodeLoop(m.fields, cur, seen, EncodePartly(m, slots, extras, out, k)) ==
              DecodeLoop(m.fields, next, more, EncodePartly(m, slots, extras, out, k + 1))
  {
    var f, rest := m.fields[k], EncodePartly(m, slots, extras, out, k + 1);
    assert AllUnknown(m.fields, extras[k]);
    if k in out {
      assert [] + rest == rest;
      UnknownSkipped(m.fields, cur, seen, extras[k], rest);
      next, more := cur, seen;
    } else {
      var enc := EncodeSlot(f.tag, f.kind, f.rule, slots[k]);
      UnknownSkipped(m.fields, cur, seen, extras[k], enc + rest);
      PartlyFree(m, slots, out, k, cur);
      next, more := SlotRoundTrip(m, slots, k, cur, seen, rest);
    }
    PartlyNext(m, slots, out, k, cur, next);
  }

  lemma PartlyNext(m: Kind, slots: seq<Slot>, out: set<nat>, k: nat, cur: seq<Slot>, next: seq<Slot>)
    requires m.Submessage? && |slots| == |m.fields| && k < |slots| && PartlyMixed(m, slots, out, k, cur)
    requires var f := m.fields[k];
             next == if k in out then cur else cur[k := RestoredSlot(f.kind, f.rule, f.default, slots[k])]
    ensures PartlyMixed(m, slots, out, k + 1, next)
  {
    forall i | 0 <= i < |next| ensures next[i] == PartlyAt(m, slots, out, k + 1, i) {
      assert cur[i] == PartlyAt(m, slots, out, k, i);
    }
  }

  /** `all` is `seen`, the required fields from `k` on that are not left out, and none that is. */
  ghost predicate SeesRest(m: Kind, out: set<nat>, k: nat, seen: set<nat>, all: set<nat>)
    requires m.Submessage?
  {
    && seen <= all
    && (forall i: nat :: k <= i < |m.fields| && i !in out && m.fields[i].rule.Required? ==> i in all)
    && forall i :: i in all && i !in seen ==> i !in out
  }

  lemma {:induction false} PartlyDecodes(m: Kind, slots: seq<Slot>, extras: seq<seq<Unknown>>, out: set<nat>, k: nat,
                                         cur: seq<Slot>, seen: set<nat>)
    returns (all: set<nat>)
    requires m.Submessage? && |slots| == |m.fields| && SlotsOk(m, slots, 0) && SlotsFit(m, slots) && ExtrasOk(m, extras)
    requires PartlyMixed(m, slots, out, k, cur)
    ensures SeesRest(m, out, k, seen, all)
    ensures DecodeLoop(m.fields, cur, seen, EncodePartly(m, slots, extras, out, k)) ==
              Finish(m.fields, RestoredPartly(m, slots, out), all)
    decreases |slots| - k
  {
    if k == |slots| {
      PartlyLast(m, slots, extras, out, cur, seen);
      all := seen;
    } else {
      var next, more := PartlyStep(m, slots, extras, out, k, cur, seen);
      all := PartlyDecodes(m, slots, extras, out, k + 1, next, more);
      SeesOneMore(m, out, k, seen, more, all);
    }
  }

  lemma SeesOneMore(m: Kind, out: set<nat>, k: nat, seen: set<nat>, more: set<nat>, all: set<nat>)
    requires m.Submessage? && k < |m.fields| && SeesRest(m, out, k + 1, more, all)
    requires seen <= more <= seen + ({k} - out) && (m.fields[k].rule.Required? && k !in out ==> k in more)
    ensures SeesRest(m, out, k, seen, all)
  {
  }

  lemma PartlyLast(m: Kind, slots: seq<Slot>, extras: seq<seq<Unknown>>, out: set<nat>, cur: seq<Slot>, seen: set<nat>)
    requires m.Submessage? && |slots| == |m.fields| && ExtrasOk(m, extras) && PartlyMixed(m, slots, out, |slots|, cur)
    ensures DecodeLoop(m.fields, cur, seen, EncodePartly(m, slots, extras, out, |slots|)) ==
              Finish(m.fields, RestoredPartly(m, slots, out), seen)
  {
    var last := extras[|slots|];
    assert AllUnknown(m.fields, last);
    UnknownSkipped(m.fields, cur, seen, last, []);
    assert EncodeUnknown(last) + [] == EncodeUnknown(last);
    PartlyEnd(m, slots, out, cur);
  }

  lemma PartlyEnd(m: Kind, slots: seq<Slot>, out: set<nat>, cur: seq<Slot>)
    requires m.Submessage? && |slots| == |m.fields| && PartlyMixed(m, slots, out, |slots|, cur)
    ensures cur == RestoredPartly(m, slots, out)
  {
    forall i | 0 <= i < |cur| ensures cur[i] == RestoredPartly(m, slots, out)[i] {
      assert cur[i] == PartlyAt(m, slots, out, |slots|, i);
    }
  }

  lemma PartlyStart(m: Kind, slots: seq<Slot>, out: set<nat>)
    requires m.Submessage? && |slots| == |m.fields|
    ensures PartlyMixed(m, slots, out, 0, DefaultSlots(m, 0))
  {
    forall i | 0 <= i < |slots|
      ensures DefaultSlots(m, 0)[i] == DefaultSlot(m.fields[i].kind, m.fields[i].rule, m.fields[i].default)
    {
      DefaultAt(m, 0, i);
    }
    assert forall i :: 0 <= i < |slots| ==> PartlyAt(m, slots, out, 0, i) == DefaultSlots(m, 0)[i];
  }

  /**
     Any fields may be left out of an encoded message, and unknown fields put in anywhere: it is accepted if and
     only if none of the first 64 required fields is left out, and the unknown ones change nothing.
   */
  lemma {:induction false} PartialMessageDecodes(m: Kind, slots: seq<Slot>, extras: seq<seq<Unknown>>, out: set<nat>)
    requires m.Submessage? && ValueOk(m, Message(slots)) && SlotsFit(m, slots) && ExtrasOk(m, extras)
    ensures Decode(m, EncodePartly(m, slots, extras, out, 0)) ==
              if exists k: nat :: k in out && IsTracked(m.fields, k) then None else Some(RestoredPartly(m, slots, out))
  {
    PartlyStart(m, slots, out);
    TrackedExactly(m.fields);
    var all := PartlyDecodes(m, slots, extras, out, 0, DefaultSlots(m, 0), {});
    if exists k: nat :: k in out && IsTracked(m.fields, k) {
      var k: nat :| k in out && IsTracked(m.fields, k);
      assert k in Tracked(m.fields) && k !in all;
    } else {
      forall k | k in Tracked(m.fields) ensures k in all {
        assert IsTracked(m.fields, k);
      }
    }
  }

  // ---------- Whatever is accepted has its required fields ----------

  ghost predicate IsSuffix(r: Bytes, s: Bytes) {
    |r| <= |s| && r == s[|s| - |r|..]
  }

  lemma SuffixOfSuffix(r: Bytes, t: Bytes, s: Bytes)
    requires IsSuffix(r, t) && IsSuffix(t, s)
    ensures IsSuffix(r, s)
  {
  }

  lemma {:induction false} MoreVarintSuffix(s: Bytes, bitpos: nat, result: nat)
    ensures var r := MoreVarint32(s, bitpos, result); r.Done? ==> IsSuffix(r.rest, s)
    decreases |s|
  {
    if s != [] {
      var byte := s[0];
      var next := if bitpos >= 32 then result else Low32(result + ShiftLeft(byte % 128, bitpos / 7));
      MoreVarintSuffix(s[1..], bitpos + 7, next);
    }
  }

  lemma VarintSuffix(s: Bytes)
    ensures DecodeVarint32(s).Done? ==> IsSuffix(DecodeVarint32(s).rest, s)
    ensures DecodeVarint64(s).Done? ==> IsSuffix(DecodeVarint64(s).rest, s)
  {
    if s != [] {
      MoreVarintSuffix(s[1..], 7, s[0] % 128);
    }
  }

  lemma ReadSuffix(s: Bytes, count: nat)
    ensures Read(s, count).Done? ==> IsSuffix(Read(s, count).rest, s)
  {
  }

  lemma ReadAfterVarint(s: Bytes, count: nat)
    ensures var v := DecodeVarint32(s); v.Done? && Read(v.rest, count).Done? ==> IsSuffix(Read(v.rest, count).rest, s)
  {
    VarintSuffix(s);
    var v := DecodeVarint32(s);
    if v.Done? {
      ReadSuffix(v.rest, count);
    }
  }

  lemma {:induction false} SkipSuffix(s: Bytes, wireType: nat)
    ensures SkipField(s, wireType).Done? ==> IsSuffix(SkipField(s, wireType).rest, s)
  {
    SkipVarintSuffix(s);
    var v := DecodeVarint32(s);
    if v.Done? {
      ReadAfterVarint(s, v.value);
    }
  }

  lemma {:induction false} SkipVarintSuffix(s: Bytes)
    ensures SkipVarint(s).Done? ==> IsSuffix(SkipVarint(s).rest, s)
  {
    if s != [] {
      SkipVarintSuffix(s[1..]);
    }
  }

  lemma {:induction false} ValueSuffix(kind: Kind, was: Value, s: Bytes)
    ensures var r := DecodeValue(kind, was, s); r.Done? ==> IsSuffix(r.rest, s)
  {
    VarintSuffix(s);
    var v := DecodeVarint32(s);
    if v.Done? {
      ReadAfterVarint(s, v.value);
    }
  }

  lemma {:induction false} FieldSuffix(f: Field, slot: Slot, wireType: nat, s: Bytes)
    ensures var r := DecodeField(f, slot, wireType, s); r.Done? ==> IsSuffix(r.rest, s)
  {
    match f.rule {
      case Required => ValueSuffix(f.kind, if slot.One? then slot.v else f.default, s);
      case Implicit => ValueSuffix(f.kind, if slot.One? then slot.v else f.default, s);
      case Optional => ValueSuffix(f.kind, if slot.Maybe? then slot.v else f.default, s);
      case Oneof(_) => ValueSuffix(f.kind, DefaultValue(f.kind, f.default), s);
      case Repeated(max) =>
        if wireType == WT_STRING && Packable(f.kind) {
          SubstreamSuffix(s);
        } else {
          ValueSuffix(f.kind, DefaultValue(f.kind, f.default), s);
        }
    }
  }

  lemma SubstreamSuffix(s: Bytes)
    ensures Substream(s).Done? ==> IsSuffix(Substream(s).rest, s)
  {
    var v := DecodeVarint32(s);
    if v.Done? {
      ReadAfterVarint(s, v.value);
    }
  }

  /** Somewhere in the bytes there is the key of a field with this tag. */
  ghost predicate KeyOccurs(s: Bytes, tag: nat) {
    exists p :: 0 <= p < |s| && KeyAt(s, p, tag)
  }

  ghost predicate KeyAt(s: Bytes, p: nat, tag: nat)
    requires p < |s|
  {
    var r := DecodeVarint32(s[p..]);
    r.Done? && r.value / 8 == tag
  }

  lemma KeyInSuffix(r: Bytes, s: Bytes, tag: nat)
    requires IsSuffix(r, s) && KeyOccurs(r, tag)
    ensures KeyOccurs(s, tag)
  {
    var p :| 0 <= p < |r| && KeyAt(r, p, tag);
    var q := |s| - |r| + p;
    assert s[q..] == r[p..];
    assert KeyAt(s, q, tag);
  }

  lemma {:induction false} LoopSaw(fields: seq<Field>, slots: seq<Slot>, seen: set<nat>, s: Bytes, k: nat)
    requires |slots| == |fields| && DecodeLoop(fields, slots, seen, s).Some?
    requires k in Tracked(fields) && k !in seen
    ensures KeyOccurs(s, fields[k].tag)
    decreases |s|
  {
    var v := DecodeVarint32(s);
    var i := Find(fields, v.value / 8, 0);
    VarintSuffix(s);
    if i.None? {
      var after := SkipField(v.rest, v.value % 8).rest;
      SkipSuffix(v.rest, v.value % 8);
      SuffixOfSuffix(after, v.rest, s);
      LoopSaw(fields, slots, seen, after, k);
      KeyInSuffix(after, s, fields[k].tag);
    } else if i.value == k {
      assert s[0..] == s;
      assert KeyAt(s, 0, fields[k].tag);
    } else {
      var r := DecodeField(fields[i.value], slots[i.value], v.value % 8, v.rest);
      FieldSuffix(fields[i.value], slots[i.value], v.value % 8, v.rest);
      SuffixOfSuffix(r.rest, v.rest, s);
      LoopSaw(fields, WithSlot(fields, slots, i.value, r.value), seen + {i.value}, r.rest, k);
      KeyInSuffix(r.rest, s, fields[k].tag);
    }
  }

  /** Whatever bytes are accepted hold a key of each of the first 64 required fields. */
  lemma {:induction false} AcceptedHasRequired(m: Kind, s: Bytes, k: nat)
    requires m.Submessage? && Decode(m, s).Some? && IsTracked(m.fields, k)
    ensures KeyOccurs(s, m.fields[k].tag)
  {
    TrackedExactly(m.fields);
    LoopSaw(m.fields, DefaultSlots(m, 0), {}, s, k);
  }

  // ---------- Whatever is accepted fits its descriptor ----------

  /** Tags are distinct, and the defaults of fields that are always there can be stored. */
  ghost predicate DescriptorOk(kind: Kind)
    decreases kind
  {
    kind.Submessage? ==>
      forall i :: 0 <= i < |kind.fields| ==>
                    && FieldOk(kind.fields, i) && DescriptorOk(kind.fields[i].kind) && DefaultOk(kind.fields[i])
  }

  ghost predicate DefaultOk(f: Field) {
    (f.rule.Required? || f.rule.Implicit?) && !f.kind.Submessage? ==> ValueOk(f.kind, f.default)
  }

  /** A value that can be stored; a submessage can also if it is an optional one that is absent. */
  ghost predicate ValueFits(kind: Kind, v: Value)
    decreases kind, 1
  {
    if kind.Submessage? then
      && v.Message? && |v.slots| == |kind.fields|
      && forall i :: 0 <= i < |kind.fields| ==>
                       && OneofOk(kind.fields, v.slots, i)
                       && SlotFits(kind.fields[i].kind, kind.fields[i].rule, v.slots[i])
    else ValueOk(kind, v)
  }

  ghost predicate SlotFits(kind: Kind, rule: Rule, slot: Slot)
    decreases kind, 2
  {
    match (rule, slot)
    case (Required, One(v)) => ValueFits(kind, v)
    case (Optional, Maybe(has, v)) => has || kind.Submessage? ==> ValueFits(kind, v)
    case (Implicit, One(v)) => ValueFits(kind, v)
    case (Repeated(max), Many(vs)) => |vs| <= max && forall j :: 0 <= j < |vs| ==> ValueFits(kind, vs[j])
    case (Oneof(_), Choice(chosen)) => chosen.Some? ==> ValueFits(kind, chosen.value)
    case _ => false
  }

  lemma {:induction false} FitsIsOk(kind: Kind, v: Value)
    requires DescriptorOk(kind) && ValueFits(kind, v)
    ensures ValueOk(kind, v)
    decreases kind, 1
  {
    if kind.Submessage? {
      forall i | 0 <= i < |v.slots|
        ensures SlotOk(kind.fields[i].kind, kind.fields[i].rule, kind.fields[i].default, v.slots[i])
      {
        SlotFitsIsOk(kind.fields[i], v.slots[i]);
      }
      SlotsOkFrom(kind, v.slots, 0);
    }
  }

  lemma {:induction false} SlotFitsIsOk(f: Field, slot: Slot)
    requires DescriptorOk(f.kind) && SlotFits(f.kind, f.rule, slot)
    ensures SlotOk(f.kind, f.rule, f.default, slot)
    decreases f.kind, 2
  {
    match slot {
      case One(v) => FitsIsOk(f.kind, v);
      case Maybe(has, v) =>
        if has {
          FitsIsOk(f.kind, v);
        }
      case Many(vs) =>
        forall j | 0 <= j < |vs| ensures ValueOk(f.kind, vs[j]) {
          FitsIsOk(f.kind, vs[j]);
        }
      case Choice(chosen) =>
        if chosen.Some? {
          FitsIsOk(f.kind, chosen.value);
        }
    }
  }

  lemma {:induction false} SlotsOkFrom(m: Kind, slots: seq<Slot>, i: nat)
    requires m.Submessage? && |slots| == |m.fields| && i <= |slots|
    requires forall j :: 0 <= j < |slots| ==>
                           && FieldOk(m.fields, j) && OneofOk(m.fields, slots, j)
                           && SlotOk(m.fields[j].kind, m.fields[j].rule, m.fields[j].default, slots[j])
    ensures SlotsOk(m, slots, i)
    decreases |slots| - i
  {
    if i < |slots| {
      SlotsOkFrom(m, slots, i + 1);
    }
  }

  lemma {:induction false} DefaultFits(kind: Kind, default: Value)
    requires DescriptorOk(kind) && (!kind.Submessage? ==> ValueOk(kind, default))
    ensures ValueFits(kind, DefaultValue(kind, default))
    decreases kind
  {
    if kind.Submessage? {
      var slots := DefaultSlots(kind, 0);
      forall i | 0 <= i < |slots|
        ensures OneofOk(kind.fields, slots, i) && SlotFits(kind.fields[i].kind, kind.fields[i].rule, slots[i])
      {
        var f := kind.fields[i];
        DefaultAt(kind, 0, i);
        assert DefaultOk(f) && DescriptorOk(f.kind);
        if f.kind.Submessage? || f.rule.Required? || f.rule.Implicit? {
          DefaultFits(f.kind, f.default);
        }
      }
    }
  }

  lemma {:induction false} NumberFits(kind: Kind, was: Value, s: Bytes)
    requires Packable(kind)
    ensures var r := DecodeValue(kind, was, s); r.Done? ==> ValueFits(kind, r.value)
  {
    if kind.Fixed32Bits? && |s| >= 4 {
      DecodedFits(s[..4]);
      assert Pow256(4) == WORD32;
    } else if kind.Fixed64Bits? && |s| >= 8 {
      DecodedFits(s[..8]);
      assert Pow256(4) == WORD32;
      assert Pow256(8) == WORD64;
    }
  }

  lemma {:induction false} BlobFits(kind: Kind, was: Value, s: Bytes)
    requires kind.BytesOf? || kind.StringOf? || kind.FixedBytes?
    ensures var r := DecodeValue(kind, was, s); r.Done? ==> ValueFits(kind, r.value)
  {
  }

  /** What was there before matters for submessages only, which are decoded over it. */
  ghost predicate WasFits(kind: Kind, was: Value) {
    kind.Submessage? && was.Message? && |was.slots| == |kind.fields| ==> ValueFits(kind, was)
  }

  lemma {:induction false} DecodedValueFits(kind: Kind, was: Value, s: Bytes)
    requires DescriptorOk(kind) && WasFits(kind, was)
    ensures var r := DecodeValue(kind, was, s); r.Done? ==> ValueFits(kind, r.value)
    decreases |s|, 0
  {
    if kind.Submessage? {
      var sub := Substream(s);
      DefaultFits(kind, was);
      if sub.Done? {
        var slots := if was.Message? && |was.slots| == |kind.fields| then was.slots else DefaultSlots(kind, 0);
        DecodedSlotsFit(kind, slots, {}, sub.value);
      }
    } else if Packable(kind) {
      NumberFits(kind, was, s);
    } else {
      BlobFits(kind, was, s);
    }
  }

  lemma {:induction false} DecodedPackedFits(kind: Kind, max: nat, vs: seq<Value>, s: Bytes)
    requires Packable(kind) && |vs| <= max && forall j :: 0 <= j < |vs| ==> ValueFits(kind, vs[j])
    ensures var r := DecodePacked(kind, max, vs, s);
            r.Some? ==> |r.value| <= max && forall j :: 0 <= j < |r.value| ==> ValueFits(kind, r.value[j])
    decreases |s|
  {
    if s != [] && |vs| < max {
      var r := DecodeValue(kind, Number(0), s);
      NumberFits(kind, Number(0), s);
      if r.Done? {
        DecodedPackedFits(kind, max, vs + [r.value], r.rest);
      }
    }
  }

  lemma {:induction false} DecodedFieldFits(f: Field, slot: Slot, wireType: nat, s: Bytes)
    requires DescriptorOk(f.kind) && SlotFits(f.kind, f.rule, slot)
    ensures var r := DecodeField(f, slot, wireType, s); r.Done? ==> SlotFits(f.kind, f.rule, r.value)
    ensures var r := DecodeField(f, slot, wireType, s); r.Done? && f.rule.Oneof? ==> IsChosen(r.value)
    decreases |s|, 2
  {
    match f.rule {
      case Required => DecodedValueFits(f.kind, slot.v, s);
      case Implicit => DecodedValueFits(f.kind, slot.v, s);
      case Optional => DecodedValueFits(f.kind, slot.v, s);
      case Oneof(_) => DecodedMemberFits(f, s);
      case Repeated(max) =>
        if wireType == WT_STRING && Packable(f.kind) {
          var sub := Substream(s);
          if sub.Done? {
            DecodedPackedFits(f.kind, max, slot.vs, sub.value);
          }
        } else {
          DecodedMemberFits(f, s);
        }
    }
  }

  /** A value that is decoded over its default. */
  lemma {:induction false} DecodedMemberFits(f: Field, s: Bytes)
    requires DescriptorOk(f.kind)
    ensures var r := DecodeValue(f.kind, DefaultValue(f.kind, f.default), s); r.Done? ==> ValueFits(f.kind, r.value)
    decreases |s|, 1
  {
    if f.kind.Submessage? {
      DefaultFits(f.kind, f.default);
    }
    DecodedValueFits(f.kind, DefaultValue(f.kind, f.default), s);
  }

  lemma {:induction false} DecodedSlotsFit(m: Kind, slots: seq<Slot>, seen: set<nat>, s: Bytes)
    requires m.Submessage? && DescriptorOk(m) && ValueFits(m, Message(slots))
    ensures var r := DecodeLoop(m.fields, slots, seen, s); r.Some? ==> ValueFits(m, Message(r.value))
    decreases |s|, 3
  {
    var v := DecodeVarint32(s);
    if v.Done? && v.value != 0 {
      var i := Find(m.fields, v.value / 8, 0);
      if i.None? {
        var after := SkipField(v.rest, v.value % 8);
        if after.Done? {
          DecodedSlotsFit(m, slots, seen, after.rest);
        }
      } else {
        var f := m.fields[i.value];
        var r := DecodeField(f, slots[i.value], v.value % 8, v.rest);
        assert SlotFits(f.kind, f.rule, slots[i.value]) && DescriptorOk(f.kind);
        DecodedFieldFits(f, slots[i.value], v.value % 8, v.rest);
        if r.Done? {
          SettingFits(m, slots, i.value, r.value);
          DecodedSlotsFit(m, WithSlot(m.fields, slots, i.value, r.value), seen + {i.value}, r.rest);
        }
      }
    }
  }

  /** Choosing a member of a union leaves it the only one. */
  lemma SettingFits(m: Kind, slots: seq<Slot>, i: nat, slot: Slot)
    requires m.Submessage? && ValueFits(m, Message(slots)) && i < |slots|
    requires SlotFits(m.fields[i].kind, m.fields[i].rule, slot) && (m.fields[i].rule.Oneof? ==> IsChosen(slot))
    ensures ValueFits(m, Message(WithSlot(m.fields, slots, i, slot)))
  {
    var after := WithSlot(m.fields, slots, i, slot);
    forall j | 0 <= j < |after|
      ensures OneofOk(m.fields, after, j) && SlotFits(m.fields[j].kind, m.fields[j].rule, after[j])
    {
      assert OneofOk(m.fields, slots, j) && SlotFits(m.fields[j].kind, m.fields[j].rule, slots[j]);
    }
  }

  /**
     Whatever bytes are accepted, the message can be stored where its descriptor says: numbers, byte strings and
     arrays within their limits, at most one member of a union, at every depth.  So it can be encoded again.
   */
  lemma {:induction false} AcceptedFits(m: Kind, s: Bytes)
    requires m.Submessage? && DescriptorOk(m)
    ensures Decode(m, s).Some? ==> ValueOk(m, Message(Decode(m, s).value))
  {
    DefaultFits(m, Number(0));
    DecodedSlotsFit(m, DefaultSlots(m, 0), {}, s);
    if Decode(m, s).Some? {
      FitsIsOk(m, Message(Decode(m, s).value));
    }
  }

  /** What a scalar encodes to, whether or not the field can hold it. */
  ghost predicate Encodable(kind: Kind, v: Value) {
    match (kind, v)
    case (Bool, Number(n)) => n == 0 || n == 1
    case (Signed(size), Number(n)) => IsSize(size) && InRange(n, if size == 8 then 8 else 4)
    case (Unsigned(size), Number(n)) => IsSize(size) && 0 <= n < WORD64
    case (ZigZag(size), Number(n)) => IsSize(size) && InRange(n, 8)
    case (Fixed32Bits, Number(n)) => 0 <= n < WORD32
    case (Fixed64Bits, Number(n)) => 0 <= n < WORD64
    case (BytesOf(max), Blob(b)) => true
    case (StringOf(dataSize), Blob(b)) => |b| <= dataSize
    case (FixedBytes(length), Blob(b)) => b == [] ==> length == 0
    case _ => false
  }

  /** A scalar is accepted exactly if the field can hold it. */
  lemma {:induction false} ScalarAcceptedExactly(kind: Kind, v: Value, was: Value, rest: Bytes)
    requires !kind.Submessage? && Encodable(kind, v) && |EncodeValue(kind, v)| < WORD32
    ensures DecodeValue(kind, was, EncodeValue(kind, v) + rest) ==
              if ValueOk(kind, v) then Done(RestoredValue(kind, v), rest) else Fail
  {
    if ValueOk(kind, v) {
      ScalarRoundTrip(kind, v, was, rest);
    } else {
      match kind {
        case Signed(size) =>
          SignedWordRestores(v.n, 4);
          Varint64Decodes(AsWord(v.n), rest);
        case Unsigned(size) => Varint64Decodes(AsWord(v.n), rest);
        case ZigZag(size) =>
          ZigZagRestores(v.n, 8);
          Varint64Decodes(ZigZagged(v.n), rest);
        case BytesOf(max) => LengthPrefixedDecodes(v.b, rest);
        case StringOf(dataSize) => LengthPrefixedDecodes(Text(v.b), rest);
        case FixedBytes(length) => LengthPrefixedDecodes(v.b, rest);
      }
    }
  }

  // ---------- Messages that come back as they are ----------

  /** Strings hold no zero byte, and what is absent holds its default. */
  ghost predicate Canonical(kind: Kind, v: Value)
    decreases kind, 1
  {
    if kind.Submessage? then
      && v.Message? && |v.slots| == |kind.fields|
      && forall i :: 0 <= i < |kind.fields| ==>
                       CanonicalSlot(kind.fields[i].kind, kind.fields[i].rule, kind.fields[i].default, v.slots[i])
    else kind.StringOf? && v.Blob? ==> 0 !in v.b
  }

  ghost predicate CanonicalSlot(kind: Kind, rule: Rule, default: Value, slot: Slot)
    decreases kind, 2
  {
    match (rule, slot)
    case (Required, One(v)) => Canonical(kind, v)
    case (Optional, Maybe(has, v)) => if has then Canonical(kind, v) else slot == DefaultSlot(kind, rule, default)
    case (Implicit, One(v)) => if IsZero(kind, v) then slot == DefaultSlot(kind, rule, default) else Canonical(kind, v)
    case (Repeated(_), Many(vs)) => forall j :: 0 <= j < |vs| ==> Canonical(kind, vs[j])
    case (Oneof(_), Choice(chosen)) => chosen.Some? ==> Canonical(kind, chosen.value)
    case _ => false
  }

  lemma {:induction false} CanonicalIsRestored(kind: Kind, v: Value)
    requires Canonical(kind, v)
    ensures RestoredValue(kind, v) == v
    decreases kind, 1
  {
    if kind.Submessage? {
      var slots := v.slots;
      forall i | 0 <= i < |slots| ensures RestoredSlots(kind, slots, 0)[i] == slots[i] {
        RestoredAt(kind, slots, 0, i);
        CanonicalSlotIsRestored(kind.fields[i], slots[i]);
      }
      assert RestoredSlots(kind, slots, 0) == slots;
    } else if kind.StringOf? && v.Blob? {
      TextIsAll(v.b);
    }
  }

  lemma {:induction false} CanonicalSlotIsRestored(f: Field, slot: Slot)
    requires CanonicalSlot(f.kind, f.rule, f.default, slot)
    ensures RestoredSlot(f.kind, f.rule, f.default, slot) == slot
    decreases f.kind, 2
  {
    match slot {
      case One(v) =>
        if f.rule.Required? || !IsZero(f.kind, v) {
          CanonicalIsRestored(f.kind, v);
        }
      case Maybe(has, v) =>
        if has {
          CanonicalIsRestored(f.kind, v);
        }
      case Many(vs) => CanonicalAllRestored(f.kind, vs);
      case Choice(chosen) =>
        if chosen.Some? {
          CanonicalIsRestored(f.kind, chosen.value);
        }
    }
  }

  lemma {:induction false} CanonicalAllRestored(kind: Kind, vs: seq<Value>)
    requires forall j :: 0 <= j < |vs| ==> Canonical(kind, vs[j])
    ensures RestoredAll(kind, vs) == vs
    decreases kind, 2, |vs|
  {
    if vs != [] {
      CanonicalIsRestored(kind, vs[0]);
      CanonicalAllRestored(kind, vs[1..]);
    }
  }

  /** Such a message comes back exactly as it was encoded. */
  lemma {:induction false} CanonicalRoundTrip(m: Kind, slots: seq<Slot>)
    requires m.Submessage? && ValueOk(m, Message(slots)) && |EncodeSlots(m, slots, 0)| < WORD32
    requires Canonical(m, Message(slots))
    ensures Decode(m, EncodeSlots(m, slots, 0)) == Some(slots)
  {
    MessageRoundTrip(m, slots);
    CanonicalIsRestored(m, Message(slots));
  }

  // ---------- Encoded fields can be skipped ----------

  lemma {:induction false} VarintIsVarint(v: nat)
    ensures IsVarint(Varint(v))
  {
    if v >= 128 {
      VarintIsVarint(v / 128);
      var s := Varint(v);
      assert s == [v % 128 + 128] + Varint(v / 128);
      forall i | 0 <= i < |s| - 1 ensures s[i] >= 128 {
        assert i > 0 ==> s[i] == Varint(v / 128)[i - 1];
      }
    }
  }

  /** A decoder that does not know a field skips exactly its value, by its wire type alone. */
  lemma {:induction false} EncodedIsSkippable(kind: Kind, v: Value, rest: Bytes)
    requires ValueOk(kind, v) && |EncodeValue(kind, v)| < WORD32
    ensures var r := SkipField(EncodeValue(kind, v) + rest, WireType(kind)); r.Done? && r.rest == rest
  {
    var enc := EncodeValue(kind, v);
    match kind {
      case Bool => NumberSkipped(if v.n != 0 then 1 else 0, rest);
      case Signed(_) => NumberSkipped(AsWord(v.n), rest);
      case Unsigned(_) => NumberSkipped(AsWord(v.n), rest);
      case ZigZag(_) => NumberSkipped(ZigZagged(v.n), rest);
      case Fixed32Bits => assert (enc + rest)[4..] == rest;
      case Fixed64Bits => assert (enc + rest)[8..] == rest;
      case BytesOf(_) => LengthPrefixedDecodes(v.b, rest);
      case StringOf(_) => LengthPrefixedDecodes(Text(v.b), rest);
      case FixedBytes(_) => LengthPrefixedDecodes(v.b, rest);
      case Submessage(_) => LengthPrefixedDecodes(EncodeSlots(kind, v.slots, 0), rest);
    }
  }

  lemma NumberSkipped(n: nat, rest: Bytes)
    ensures SkipField(Varint(n) + rest, WT_VARINT) == Done([], rest)
  {
    VarintIsVarint(n);
    VarintSkipped(Varint(n), rest);
  }

  /** Zig-zag codes of small numbers are small, whatever their sign. */
  lemma ZigZagIsShort(n: int)
    ensures ZigZagged(n) <= if n >= 0 then 2 * n else -2 * n
    ensures Unzigzag(ZigZagged(n)) == n
  {
  }
}
