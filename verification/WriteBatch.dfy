/**
 Write batches: a header with a sequence number and a count, and one record for each operation.  Batches are
 appended to each other by their bytes, and applied to a memtable with consecutive sequence numbers.
 */
module WriteBatches {
  import opened InternalKeys
  import opened Coding

  const HEADER: nat := 12

  datatype Operation = Put(key: Bytes, value: Bytes) | Delete(key: Bytes)

  /** An entry as a memtable is given it. */
  datatype Added = Added(sequence: nat, kind: ValueType, key: Bytes, value: Bytes)

  function EncodeOperation(op: Operation): (s: Bytes)
    ensures |s| > 0 && s[0] == TypeCode(if op.Put? then Value else ValueType.Deletion)
  {
    match op
    case Put(key, value) => [1] + (LengthPrefixed(key) + LengthPrefixed(value))
    case Delete(key) => [0] + LengthPrefixed(key)
  }

  function EncodeOperations(ops: seq<Operation>): Bytes {
    if ops == [] then [] else EncodeOperations(ops[..|ops| - 1]) + EncodeOperation(ops[|ops| - 1])
  }

  function SequenceOf(rep: Bytes): nat
    requires |rep| >= HEADER
  {
    DecodeFixed(rep[..8])
  }

  function CountOf(rep: Bytes): nat
    requires |rep| >= HEADER
  {
    DecodeFixed(rep[8..12])
  }

  /** The bytes of a batch with these operations. */
  ghost predicate Holds(rep: Bytes, sequence: nat, ops: seq<Operation>) {
    && |rep| >= HEADER && |ops| < WORD32
    && SequenceOf(rep) == sequence && CountOf(rep) == |ops|
    && rep[12..] == EncodeOperations(ops)
    && forall op :: op in ops ==> OperationOk(op)
  }

  function WithCount(rep: Bytes, n: nat): (r: Bytes)
    requires |rep| >= HEADER && n < WORD32
    ensures |r| == |rep| && SequenceOf(r) == SequenceOf(rep) && CountOf(r) == n && r[12..] == rep[12..]
  {
    Fixed32RoundTrip(n);
    var r := rep[..8] + Fixed32(n) + rep[12..];
    assert r[..8] == rep[..8] && r[8..12] == Fixed32(n) && r[12..] == rep[12..];
    r
  }

  function WithSequence(rep: Bytes, n: nat): (r: Bytes)
    requires |rep| >= HEADER && n < WORD64
    ensures |r| == |rep| && SequenceOf(r) == n && CountOf(r) == CountOf(rep) && r[12..] == rep[12..]
  {
    Fixed64RoundTrip(n);
    var r := Fixed64(n) + rep[8..];
    assert r[..8] == Fixed64(n) && r[8..12] == rep[8..12] && r[12..] == rep[12..];
    r
  }

  /** Bytes behind the header leave it alone. */
  lemma AppendKeepsHeader(rep: Bytes, more: Bytes)
    requires |rep| >= HEADER
    ensures SequenceOf(rep + more) == SequenceOf(rep) && CountOf(rep + more) == CountOf(rep)
    ensures (rep + more)[12..] == rep[12..] + more
  {
    assert (rep + more)[..8] == rep[..8] && (rep + more)[8..12] == rep[8..12];
  }

  lemma OneMore(ops: seq<Operation>, op: Operation)
    ensures EncodeOperations(ops + [op]) == EncodeOperations(ops) + EncodeOperation(op)
  {
    assert (ops + [op])[..|ops|] == ops;
  }

  datatype Parsed = Parsed(op: Operation, rest: Bytes) | Bad

  /** The operation at the start of the input. */
  function ReadOperation(s: Bytes): (p: Parsed)
    requires s != []
    ensures p.Parsed? ==> |p.rest| < |s|
  {
    var rest := s[1..];
    if s[0] == 1 then
      match GetLengthPrefixedSlice(rest)
      case None => Bad
      case Some(key) =>
        match GetLengthPrefixedSlice(key.rest)
        case None => Bad
        case Some(value) =>
          if |value.rest| <= |rest| then Parsed(Put(key.contents, value.contents), value.rest) else Bad
    else if s[0] == 0 then
      match GetLengthPrefixedSlice(rest)
      case None => Bad
      case Some(key) => if |key.rest| <= |rest| then Parsed(Delete(key.contents), key.rest) else Bad
    else Bad
  }

  /** The operations of a batch that parses. */
  function ReadOperations(s: Bytes): Option<seq<Operation>>
    decreases |s|
  {
    if s == [] then Some([])
    else
      match ReadOperation(s)
      case Bad => None
      case Parsed(op, rest) =>
        match ReadOperations(rest)
        case None => None
        case Some(ops) => Some([op] + ops)
  }

  predicate OperationOk(op: Operation) {
    |op.key| < WORD32 && (op.Put? ==> |op.value| < WORD32)
  }

  lemma {:induction false} OperationRead(op: Operation, rest: Bytes)
    requires OperationOk(op)
    ensures EncodeOperation(op) + rest != [] && ReadOperation(EncodeOperation(op) + rest) == Parsed(op, rest)
  {
    match op {
      case Put(key, value) => PutRead(key, value, rest);
      case Delete(key) =>
        assert (EncodeOperation(op) + rest)[1..] == LengthPrefixed(key) + rest;
        LengthPrefixedRoundTrip(key, rest);
    }
  }

  lemma {:induction false} PutRead(key: Bytes, value: Bytes, rest: Bytes)
    requires |key| < WORD32 && |value| < WORD32
    ensures EncodeOperation(Put(key, value)) + rest != []
    ensures ReadOperation(EncodeOperation(Put(key, value)) + rest) == Parsed(Put(key, value), rest)
  {
    var a, b := LengthPrefixed(key), LengthPrefixed(value);
    var s := [1] + (a + b) + rest;
    assert s[1..] == a + (b + rest);
    LengthPrefixedRoundTrip(key, b + rest);
    LengthPrefixedRoundTrip(value, rest);
    assert |b + rest| <= |s[1..]| && |rest| <= |s[1..]|;
  }

  lemma {:induction false} OperationsConcat(a: seq<Operation>, b: seq<Operation>)
    ensures EncodeOperations(a + b) == EncodeOperations(a) + EncodeOperations(b)
    decreases |b|
  {
    if b == [] {
      assert a + b == a;
    } else {
      OperationsConcat(a, b[..|b| - 1]);
      assert (a + b)[..|a + b| - 1] == a + b[..|b| - 1];
      Associates(EncodeOperations(a), EncodeOperations(b[..|b| - 1]), EncodeOperation(b[|b| - 1]));
    }
  }

  /** The encoding read from the front. */
  lemma {:induction false} OperationsFromFront(op: Operation, ops: seq<Operation>)
    ensures EncodeOperations([op] + ops) == EncodeOperation(op) + EncodeOperations(ops)
  {
    OperationsConcat([op], ops);
    OneMore([], op);
    assert [] + [op] == [op] && EncodeOperations([]) + EncodeOperation(op) == EncodeOperation(op);
  }

  lemma {:induction false} OperationsRead(ops: seq<Operation>)
    requires forall op :: op in ops ==> OperationOk(op)
    ensures ReadOperations(EncodeOperations(ops)) == Some(ops)
  {
    if ops != [] {
      assert ops == [ops[0]] + ops[1..];
      OperationsFromFront(ops[0], ops[1..]);
      OperationRead(ops[0], EncodeOperations(ops[1..]));
      OperationsRead(ops[1..]);
    }
  }

  function AsAdded(sequence: nat, op: Operation): Added {
    match op
    case Put(key, value) => Added(sequence, Value, key, value)
    case Delete(key) => Added(sequence, ValueType.Deletion, key, [])
  }

  /** What applying a batch adds: the operations in order with consecutive sequence numbers. */
  function Applied(sequence: nat, ops: seq<Operation>): seq<Added>
    decreases |ops|
  {
    if ops == [] then [] else [AsAdded(sequence, ops[0])] + Applied(sequence + 1, ops[1..])
  }

  /** The entries of a memtable after the operations: one more for each, in order and with the next sequence number. */
  ghost predicate AddedInOrder(mem0: seq<Added>, mem: seq<Added>, sequence: nat, ops: seq<Operation>) {
    && |mem| == |mem0| + |ops| && mem[..|mem0|] == mem0
    && forall i :: 0 <= i < |ops| ==> Adds(ops[i], sequence + i, mem[|mem0| + i])
  }

  /** A put adds its value, a deletion a tombstone. */
  ghost predicate Adds(op: Operation, sequence: nat, e: Added) {
    && e.sequence == sequence && e.key == op.key
    && (op.Put? ==> e.kind.Value? && e.value == op.value)
    && (op.Delete? ==> e.kind.Deletion? && e.value == [])
  }

  lemma {:induction false} AppliedInOrder(mem0: seq<Added>, sequence: nat, ops: seq<Operation>)
    ensures AddedInOrder(mem0, mem0 + Applied(sequence, ops), sequence, ops)
    decreases |ops|
  {
    if ops != [] {
      var first := AsAdded(sequence, ops[0]);
      var rest := Applied(sequence + 1, ops[1..]);
      AppliedInOrder(mem0 + [first], sequence + 1, ops[1..]);
      var mem := mem0 + [first] + rest;
      assert mem0 + Applied(sequence, ops) == mem;
      forall i | 0 <= i < |ops| ensures Adds(ops[i], sequence + i, mem[|mem0| + i]) {
        if i > 0 {
          assert Adds(ops[1..][i - 1], sequence + 1 + (i - 1), mem[|mem0 + [first]| + (i - 1)]);
        }
      }
    }
  }

  /** What a read of a key finds at a sequence number. */
  ghost predicate IsNewest(mem: seq<Added>, key: Bytes, snapshot: nat, e: Added) {
    && e in mem && e.key == key && e.sequence <= snapshot
    && forall f :: f in mem && f.key == key && f.sequence <= snapshot ==> f == e || f.sequence < e.sequence
  }

  /** After a batch, a read at its last number finds the last of its operations on the key. */
  lemma {:induction false} LastOperationWins(mem0: seq<Added>, mem: seq<Added>, sequence: nat, ops: seq<Operation>,
                                             i: nat)
    requires AddedInOrder(mem0, mem, sequence, ops) && forall e :: e in mem0 ==> e.sequence < sequence
    requires i < |ops| && forall j :: i < j < |ops| ==> ops[j].key != ops[i].key
    ensures IsNewest(mem, ops[i].key, sequence + |ops| - 1, mem[|mem0| + i])
    ensures Adds(ops[i], sequence + i, mem[|mem0| + i])
  {
    var e := mem[|mem0| + i];
    assert Adds(ops[i], sequence + i, e);
    forall f | f in mem && f.key == e.key ensures f == e || f.sequence < e.sequence {
      var p :| 0 <= p < |mem| && mem[p] == f;
      if p < |mem0| {
        assert mem[..|mem0|][p] == f;
      } else {
        assert Adds(ops[p - |mem0|], sequence + (p - |mem0|), mem[|mem0| + (p - |mem0|)]);
      }
    }
  }

  /** Keys that the batch does not touch read as before. */
  lemma {:induction false} OtherKeysStay(mem0: seq<Added>, mem: seq<Added>, sequence: nat, ops: seq<Operation>,
                                         key: Bytes, snapshot: nat, e: Added)
    requires AddedInOrder(mem0, mem, sequence, ops) && forall op :: op in ops ==> op.key != key
    ensures IsNewest(mem, key, snapshot, e) <==> IsNewest(mem0, key, snapshot, e)
  {
    forall f | f in mem && f !in mem0 ensures exists op :: op in ops && op.key == f.key {
      FromOperation(mem0, mem, sequence, ops, f);
    }
    forall f | f in mem0 ensures f in mem {
      assert f in mem[..|mem0|];
    }
  }

  lemma FromOperation(mem0: seq<Added>, mem: seq<Added>, sequence: nat, ops: seq<Operation>, f: Added)
    requires AddedInOrder(mem0, mem, sequence, ops) && f in mem && f !in mem0
    ensures exists op :: op in ops && op.key == f.key
  {
    forall q | 0 <= q < |mem0| ensures mem[q] in mem0 {
      assert mem[..|mem0|][q] == mem[q];
    }
    var p :| 0 <= p < |mem| && mem[p] == f;
    var i := p - |mem0|;
    assert Adds(ops[i], sequence + i, mem[|mem0| + i]) && ops[i] in ops;
  }

  lemma {:induction false} OneAdded(rep: Bytes, sequence: nat, ops: seq<Operation>, op: Operation)
    requires Holds(rep, sequence, ops) && |ops| + 1 < WORD32 && OperationOk(op)
    ensures Holds(WithCount(rep, CountOf(rep) + 1) + EncodeOperation(op), sequence, ops + [op])
  {
    AppendKeepsHeader(WithCount(rep, CountOf(rep) + 1), EncodeOperation(op));
    OneMore(ops, op);
  }

  lemma {:induction false} Appended(rep: Bytes, sequence: nat, ops: seq<Operation>, src: Bytes, srcSequence: nat,
                                    srcOps: seq<Operation>)
    requires Holds(rep, sequence, ops) && Holds(src, srcSequence, srcOps) && |ops| + |srcOps| < WORD32
    ensures Holds(WithCount(rep, CountOf(rep) + CountOf(src)) + src[12..], sequence, ops + srcOps)
  {
    AppendKeepsHeader(WithCount(rep, CountOf(rep) + CountOf(src)), src[12..]);
    OperationsConcat(ops, srcOps);
  }

  lemma FourPieces(a: Bytes, b: Bytes, c: Bytes, d: Bytes)
    ensures a + b + c + d == a + (b + (c + d))
  {
    Associates(a + b, c, d);
    Associates(a, b, c + d);
  }

  datatype Status = Ok | Corruption

  class WriteBatch {
    var rep: Bytes
    ghost var sequence: nat
    ghost var ops: seq<Operation>

    constructor ()
      ensures Valid() && ops == [] && sequence == 0
    {
      Fixed64RoundTrip(0);
      Fixed32RoundTrip(0);
      var header := Fixed64(0) + Fixed32(0);
      assert header[..8] == Fixed64(0) && header[8..12] == Fixed32(0) && header[12..] == [];
      rep := header;
      sequence, ops := 0, [];
    }

    ghost predicate Valid()
      reads this
    {
      Holds(rep, sequence, ops)
    }

    method SetSequence(n: nat)
      requires Valid() && n < WORD64
      modifies this
      ensures Valid() && sequence == n && ops == old(ops)
    {
      rep := WithSequence(rep, n);
      sequence := n;
    }

    method Put(key: Bytes, value: Bytes)
      requires Valid() && |key| < WORD32 && |value| < WORD32 && |ops| + 1 < WORD32
      modifies this
      ensures Valid() && sequence == old(sequence) && ops == old(ops) + [Operation.Put(key, value)]
    {
      OneAdded(rep, sequence, ops, Operation.Put(key, value));
      var r := EncodedPut(WithCount(rep, CountOf(rep) + 1), key, value);
      rep, ops := r, ops + [Operation.Put(key, value)];
    }

    static method EncodedPut(rep: Bytes, key: Bytes, value: Bytes) returns (r: Bytes)
      ensures r == rep + EncodeOperation(Operation.Put(key, value))
    {
      r := rep + [1];
      r := r + LengthPrefixed(key);
      r := r + LengthPrefixed(value);
      FourPieces(rep, [1], LengthPrefixed(key), LengthPrefixed(value));
    }

    method Delete(key: Bytes)
      requires Valid() && |key| < WORD32 && |ops| + 1 < WORD32
      modifies this
      ensures Valid() && sequence == old(sequence) && ops == old(ops) + [Operation.Delete(key)]
    {
      OneAdded(rep, sequence, ops, Operation.Delete(key));
      var r := EncodedDelete(WithCount(rep, CountOf(rep) + 1), key);
      rep, ops := r, ops + [Operation.Delete(key)];
    }

    static method EncodedDelete(rep: Bytes, key: Bytes) returns (r: Bytes)
      ensures r == rep + EncodeOperation(Operation.Delete(key))
    {
      r := rep + [0];
      r := r + LengthPrefixed(key);
    }

    /** Appends the records of another batch. */
    method Append(src: WriteBatch)
      requires Valid() && src.Valid() && src != this && |ops| + |src.ops| < WORD32
      modifies this
      ensures Valid() && sequence == old(sequence) && ops == old(ops) + src.ops
    {
      rep := EncodedAppend(rep, sequence, ops, src.rep, src.sequence, src.ops);
      ops := ops + src.ops;
    }

    static method EncodedAppend(rep: Bytes, ghost sequence: nat, ghost ops: seq<Operation>,
                                src: Bytes, ghost srcSequence: nat, ghost srcOps: seq<Operation>)
      returns (r: Bytes)
      requires Holds(rep, sequence, ops) && Holds(src, srcSequence, srcOps) && |ops| + |srcOps| < WORD32
      ensures Holds(r, sequence, ops + srcOps)
    {
      Appended(rep, sequence, ops, src, srcSequence, srcOps);
      r := WithCount(rep, CountOf(rep) + CountOf(src)) + src[12..];
    }

    /** Adds the operations to a memtable, which is passed as the entries that it already has. */
    method InsertInto(mem0: seq<Added>) returns (mem: seq<Added>, status: Status)
      requires Valid()
      ensures status.Ok? && AddedInOrder(mem0, mem, sequence, ops)
    {
      OperationsRead(ops);
      mem, status := InsertBytes(rep, mem0);
    }
  }

  /** Iterates over any bytes; what does not parse or has a wrong count is reported. */
  method InsertBytes(rep: Bytes, mem0: seq<Added>) returns (mem: seq<Added>, status: Status)
    ensures status.Ok? <==>
              && |rep| >= HEADER && ReadOperations(rep[12..]).Some?
              && |ReadOperations(rep[12..]).value| == CountOf(rep)
    ensures status.Ok? ==> AddedInOrder(mem0, mem, SequenceOf(rep), ReadOperations(rep[12..]).value)
  {
    mem := mem0;
    if |rep| < HEADER {
      return mem, Corruption;
    }
    var input := rep[12..];
    var found: nat, sequence: nat := 0, SequenceOf(rep);
    ghost var all := ReadOperations(input);
    assert all.Some? ==> mem0 + Applied(sequence, all.value) == mem + Applied(sequence, all.value);
    while input != []
      invariant all.Some? <==> ReadOperations(input).Some?
      invariant all.Some? ==> |all.value| == found + |ReadOperations(input).value|
      invariant all.Some? ==>
                  mem0 + Applied(SequenceOf(rep), all.value) == mem + Applied(sequence, ReadOperations(input).value)
      decreases |input|
    {
      found := found + 1;
      var p := ReadOperation(input);
      if p.Bad? {
        return mem, Corruption;
      }
      ghost var rest := ReadOperations(p.rest);
      InsertStep(mem, sequence, p.op, if rest.Some? then rest.value else []);
      match p.op {
        case Put(key, value) => mem := mem + [Added(sequence, Value, key, value)];
        case Delete(key) => mem := mem + [Added(sequence, ValueType.Deletion, key, [])];
      }
      sequence := sequence + 1;
      input := p.rest;
    }
    assert mem + [] == mem;
    if all.Some? {
      AppliedInOrder(mem0, SequenceOf(rep), all.value);
    }
    status := if found != CountOf(rep) then Corruption else Ok;
  }

  lemma InsertStep(mem: seq<Added>, sequence: nat, op: Operation, rest: seq<Operation>)
    ensures mem + Applied(sequence, [op] + rest) == mem + [AsAdded(sequence, op)] + Applied(sequence + 1, rest)
  {
    assert ([op] + rest)[1..] == rest;
  }

  /** Applying appended batches is applying one after the other, the second from where the first ends. */
  lemma {:induction false} AppliedConcat(sequence: nat, a: seq<Operation>, b: seq<Operation>)
    ensures Applied(sequence, a + b) == Applied(sequence, a) + Applied(sequence + |a|, b)
    decreases |a|
  {
    if a == [] {
      assert a + b == b;
    } else {
      AppliedConcat(sequence + 1, a[1..], b);
      assert (a + b)[0] == a[0] && (a + b)[1..] == a[1..] + b;
      var first, later := [AsAdded(sequence, a[0])], Applied(sequence + 1, a[1..]);
      assert Applied(sequence, a) == first + later;
      assert first + (later + Applied(sequence + |a|, b)) == first + later + Applied(sequence + |a|, b);
    }
  }
}
