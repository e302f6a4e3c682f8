/**
 The writer queue: concurrent writers line up, the first one logs and applies a group of batches for
 itself and for followers, and wakes them with its own status.  Each step is what one thread does while
 it holds the lock, or one action on the log or the memtable while it does not.
 */
module GroupCommit {
  import opened InternalKeys

  /** What a client asks for; a missing batch only waits for its turn. */
  datatype Request = Request(batch: Option<seq<Op>>, sync: bool, byteSize: nat)

  datatype Status = Ok | Failed

  datatype Record = Record(sequence: nat, ops: seq<Op>)

  datatype Applied = Applied(sequence: nat, op: Op)

  datatype Phase = MakingRoom | Logging | Syncing | Applying | Finishing

  /** The writer at the front of the queue, with the first `count` writers as its group. */
  datatype Leader = Leader(phase: Phase, count: nat, record: Option<Record>, logged: bool, status: Status, applied: nat)

  /**
     A group that has left the queue: the writers from `start` on.  `base` counts the sequence numbers and
     `logIndex` the records before it.
   */
  datatype Group = Group(start: nat, count: nat, base: nat, logIndex: nat, record: Option<Record>, logged: bool,
                         status: Status)

  /**
     Writers are numbered by arrival.  Those before `front` have left the queue and have an outcome, which is
     what their call returns; the others are the queue.  `groups` and `synced` record what has happened.
   */
  datatype State = State(
    requests: seq<Request>, front: nat, outcomes: seq<Status>, leader: Option<Leader>,
    firstSequence: nat, lastSequence: nat, log: seq<Record>, synced: nat, mem: seq<Applied>,
    backgroundError: bool, groups: seq<Group>)

  datatype Step =
    | Enqueue(request: Request)
    | TakeLead
    | MakeRoom(ok: bool)
    | LogRecord(ok: bool)
    | SyncLog(ok: bool)
    | ApplyNext
    | Finish

  const SMALL_WRITE: nat := 0x2_0000

  function MaxGroupSize(first: nat): nat {
    if first <= SMALL_WRITE then first + SMALL_WRITE else 0x10_0000
  }

  /** How far the group reaches, when it has reached `end` and its batches take `size` bytes. */
  function Joined(requests: seq<Request>, end: nat, size: nat, maxSize: nat, sync: bool): nat
    decreases if end < |requests| then |requests| - end else 0
  {
    if end >= |requests| then end
    else if requests[end].sync && !sync then end
    else if requests[end].batch.None? then Joined(requests, end + 1, size, maxSize, sync)
    else if size + requests[end].byteSize > maxSize then end
    else Joined(requests, end + 1, size + requests[end].byteSize, maxSize, sync)
  }

  /** The end of the group led by the writer at `front`. */
  function GroupEnd(requests: seq<Request>, front: nat): nat
    requires front < |requests|
  {
    var first := requests[front];
    Joined(requests, front + 1, first.byteSize, MaxGroupSize(first.byteSize), first.sync)
  }

  function BatchOps(r: Request): seq<Op> {
    if r.batch.Some? then r.batch.value else []
  }

  /** The operations of the writers from `start` to `end`. */
  function Ops(requests: seq<Request>, start: nat, end: nat): seq<Op>
    requires start <= end <= |requests|
  {
    if start == end then [] else Ops(requests, start, end - 1) + BatchOps(requests[end - 1])
  }

  /** The bytes of their batches. */
  function TotalSize(requests: seq<Request>, start: nat, end: nat): nat
    requires start <= end <= |requests|
  {
    if start == end then 0
    else TotalSize(requests, start, end - 1) + if requests[end - 1].batch.Some? then requests[end - 1].byteSize else 0
  }

  lemma {:induction false} OpsStay(a: seq<Request>, b: seq<Request>, start: nat, end: nat)
    requires a <= b && start <= end <= |a|
    ensures Ops(b, start, end) == Ops(a, start, end)
  {
    if start < end {
      OpsStay(a, b, start, end - 1);
    }
  }

  /**
     The batches of the writers from `start` to `end` lie in `ops` one after the other, whole, in queue order
     and with nothing between them; `cuts` tells where each begins.
   */
  ghost predicate Laid(requests: seq<Request>, start: nat, end: nat, cuts: seq<nat>, ops: seq<Op>)
    requires start <= end <= |requests|
  {
    && |cuts| == end - start + 1 && cuts[0] == 0 && cuts[end - start] == |ops|
    && forall i :: start <= i < end ==> LaidAt(requests, start, cuts, ops, i)
  }

  /** The batch of writer `i` is the slice between two cuts; a writer without one takes no room. */
  ghost predicate LaidAt(requests: seq<Request>, start: nat, cuts: seq<nat>, ops: seq<Op>, i: nat)
    requires start <= i < |requests| && i - start + 1 < |cuts|
  {
    var from, to := cuts[i - start], cuts[i - start + 1];
    && from <= to <= |ops|
    && match requests[i].batch
       case Some(batch) => ops[from..to] == batch
       case None => from == to
  }

  /** The operations of a group are its batches, whole and in queue order. */
  lemma {:induction false} OpsAreBatches(requests: seq<Request>, start: nat, end: nat) returns (cuts: seq<nat>)
    requires start <= end <= |requests|
    ensures Laid(requests, start, end, cuts, Ops(requests, start, end))
  {
    if start == end {
      cuts := [0];
    } else {
      var ops := Ops(requests, start, end - 1);
      var before := OpsAreBatches(requests, start, end - 1);
      cuts := OneMoreBatch(requests, start, end - 1, before, ops, BatchOps(requests[end - 1]));
    }
  }

  lemma OneMoreBatch(requests: seq<Request>, start: nat, end: nat, before: seq<nat>, ops: seq<Op>, batch: seq<Op>)
    returns (cuts: seq<nat>)
    requires start <= end < |requests| && Laid(requests, start, end, before, ops)
    requires batch == if requests[end].batch.Some? then requests[end].batch.value else []
    ensures Laid(requests, start, end + 1, cuts, ops + batch)
  {
    var all := ops + batch;
    cuts := before + [|all|];
    forall i | start <= i < end ensures LaidAt(requests, start, cuts, all, i) {
      assert LaidAt(requests, start, before, ops, i);
      SliceStays(ops, batch, before[i - start], before[i - start + 1]);
    }
    assert all[|ops|..] == batch;
  }

  lemma SliceStays(ops: seq<Op>, more: seq<Op>, from: nat, to: nat)
    requires from <= to <= |ops|
    ensures (ops + more)[from..to] == ops[from..to]
  {
  }

  lemma {:induction false} OpsConcat(requests: seq<Request>, start: nat, middle: nat, end: nat)
    requires start <= middle <= end <= |requests|
    ensures Ops(requests, start, end) == Ops(requests, start, middle) + Ops(requests, middle, end)
  {
    if middle < end {
      OpsConcat(requests, start, middle, end - 1);
    }
  }

  lemma {:induction false} JoinedHolds(requests: seq<Request>, front: nat, end: nat, size: nat, maxSize: nat,
                                       sync: bool)
    requires front < end <= |requests| && size == TotalSize(requests, front, end)
    requires !sync ==> forall i :: front <= i < end ==> !requests[i].sync
    ensures var n := Joined(requests, end, size, maxSize, sync);
            && end <= n <= |requests|
            && (!sync ==> forall i :: front <= i < n ==> !requests[i].sync)
            && (TotalSize(requests, front, n) <= maxSize || TotalSize(requests, front, n) == size)
            && (n < |requests| ==>
                  || (requests[n].sync && !sync)
                  || (requests[n].batch.Some? && TotalSize(requests, front, n) + requests[n].byteSize > maxSize))
    decreases |requests| - end
  {
    if end < |requests| {
      var r := requests[end];
      if !(r.sync && !sync) {
        if r.batch.None? {
          JoinedHolds(requests, front, end + 1, size, maxSize, sync);
        } else if size + r.byteSize <= maxSize {
          JoinedHolds(requests, front, end + 1, size + r.byteSize, maxSize, sync);
        }
      }
    }
  }

  /** The group is the longest run of writers that neither breaks the sync rule nor grows too big. */
  lemma {:induction false} GroupIsLongest(requests: seq<Request>, front: nat)
    requires front < |requests| && requests[front].batch.Some?
    ensures var n, size := GroupEnd(requests, front), requests[front].byteSize;
            && front < n <= |requests|
            && (forall i :: front <= i < n && requests[i].sync ==> requests[front].sync)
            && (TotalSize(requests, front, n) <= MaxGroupSize(size) || TotalSize(requests, front, n) == size)
            && (n < |requests| ==>
                  || (requests[n].sync && !requests[front].sync)
                  || (requests[n].batch.Some?
                        && TotalSize(requests, front, n) + requests[n].byteSize > MaxGroupSize(size)))
  {
    var first := requests[front];
    assert TotalSize(requests, front, front) == 0;
    assert TotalSize(requests, front, front + 1) == first.byteSize;
    JoinedHolds(requests, front, front + 1, first.byteSize, MaxGroupSize(first.byteSize), first.sync);
  }

  /** Collects the batches of the group. */
  method BuildBatchGroup(requests: seq<Request>, front: nat) returns (result: seq<Op>, end: nat, ghost cuts: seq<nat>)
    requires front < |requests| && requests[front].batch.Some?
    ensures end == GroupEnd(requests, front) && front < end <= |requests|
    ensures result == Ops(requests, front, end)
    ensures Laid(requests, front, end, cuts, result)
  {
    GroupIsLongest(requests, front);
    var first := requests[front];
    result := first.batch.value;
    var size: nat := first.byteSize;
    var maxSize: nat := 0x10_0000;
    if size <= SMALL_WRITE {
      maxSize := size + SMALL_WRITE;
    }
    end := front + 1;
    assert Ops(requests, front, end) == Ops(requests, front, front) + BatchOps(first);
    while end < |requests|
      invariant front < end <= |requests|
      invariant GroupEnd(requests, front) == Joined(requests, end, size, maxSize, first.sync)
      invariant result == Ops(requests, front, end)
    {
      var w := requests[end];
      if w.sync && !first.sync {
        // A sync write does not join a batch handled by a non-sync write.
        break;
      }
      if w.batch.Some? {
        if size + w.byteSize > maxSize {
          break;
        }
        size := size + w.byteSize;
        result := result + w.batch.value;
      }
      end := end + 1;
    }
    cuts := OpsAreBatches(requests, front, end);
  }

  /** Operations in order with consecutive sequence numbers. */
  function NumberedFrom(first: nat, ops: seq<Op>): seq<Applied> {
    if ops == [] then [] else NumberedFrom(first, ops[..|ops| - 1]) + [Applied(first + |ops| - 1, ops[|ops| - 1])]
  }

  lemma {:induction false} NumberedConcat(first: nat, a: seq<Op>, b: seq<Op>)
    ensures NumberedFrom(first, a) + NumberedFrom(first + |a|, b) == NumberedFrom(first, a + b)
    decreases |b|
  {
    if b == [] {
      assert a + b == a;
    } else {
      NumberedConcat(first, a, b[..|b| - 1]);
      assert (a + b)[..|a + b| - 1] == a + b[..|b| - 1];
    }
  }

  lemma {:induction false} NumbersInRange(first: nat, ops: seq<Op>)
    ensures forall e :: e in NumberedFrom(first, ops) ==> first <= e.sequence < first + |ops|
  {
    if ops != [] {
      NumbersInRange(first, ops[..|ops| - 1]);
    }
  }

  predicate Enabled(s: State, step: Step) {
    match step
    case Enqueue(request) => true
    case TakeLead => s.leader.None? && s.front < |s.requests|
    case MakeRoom(ok) => s.leader.Some? && s.leader.value.phase.MakingRoom? && s.front < |s.requests|
    case LogRecord(ok) => s.leader.Some? && s.leader.value.phase.Logging? && s.leader.value.record.Some?
          && s.front < |s.requests|
    case SyncLog(ok) => s.leader.Some? && s.leader.value.phase.Syncing?
    case ApplyNext => s.leader.Some? && s.leader.value.phase.Applying? && s.leader.value.record.Some?
    case Finish => s.leader.Some? && s.leader.value.phase.Finishing?
  }

  /** Once there is room, the group is formed under the lock. */
  function AfterRoom(s: State, l: Leader, ok: bool): Leader
    requires s.front < |s.requests|
  {
    if s.backgroundError || !ok then l.(phase := Finishing, status := Failed)
    else if s.requests[s.front].batch.None? then l.(phase := Finishing)
    else
      GroupIsLongest(s.requests, s.front);
      var end := GroupEnd(s.requests, s.front);
      l.(phase := Logging, count := end - s.front,
          record := Some(Record(s.lastSequence + 1, Ops(s.requests, s.front, end))))
  }

  /** Pops the members one by one and gives each the leader's status. */
  function Woken(outcomes: seq<Status>, count: nat, status: Status): (r: seq<Status>)
    ensures |r| == |outcomes| + count
    ensures forall i :: 0 <= i < |outcomes| ==> r[i] == outcomes[i]
    ensures forall i :: |outcomes| <= i < |r| ==> r[i] == status
  {
    if count == 0 then outcomes else Woken(outcomes, count - 1, status) + [status]
  }

  function RecordCount(record: Option<Record>): nat {
    if record.Some? then |record.value.ops| else 0
  }

  function GroupOf(s: State, l: Leader): Group {
    Group(s.front, l.count, if s.lastSequence >= s.firstSequence then s.lastSequence - s.firstSequence else 0,
          if l.logged && |s.log| > 0 then |s.log| - 1 else |s.log|, l.record, l.logged, l.status)
  }

  function Finished(s: State, l: Leader): State {
    s.(leader := None,
       lastSequence := s.lastSequence + RecordCount(l.record),
       backgroundError := s.backgroundError || (l.logged && l.status.Failed?),
       front := s.front + l.count,
       outcomes := Woken(s.outcomes, l.count, l.status),
       groups := s.groups + [GroupOf(s, l)])
  }

  function Apply(s: State, step: Step): State
    requires Enabled(s, step)
  {
    match step
    case Enqueue(request) => s.(requests := s.requests + [request])
    case TakeLead => s.(leader := Some(Leader(MakingRoom, 1, None, false, Ok, 0)))
    case MakeRoom(ok) => s.(leader := Some(AfterRoom(s, s.leader.value, ok)))
    case LogRecord(ok) =>
      var l := s.leader.value;
      if ok then
        s.(log := s.log + [l.record.value],
           leader := Some(l.(logged := true, phase := if s.requests[s.front].sync then Syncing else Applying)))
      else s.(leader := Some(l.(status := Failed, phase := Finishing)))
    case SyncLog(ok) =>
      var l := s.leader.value;
      if ok then s.(synced := |s.log|, leader := Some(l.(phase := Applying)))
      else s.(leader := Some(l.(status := Failed, phase := Finishing)))
    case ApplyNext =>
      var l := s.leader.value;
      var ops := l.record.value.ops;
      if l.applied < |ops| then
        s.(mem := s.mem + [Applied(l.record.value.sequence + l.applied, ops[l.applied])],
            leader := Some(l.(applied := l.applied + 1)))
      else s.(leader := Some(l.(phase := Finishing)))
    case Finish => Finished(s, s.leader.value)
  }

  ghost predicate Initial(s: State) {
    && s.requests == [] && s.front == 0 && s.outcomes == [] && s.leader == None
    && s.lastSequence == s.firstSequence && s.log == [] && s.synced == 0 && s.mem == []
    && !s.backgroundError && s.groups == []
  }

  /** The records that reached the log. */
  function LoggedBy(groups: seq<Group>): seq<Record> {
    if groups == [] then []
    else
      var g := groups[|groups| - 1];
      LoggedBy(groups[..|groups| - 1]) + if g.logged && g.record.Some? then [g.record.value] else []
  }

  function AppliedBy(groups: seq<Group>): seq<Applied> {
    if groups == [] then []
    else
      var g := groups[|groups| - 1];
      AppliedBy(groups[..|groups| - 1])
      + if g.status.Ok? && g.record.Some? then NumberedFrom(g.record.value.sequence, g.record.value.ops) else []
  }

  /** The groups follow each other without gaps, in the queue, in the sequence numbers and in the log. */
  ghost predicate Chained(groups: seq<Group>, front: nat, total: nat) {
    if groups == [] then front == 0 && total == 0
    else
      var g := groups[|groups| - 1];
      && g.count > 0 && front == g.start + g.count
      && total == g.base + RecordCount(g.record)
      && g.logIndex == |LoggedBy(groups[..|groups| - 1])|
      && Chained(groups[..|groups| - 1], g.start, g.base)
  }

  /** The writers from `start` on agree with their group. */
  ghost predicate GroupOk(requests: seq<Request>, outcomes: seq<Status>, firstSequence: nat, synced: nat, g: Group) {
    && g.count > 0 && g.start + g.count <= |requests| && g.start + g.count <= |outcomes|
    && (forall i :: g.start <= i < g.start + g.count ==> outcomes[i] == g.status)
    && (g.record.Some? ==>
          g.record.value == Record(firstSequence + g.base + 1, Ops(requests, g.start, g.start + g.count)))
    && SyncRule(requests, g.start, g.count)
    && (g.logged ==> g.record.Some?)
    && (g.status.Ok? && g.record.Some? ==> g.logged && (requests[g.start].sync ==> g.logIndex < synced))
    && (g.status.Ok? && g.record.None? ==> g.count == 1 && requests[g.start].batch.None?)
  }

  /** A group led by a non-sync writer has no sync writer. */
  ghost predicate SyncRule(requests: seq<Request>, start: nat, count: nat)
    requires 0 < count && start + count <= |requests|
  {
    forall i :: start <= i < start + count && requests[i].sync ==> requests[start].sync
  }

  ghost predicate SyncFailed(g: Group) {
    g.logged && g.status.Failed?
  }

  ghost predicate QueueInv(s: State) {
    && s.front <= |s.requests| && |s.outcomes| == s.front
    && s.firstSequence <= s.lastSequence
    && Chained(s.groups, s.front, s.lastSequence - s.firstSequence)
  }

  ghost predicate GroupsInv(s: State) {
    forall g :: g in s.groups ==> GroupOk(s.requests, s.outcomes, s.firstSequence, s.synced, g)
  }

  ghost predicate ErrorInv(s: State) {
    && (forall g :: g in s.groups && SyncFailed(g) ==> s.backgroundError)
    && (forall i, j :: 0 <= i < j < |s.groups| && SyncFailed(s.groups[i]) ==> s.groups[j].status.Failed?)
    && (s.leader.Some? && s.backgroundError ==>
          s.leader.value.record.None? && (s.leader.value.phase.Finishing? ==> s.leader.value.status.Failed?))
  }

  ghost predicate LeaderInv(s: State, l: Leader) {
    && 0 < l.count && s.front + l.count <= |s.requests|
    && (l.record.Some? ==> l.record.value == Record(s.lastSequence + 1, Ops(s.requests, s.front, s.front + l.count)))
    && SyncRule(s.requests, s.front, l.count)
    && PhaseInv(l, s.requests[s.front], s.synced, |s.log|)
  }

  ghost predicate PhaseInv(l: Leader, first: Request, synced: nat, logged: nat) {
    match l.phase
    case MakingRoom => l.count == 1 && l.record.None? && !l.logged && l.status.Ok? && l.applied == 0
    case Logging => l.record.Some? && !l.logged && l.status.Ok? && l.applied == 0
    case Syncing => l.record.Some? && l.logged && l.status.Ok? && l.applied == 0 && first.sync
    case Applying =>
      && l.record.Some? && l.logged && l.status.Ok? && l.applied <= |l.record.value.ops|
      && (first.sync ==> synced == logged)
    case Finishing =>
      && (l.logged ==> l.record.Some?)
      && (l.status.Failed? ==> l.applied == 0)
      && (l.status.Ok? && l.record.None? ==> l.count == 1 && first.batch.None? && l.applied == 0)
      && (l.status.Ok? && l.record.Some? ==>
            l.logged && l.applied == |l.record.value.ops| && (first.sync ==> synced == logged))
  }

  /** What the leader has logged so far. */
  function InLog(s: State): seq<Record> {
    if s.leader.Some? && s.leader.value.logged && s.leader.value.record.Some? then [s.leader.value.record.value] else []
  }

  /** What the leader has applied so far. */
  function InFlight(s: State): seq<Applied> {
    if s.leader.Some? && s.leader.value.record.Some? && s.leader.value.applied <= |s.leader.value.record.value.ops| then
      NumberedFrom(s.leader.value.record.value.sequence, s.leader.value.record.value.ops[..s.leader.value.applied])
    else []
  }

  ghost predicate LogInv(s: State) {
    && s.log == LoggedBy(s.groups) + InLog(s)
    && s.mem == AppliedBy(s.groups) + InFlight(s)
    && s.synced <= |s.log|
  }

  ghost predicate Inv(s: State) {
    && QueueInv(s)
    && GroupsInv(s)
    && ErrorInv(s)
    && (s.leader.Some? ==> LeaderInv(s, s.leader.value))
    && LogInv(s)
  }

  /** What is settled for a group stays so. */
  lemma {:induction false} GroupStays(s: State, t: State, g: Group)
    requires s.requests <= t.requests && s.outcomes <= t.outcomes && s.firstSequence == t.firstSequence
            && s.synced <= t.synced
    requires GroupOk(s.requests, s.outcomes, s.firstSequence, s.synced, g)
    ensures GroupOk(t.requests, t.outcomes, t.firstSequence, t.synced, g)
  {
    OpsStay(s.requests, t.requests, g.start, g.start + g.count);
  }

  lemma {:induction false} GroupsStay(s: State, t: State)
    requires s.requests <= t.requests && s.outcomes <= t.outcomes && s.firstSequence == t.firstSequence
            && s.synced <= t.synced
    requires GroupsInv(s) && t.groups == s.groups
    ensures GroupsInv(t)
  {
    forall g | g in t.groups ensures GroupOk(t.requests, t.outcomes, t.firstSequence, t.synced, g) {
      GroupStays(s, t, g);
    }
  }

  lemma {:induction false} EnqueueKeepsInv(s: State, request: Request)
    requires Inv(s)
    ensures Inv(Apply(s, Enqueue(request)))
  {
    var t := Apply(s, Enqueue(request));
    GroupsStay(s, t);
    if s.leader.Some? {
      OpsStay(s.requests, t.requests, s.front, s.front + s.leader.value.count);
    }
  }

  lemma {:induction false} MakeRoomKeepsInv(s: State, ok: bool)
    requires Inv(s) && Enabled(s, MakeRoom(ok))
    ensures Inv(Apply(s, MakeRoom(ok)))
  {
    var t := Apply(s, MakeRoom(ok));
    GroupsStay(s, t);
    RoomKeepsLeader(s, ok);
    assert InFlight(t) == [];
  }

  lemma {:induction false} RoomKeepsLeader(s: State, ok: bool)
    requires Inv(s) && Enabled(s, MakeRoom(ok))
    ensures LeaderInv(Apply(s, MakeRoom(ok)), AfterRoom(s, s.leader.value, ok))
    ensures var m := AfterRoom(s, s.leader.value, ok); m.applied == 0 && !m.logged
  {
    var m := AfterRoom(s, s.leader.value, ok);
    if m.phase.Logging? {
      GroupIsLongest(s.requests, s.front);
    }
  }

  lemma {:induction false} LogRecordKeepsInv(s: State, ok: bool)
    requires Inv(s) && Enabled(s, LogRecord(ok))
    ensures Inv(Apply(s, LogRecord(ok)))
  {
    var t := Apply(s, LogRecord(ok));
    GroupsStay(s, t);
    LogRecordKeepsLog(s, ok);
    LogRecordKeepsLeader(s, ok);
  }

  lemma LogRecordKeepsLeader(s: State, ok: bool)
    requires Enabled(s, LogRecord(ok)) && LeaderInv(s, s.leader.value)
    ensures LeaderInv(Apply(s, LogRecord(ok)), Apply(s, LogRecord(ok)).leader.value)
  {
  }

  lemma {:induction false} LogRecordKeepsLog(s: State, ok: bool)
    requires LogInv(s) && Enabled(s, LogRecord(ok)) && !s.leader.value.logged && s.leader.value.applied == 0
    ensures LogInv(Apply(s, LogRecord(ok)))
  {
    var t := Apply(s, LogRecord(ok));
    assert InFlight(t) == [] && InFlight(s) == [] && InLog(s) == [];
  }

  lemma {:induction false} SyncLogKeepsInv(s: State, ok: bool)
    requires Inv(s) && Enabled(s, SyncLog(ok))
    ensures Inv(Apply(s, SyncLog(ok)))
  {
    var t := Apply(s, SyncLog(ok));
    GroupsStay(s, t);
    assert InFlight(t) == [] && InFlight(s) == [] && InLog(t) == InLog(s);
  }

  lemma {:induction false} ApplyNextKeepsInv(s: State)
    requires Inv(s) && Enabled(s, ApplyNext)
    ensures Inv(Apply(s, ApplyNext))
  {
    var t := Apply(s, ApplyNext);
    GroupsStay(s, t);
    ApplyKeepsLog(s);
    ApplyKeepsLeader(s);
  }

  lemma ApplyKeepsLeader(s: State)
    requires Enabled(s, ApplyNext) && LeaderInv(s, s.leader.value)
    ensures LeaderInv(Apply(s, ApplyNext), Apply(s, ApplyNext).leader.value)
  {
  }

  lemma {:induction false} ApplyKeepsLog(s: State)
    requires LogInv(s) && Enabled(s, ApplyNext) && s.leader.value.logged
    requires s.leader.value.applied <= |s.leader.value.record.value.ops|
    ensures LogInv(Apply(s, ApplyNext))
  {
    assert InLog(Apply(s, ApplyNext)) == InLog(s);
    var es := ApplyAddsNext(s);
    assert AppliedBy(s.groups) + InFlight(s) + es == AppliedBy(s.groups) + (InFlight(s) + es);
  }

  lemma {:induction false} ApplyAddsNext(s: State) returns (es: seq<Applied>)
    requires Enabled(s, ApplyNext) && s.leader.value.applied <= |s.leader.value.record.value.ops|
    ensures Apply(s, ApplyNext).mem == s.mem + es && InFlight(Apply(s, ApplyNext)) == InFlight(s) + es
  {
    es := [];
    var l, t := s.leader.value, Apply(s, ApplyNext);
    var ops := l.record.value.ops;
    if l.applied < |ops| {
      assert ops[..l.applied + 1][..l.applied] == ops[..l.applied];
      es := [Applied(l.record.value.sequence + l.applied, ops[l.applied])];
    }
  }

  lemma {:induction false} FinishKeepsQueue(s: State)
    requires Inv(s) && Enabled(s, Finish)
    ensures QueueInv(Apply(s, Finish))
  {
    var t := Apply(s, Finish);
    assert t.groups[..|s.groups|] == s.groups;
  }

  lemma {:induction false} FinishKeepsGroups(s: State)
    requires Inv(s) && Enabled(s, Finish)
    ensures GroupsInv(Apply(s, Finish))
  {
    var l, t := s.leader.value, Apply(s, Finish);
    forall g | g in t.groups ensures GroupOk(t.requests, t.outcomes, t.firstSequence, t.synced, g) {
      if g in s.groups {
        GroupStays(s, t, g);
      } else {
        assert g == GroupOf(s, l);
      }
    }
  }

  lemma {:induction false} FinishKeepsErrors(s: State)
    requires ErrorInv(s) && Enabled(s, Finish) && LeaderInv(s, s.leader.value)
    ensures ErrorInv(Apply(s, Finish))
  {
  }

  lemma {:induction false} FinishKeepsLog(s: State)
    requires LogInv(s) && Enabled(s, Finish) && LeaderInv(s, s.leader.value)
    ensures LogInv(Apply(s, Finish))
  {
    var l, t := s.leader.value, Apply(s, Finish);
    assert t.groups[..|s.groups|] == s.groups;
    assert InLog(t) == [] && InFlight(t) == [];
    if l.record.Some? {
      assert l.record.value.ops[..|l.record.value.ops|] == l.record.value.ops;
    }
  }

  /** Every step keeps the invariant. */
  lemma {:induction false} StepKeepsInv(s: State, step: Step)
    requires Inv(s) && Enabled(s, step)
    ensures Inv(Apply(s, step))
  {
    match step {
      case Enqueue(request) => EnqueueKeepsInv(s, request);
      case TakeLead => GroupsStay(s, Apply(s, step));
      case MakeRoom(ok) => MakeRoomKeepsInv(s, ok);
      case LogRecord(ok) => LogRecordKeepsInv(s, ok);
      case SyncLog(ok) => SyncLogKeepsInv(s, ok);
      case ApplyNext => ApplyNextKeepsInv(s);
      case Finish =>
        FinishKeepsQueue(s);
        FinishKeepsGroups(s);
        FinishKeepsErrors(s);
        FinishKeepsLog(s);
    }
  }

  ghost predicate IsRun(run: seq<State>, steps: seq<Step>) {
    && |run| == |steps| + 1
    && Initial(run[0])
    && forall i :: 0 <= i < |steps| ==> Enabled(run[i], steps[i]) && run[i + 1] == Apply(run[i], steps[i])
  }

  lemma {:induction false} RunKeepsInv(run: seq<State>, steps: seq<Step>, n: nat)
    requires IsRun(run, steps) && n < |run|
    ensures Inv(run[n])
  {
    if n > 0 {
      RunKeepsInv(run, steps, n - 1);
      StepKeepsInv(run[n - 1], steps[n - 1]);
    }
  }

  function RecordOps(records: seq<Record>): seq<Op> {
    if records == [] then [] else RecordOps(records[..|records| - 1]) + records[|records| - 1].ops
  }

  lemma RecordOpsAppend(records: seq<Record>, r: Record)
    ensures RecordOps(records + [r]) == RecordOps(records) + r.ops
  {
    assert (records + [r])[..|records|] == records;
  }

  ghost predicate NoErrors(s: State) {
    (forall g :: g in s.groups ==> g.status.Ok?) && (s.leader.Some? ==> s.leader.value.status.Ok?)
  }

  /** The operations of every writer that has left the queue, in order of arrival. */
  function FinishedOps(s: State): seq<Op> {
    if s.front <= |s.requests| then Ops(s.requests, 0, s.front) else []
  }

  /** The log and the memtable hold the operations of the writers that left the queue, and what the leader has done. */
  ghost predicate Complete(s: State) {
    && s.lastSequence == s.firstSequence + |FinishedOps(s)|
    && RecordOps(s.log) == FinishedOps(s) + RecordOps(InLog(s))
    && s.mem == NumberedFrom(s.firstSequence + 1, FinishedOps(s)) + InFlight(s)
  }

  lemma {:induction false} LogRecordKeepsComplete(s: State, ok: bool)
    requires Enabled(s, LogRecord(ok)) && LeaderInv(s, s.leader.value) && Complete(s) && ok
    ensures Complete(Apply(s, LogRecord(ok)))
  {
    var t := Apply(s, LogRecord(ok));
    RecordOpsAppend(s.log, s.leader.value.record.value);
    RecordOpsAppend([], s.leader.value.record.value);
    assert InLog(s) == [] && InFlight(s) == [] && InFlight(t) == [];
    assert InLog(t) == [] + [s.leader.value.record.value];
  }

  lemma {:induction false} ApplyNextKeepsComplete(s: State)
    requires Enabled(s, ApplyNext) && LeaderInv(s, s.leader.value) && Complete(s)
    ensures Complete(Apply(s, ApplyNext))
  {
    assert InLog(Apply(s, ApplyNext)) == InLog(s);
    var es := ApplyAddsNext(s);
    var mem := NumberedFrom(s.firstSequence + 1, FinishedOps(s));
    assert mem + InFlight(s) + es == mem + (InFlight(s) + es);
  }

  lemma LoggedAndApplied(s: State, r: Record)
    requires s.leader.Some? && s.leader.value.record == Some(r) && s.leader.value.logged
            && s.leader.value.applied == |r.ops|
    ensures RecordOps(InLog(s)) == r.ops && InFlight(s) == NumberedFrom(r.sequence, r.ops)
  {
    RecordOpsAppend([], r);
    assert InLog(s) == [] + [r];
    assert r.ops[..|r.ops|] == r.ops;
  }

  lemma NothingToLog(s: State)
    requires s.leader.Some? && s.leader.value.record.None?
    ensures InLog(s) == [] && InFlight(s) == []
  {
  }

  /** What the finishing leader adds to the finished operations is what it has logged and applied. */
  lemma {:induction false} FinishingOps(s: State) returns (more: seq<Op>)
    requires Enabled(s, Finish) && LeaderInv(s, s.leader.value) && s.leader.value.status.Ok?
    ensures FinishedOps(Apply(s, Finish)) == FinishedOps(s) + more
    ensures RecordOps(InLog(s)) == more
    ensures InFlight(s) == NumberedFrom(s.lastSequence + 1, more)
    ensures RecordCount(s.leader.value.record) == |more|
  {
    var l := s.leader.value;
    more := LeaderOps(s, l);
    FinishedOpsGrow(s, l);
    if l.record.Some? {
      LoggedAndApplied(s, l.record.value);
    } else {
      NothingToLog(s);
    }
  }

  lemma LeaderOps(s: State, l: Leader) returns (more: seq<Op>)
    requires LeaderInv(s, l) && l.status.Ok? && l.phase.Finishing?
    ensures more == Ops(s.requests, s.front, s.front + l.count)
    ensures l.record.Some? ==> l.record.value.ops == more && l.record.value.sequence == s.lastSequence + 1
    ensures l.record.None? ==> more == []
  {
    more := Ops(s.requests, s.front, s.front + l.count);
    if l.record.None? {
      assert more == Ops(s.requests, s.front, s.front) + BatchOps(s.requests[s.front]);
    }
  }

  lemma FinishedOpsGrow(s: State, l: Leader)
    requires s.front + l.count <= |s.requests|
    ensures FinishedOps(Finished(s, l)) == FinishedOps(s) + Ops(s.requests, s.front, s.front + l.count)
  {
    OpsConcat(s.requests, 0, s.front, s.front + l.count);
  }

  lemma {:induction false} FinishKeepsComplete(s: State)
    requires Enabled(s, Finish) && LeaderInv(s, s.leader.value) && Complete(s) && s.leader.value.status.Ok?
    ensures Complete(Apply(s, Finish))
  {
    var t := Apply(s, Finish);
    var more := FinishingOps(s);
    var ops := FinishedOps(s);
    NumberedConcat(s.firstSequence + 1, ops, more);
    assert InLog(t) == [] && InFlight(t) == [];
    var all := ops + more;
    assert FinishedOps(t) == all && all + [] == all;
    var numbered := NumberedFrom(s.firstSequence + 1, all);
    assert t.mem == numbered && numbered + [] == numbered;
  }

  lemma {:induction false} StepKeepsComplete(s: State, step: Step)
    requires Inv(s) && Enabled(s, step) && Complete(s) && NoErrors(Apply(s, step))
    ensures Complete(Apply(s, step))
  {
    var t := Apply(s, step);
    match step {
      case Enqueue(request) =>
        OpsStay(s.requests, t.requests, 0, s.front);
      case TakeLead => assert InLog(t) == InLog(s) && InFlight(t) == InFlight(s);
      case MakeRoom(ok) =>
        RoomKeepsLeader(s, ok);
        assert InLog(t) == InLog(s) && InFlight(t) == InFlight(s);
      case LogRecord(ok) => LogRecordKeepsComplete(s, ok);
      case SyncLog(ok) => assert InLog(t) == InLog(s) && InFlight(t) == InFlight(s);
      case ApplyNext => ApplyNextKeepsComplete(s);
      case Finish => FinishKeepsComplete(s);
    }
  }

  lemma {:induction false} ErrorsRemain(s: State, step: Step)
    requires Enabled(s, step) && !NoErrors(s) && (s.leader.Some? ==> LeaderInv(s, s.leader.value))
    ensures !NoErrors(Apply(s, step))
  {
    var t := Apply(s, step);
    if g :| g in s.groups && g.status.Failed? {
      assert g in t.groups;
    } else if step.Finish? {
      assert t.groups[|s.groups|] in t.groups;
    }
  }

  lemma {:induction false} RunKeepsComplete(run: seq<State>, steps: seq<Step>, n: nat)
    requires IsRun(run, steps) && n < |run| && NoErrors(run[n])
    ensures Complete(run[n])
  {
    if n > 0 {
      RunKeepsInv(run, steps, n - 1);
      if !NoErrors(run[n - 1]) {
        ErrorsRemain(run[n - 1], steps[n - 1]);
      }
      RunKeepsComplete(run, steps, n - 1);
      StepKeepsComplete(run[n - 1], steps[n - 1]);
    }
  }

  /**
     In every run without errors, when no leader is at work: the batches of the writers that have left the
     queue, each once and whole and in order of arrival, are what the records of the log hold one after
     the other, and what the memtable holds under consecutive sequence numbers up to the last one published.
   */
  lemma {:induction false} LoggedAndAppliedOnceInOrder(run: seq<State>, steps: seq<Step>, n: nat)
    returns (ops: seq<Op>, cuts: seq<nat>, starts: seq<nat>)
    requires IsRun(run, steps) && n < |run| && NoErrors(run[n]) && run[n].leader.None?
    ensures var s := run[n];
            && s.front <= |s.requests| && Laid(s.requests, 0, s.front, cuts, ops)
            && InRecords(s.log, s.firstSequence, starts, ops)
            && InMemtable(s.mem, s.firstSequence, ops)
            && s.lastSequence == s.firstSequence + |ops|
  {
    RunKeepsComplete(run, steps, n);
    RunKeepsInv(run, steps, n);
    ops, cuts, starts := AtRest(run[n]);
  }

  /** What the invariant comes to when nobody leads. */
  lemma AtRest(s: State) returns (ops: seq<Op>, cuts: seq<nat>, starts: seq<nat>)
    requires QueueInv(s) && GroupsInv(s) && LogInv(s) && Complete(s) && NoErrors(s) && s.leader.None?
    ensures Laid(s.requests, 0, s.front, cuts, ops)
    ensures InRecords(s.log, s.firstSequence, starts, ops)
    ensures InMemtable(s.mem, s.firstSequence, ops)
    ensures s.lastSequence == s.firstSequence + |ops|
  {
    ops := NothingUnderWay(s);
    cuts := OpsAreBatches(s.requests, 0, s.front);
    starts := RecordsFollow(s, s.groups, s.front, s.lastSequence - s.firstSequence);
    NumberedAt(s.firstSequence + 1, ops);
  }

  lemma NothingUnderWay(s: State) returns (ops: seq<Op>)
    requires s.front <= |s.requests| && LogInv(s) && Complete(s) && s.leader.None?
    ensures ops == Ops(s.requests, 0, s.front) && s.log == LoggedBy(s.groups)
    ensures s.mem == NumberedFrom(s.firstSequence + 1, ops) && s.lastSequence == s.firstSequence + |ops|
  {
    ops := FinishedOps(s);
    assert InLog(s) == [] && InFlight(s) == [];
    var numbered := NumberedFrom(s.firstSequence + 1, ops);
    assert numbered + [] == numbered && LoggedBy(s.groups) + [] == LoggedBy(s.groups);
  }

  /** The memtable holds the operations in order under consecutive sequence numbers. */
  ghost predicate InMemtable(mem: seq<Applied>, firstSequence: nat, ops: seq<Op>) {
    |mem| == |ops| && forall k :: 0 <= k < |ops| ==> mem[k] == Applied(firstSequence + 1 + k, ops[k])
  }

  /** The records of the log are consecutive pieces of the operations, each with the sequence number of its first. */
  ghost predicate InRecords(log: seq<Record>, firstSequence: nat, starts: seq<nat>, ops: seq<Op>) {
    && |starts| == |log| + 1 && starts[0] == 0 && starts[|log|] == |ops|
    && forall r :: 0 <= r < |log| ==> RecordAt(log, firstSequence, starts, ops, r)
  }

  ghost predicate RecordAt(log: seq<Record>, firstSequence: nat, starts: seq<nat>, ops: seq<Op>, r: nat)
    requires r < |log| && r + 1 < |starts|
  {
    && starts[r] <= starts[r + 1] <= |ops|
    && log[r] == Record(firstSequence + 1 + starts[r], ops[starts[r]..starts[r + 1]])
  }

  lemma {:induction false} NumberedAt(first: nat, ops: seq<Op>)
    ensures |NumberedFrom(first, ops)| == |ops|
    ensures forall k :: 0 <= k < |ops| ==> NumberedFrom(first, ops)[k] == Applied(first + k, ops[k])
  {
    if ops != [] {
      NumberedAt(first, ops[..|ops| - 1]);
    }
  }

  /** The records of finished groups, when none failed, divide the operations of the writers that left the queue. */
  lemma {:induction false} RecordsFollow(s: State, groups: seq<Group>, front: nat, total: nat)
    returns (starts: seq<nat>)
    requires Chained(groups, front, total) && front <= |s.requests|
    requires forall g :: g in groups ==> GroupOk(s.requests, s.outcomes, s.firstSequence, s.synced, g) && g.status.Ok?
    ensures InRecords(LoggedBy(groups), s.firstSequence, starts, Ops(s.requests, 0, front))
    ensures total == |Ops(s.requests, 0, front)|
  {
    if groups == [] {
      starts := [0];
    } else {
      var g := groups[|groups| - 1];
      assert g in groups;
      var init := groups[..|groups| - 1];
      var before := RecordsFollow(s, init, g.start, g.base);
      var ops, more := Ops(s.requests, 0, g.start), Ops(s.requests, g.start, front);
      OpsConcat(s.requests, 0, g.start, front);
      if g.record.Some? {
        starts := OneMoreRecord(LoggedBy(init), s.firstSequence, before, ops, g.record.value, more);
      } else {
        assert more == Ops(s.requests, g.start, g.start) + BatchOps(s.requests[g.start]);
        assert ops + more == ops && LoggedBy(init) + [] == LoggedBy(init);
        starts := before;
      }
    }
  }

  lemma OneMoreRecord(log: seq<Record>, firstSequence: nat, before: seq<nat>, ops: seq<Op>, r: Record, more: seq<Op>)
    returns (starts: seq<nat>)
    requires InRecords(log, firstSequence, before, ops) && r == Record(firstSequence + 1 + |ops|, more)
    ensures InRecords(log + [r], firstSequence, starts, ops + more)
  {
    starts := before + [|ops + more|];
    forall k | 0 <= k < |log| ensures RecordAt(log + [r], firstSequence, starts, ops + more, k) {
      assert RecordAt(log, firstSequence, before, ops, k);
      SliceStays(ops, more, before[k], before[k + 1]);
    }
    assert (ops + more)[|ops|..] == more;
  }

  lemma {:induction false} AppliedAreOld(s: State, groups: seq<Group>, front: nat, total: nat)
    requires Chained(groups, front, total)
    requires forall g :: g in groups ==> GroupOk(s.requests, s.outcomes, s.firstSequence, s.synced, g)
    ensures forall e :: e in AppliedBy(groups) ==> s.firstSequence < e.sequence <= s.firstSequence + total
  {
    if groups != [] {
      var g := groups[|groups| - 1];
      assert g in groups;
      AppliedAreOld(s, groups[..|groups| - 1], g.start, g.base);
      if g.record.Some? {
        NumbersInRange(g.record.value.sequence, g.record.value.ops);
      }
    }
  }

  /**
     Batches become visible whole: at every moment a reader at the last sequence sees exactly what the
     finished groups applied, and nothing of the group being applied.
   */
  lemma {:induction false} BatchesAreAtomic(run: seq<State>, steps: seq<Step>, n: nat)
    requires IsRun(run, steps) && n < |run|
    ensures var s := run[n];
            && s.mem == AppliedBy(s.groups) + InFlight(s)
            && (forall e :: e in AppliedBy(s.groups) ==> e.sequence <= s.lastSequence)
            && (forall e :: e in InFlight(s) ==> e.sequence > s.lastSequence)
  {
    RunKeepsInv(run, steps, n);
    var s := run[n];
    AppliedAreOld(s, s.groups, s.front, s.lastSequence - s.firstSequence);
    if InFlight(s) != [] {
      var l := s.leader.value;
      NumbersInRange(l.record.value.sequence, l.record.value.ops[..l.applied]);
    }
  }

  lemma {:induction false} LoggedIndex(groups: seq<Group>, front: nat, total: nat, i: nat)
    requires Chained(groups, front, total) && i < |groups| && groups[i].logged && groups[i].record.Some?
    ensures groups[i].logIndex < |LoggedBy(groups)| && LoggedBy(groups)[groups[i].logIndex] == groups[i].record.value
  {
    var last := groups[|groups| - 1];
    if i < |groups| - 1 {
      LoggedIndex(groups[..|groups| - 1], last.start, last.base, i);
    }
  }

  /**
     Every writer of a finished group gets its leader's status; a non-sync leader carries no sync writer;
     a group led by a sync writer that succeeded has its record in the synced part of the log; and after a
     failed sync no group succeeds.
   */
  lemma {:induction false} GroupsShareTheirFate(run: seq<State>, steps: seq<Step>, n: nat, i: nat)
    requires IsRun(run, steps) && n < |run| && i < |run[n].groups|
    ensures var s, g := run[n], run[n].groups[i];
            && 0 < g.count && g.start + g.count <= |s.outcomes| <= |s.requests|
            && (forall j :: g.start <= j < g.start + g.count ==> s.outcomes[j] == g.status)
            && (forall j :: g.start <= j < g.start + g.count && s.requests[j].sync ==> s.requests[g.start].sync)
            && (g.status.Ok? && g.record.Some? && s.requests[g.start].sync ==>
                  g.logIndex < s.synced && s.synced <= |s.log| && s.log[g.logIndex] == g.record.value)
            && (SyncFailed(g) ==> forall j :: i < j < |s.groups| ==> s.groups[j].status.Failed?)
  {
    RunKeepsInv(run, steps, n);
    var s, g := run[n], run[n].groups[i];
    assert g in s.groups;
    if g.status.Ok? && g.record.Some? {
      LoggedIndex(s.groups, s.front, s.lastSequence - s.firstSequence, i);
    }
  }
}
