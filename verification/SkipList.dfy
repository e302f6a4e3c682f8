/**
 The skip list under one writer and any number of lock-free readers, as interleaved steps: every load or
 store of a shared link is a step of its own, and a reader may have read any height, however old.
 */
module SkipLists {
  import opened InternalKeys

  const MAX_HEIGHT: nat := 12

  /** The head node or the node of a key. */
  datatype Place = Head | At(key: Key)

  datatype Slot = Slot(place: Place, level: nat)

  datatype Query =
    | AtOrAfter(target: Key)
    | BeforeKey(target: Key)
    | LastKey
    | AfterNode(key: Key)

  datatype Reader =
    | Resting
    | Searching(query: Query, x: Place, level: nat)
    | Done(query: Query, result: Option<Key>)

  datatype Writer =
    | Idle
    | Finding(key: Key, x: Place, level: nat, prev: map<nat, Place>)
    | FoundPlace(key: Key, prev: map<nat, Place>)
    | Linking(key: Key, height: nat, prev: map<nat, Place>, i: nat, stored: bool)

  /** `linked[i]` records the keys whose nodes were published at level `i`. */
  datatype State = State(maxHeight: nat, next: map<Slot, Option<Key>>, linked: seq<set<Key>>, writer: Writer,
                         readers: map<nat, Reader>)

  datatype Step =
    | StartSearch(reader: nat, query: Query, height: nat)
    | Load(reader: nat)
    | IteratorNext(reader: nat)
    | BeginInsert(key: Key)
    | WriterLoad
    | ChooseHeight(height: nat)
    | StoreNext
    | Publish

  predicate PlaceBefore(p: Place, k: Key) {
    p == Head || Less(p.key, k)
  }

  /** Whether a search at a node whose link is `next` goes on along its level. */
  predicate Advances(query: Query, next: Option<Key>) {
    match query
    case AtOrAfter(target) => next.Some? && Less(next.value, target)
    case BeforeKey(target) => next.Some? && Less(next.value, target)
    case LastKey => next.Some?
    case AfterNode(key) => false
  }

  /** What a search returns at the end of level 0: the next node, or the node itself with the head as none. */
  function ResultOf(query: Query, x: Place, next: Option<Key>): Option<Key> {
    if query.AtOrAfter? || query.AfterNode? then next else if x == Head then None else Some(x.key)
  }

  function AfterLoad(r: Reader, next: Option<Key>): Reader
    requires r.Searching?
  {
    if Advances(r.query, next) then r.(x := At(next.value))
    else if r.level == 0 then Done(r.query, ResultOf(r.query, r.x, next))
    else r.(level := r.level - 1)
  }

  function AfterWriterLoad(w: Writer, next: Option<Key>): Writer
    requires w.Finding?
  {
    if next.Some? && Less(next.value, w.key) then w.(x := At(next.value))
    else if w.level == 0 then FoundPlace(w.key, w.prev[w.level := w.x])
    else w.(level := w.level - 1, prev := w.prev[w.level := w.x])
  }

  /** New levels start from the head. */
  function WithHeads(prev: map<nat, Place>, from: nat, to: nat): (r: map<nat, Place>)
    ensures forall j: nat :: from <= j < to ==> j in r && r[j] == Head
    ensures forall j: nat :: (j in prev && (j < from || j >= to)) ==> j in r && r[j] == prev[j]
    decreases if from < to then to - from else 0
  {
    if from >= to then prev else WithHeads(prev, from + 1, to)[from := Head]
  }

  /** The keys in a level's list. */
  function KeysAt(s: State, level: nat): set<Key> {
    if level < |s.linked| then s.linked[level] else {}
  }

  predicate Enabled(s: State, step: Step) {
    match step
    case StartSearch(r, q, height) => 1 <= height <= MAX_HEIGHT && !q.AfterNode?
    case Load(r) => r in s.readers && s.readers[r].Searching? && Slot(s.readers[r].x, s.readers[r].level) in s.next
    case IteratorNext(r) => r in s.readers && s.readers[r].Done? && s.readers[r].result.Some?
          && Slot(At(s.readers[r].result.value), 0) in s.next
    case BeginInsert(key) => s.writer.Idle? && s.maxHeight > 0 && |s.linked| > 0 && key !in s.linked[0]
    case WriterLoad => s.writer.Finding? && Slot(s.writer.x, s.writer.level) in s.next
    case ChooseHeight(height) => s.writer.FoundPlace? && 1 <= height <= MAX_HEIGHT
    case StoreNext => s.writer.Linking? && !s.writer.stored && s.writer.i in s.writer.prev
          && Slot(s.writer.prev[s.writer.i], s.writer.i) in s.next
    case Publish => s.writer.Linking? && s.writer.stored && s.writer.i in s.writer.prev && s.writer.i < |s.linked|
  }

  function Apply(s: State, step: Step): State
    requires Enabled(s, step)
  {
    match step
    case StartSearch(r, q, height) => s.(readers := s.readers[r := Searching(q, Head, height - 1)])
    case Load(r) =>
      var next := s.next[Slot(s.readers[r].x, s.readers[r].level)];
      s.(readers := s.readers[r := AfterLoad(s.readers[r], next)])
    case IteratorNext(r) =>
      var key := s.readers[r].result.value;
      s.(readers := s.readers[r := Done(AfterNode(key), s.next[Slot(At(key), 0)])])
    case BeginInsert(key) => s.(writer := Finding(key, Head, s.maxHeight - 1, map[]))
    case WriterLoad => s.(writer := AfterWriterLoad(s.writer, s.next[Slot(s.writer.x, s.writer.level)]))
    case ChooseHeight(height) =>
      var w := s.writer;
      if height > s.maxHeight then
        s.(maxHeight := height, writer := Linking(w.key, height, WithHeads(w.prev, s.maxHeight, height), 0, false))
      else s.(writer := Linking(w.key, height, w.prev, 0, false))
    case StoreNext =>
      // The new node is not yet reachable at this level.
      var w := s.writer;
      s.(next := s.next[Slot(At(w.key), w.i) := s.next[Slot(w.prev[w.i], w.i)]], writer := w.(stored := true))
    case Publish =>
      var w := s.writer;
      s.(next := s.next[Slot(w.prev[w.i], w.i) := Some(w.key)],
         linked := s.linked[w.i := s.linked[w.i] + {w.key}],
         writer := if w.i + 1 == w.height then Idle else w.(i := w.i + 1, stored := false))
  }

  ghost predicate Initial(s: State) {
    && s.maxHeight == 1
    && |s.linked| == MAX_HEIGHT
    && s.writer == Idle
    && s.readers == map[]
    && forall i :: 0 <= i < MAX_HEIGHT ==> s.linked[i] == {} && Slot(Head, i) in s.next && s.next[Slot(Head, i)] == None
  }

  ghost predicate InList(S: set<Key>, p: Place) {
    p == Head || p.key in S
  }

  /** The least key after a place. */
  ghost predicate IsSuccessor(S: set<Key>, p: Place, next: Option<Key>) {
    && (next.Some? ==> next.value in S && PlaceBefore(p, next.value))
    && forall k :: k in S && PlaceBefore(p, k) ==> next.Some? && LessEq(next.value, k)
  }

  /** The greatest place before a key. */
  ghost predicate IsPredecessor(S: set<Key>, k: Key, p: Place) {
    && InList(S, p) && PlaceBefore(p, k)
    && forall other :: other in S && Less(other, k) ==> p.At? && LessEq(other, p.key)
  }

  /** The answer that a query should get from a set of keys. */
  ghost predicate Answers(query: Query, S: set<Key>, result: Option<Key>) {
    match query
    case AtOrAfter(target) =>
      && (result.Some? ==> result.value in S && LessEq(target, result.value))
      && forall k :: k in S && LessEq(target, k) ==> result.Some? && LessEq(result.value, k)
    case BeforeKey(target) =>
      && (result.Some? ==> result.value in S && Less(result.value, target))
      && forall k :: k in S && Less(k, target) ==> result.Some? && LessEq(k, result.value)
    case LastKey =>
      && (result.Some? ==> result.value in S)
      && forall k :: k in S ==> result.Some? && LessEq(k, result.value)
    case AfterNode(key) =>
      && (result.Some? ==> result.value in S && Less(key, result.value))
      && forall k :: k in S && Less(key, k) ==> result.Some? && LessEq(result.value, k)
  }

  /** The links of a level are those of the sorted list of its keys. */
  ghost predicate LevelLinked(s: State, i: nat)
    requires i < |s.linked|
  {
    forall p :: InList(s.linked[i], p) ==> Slot(p, i) in s.next && IsSuccessor(s.linked[i], p, s.next[Slot(p, i)])
  }

  ghost predicate ListsInv(s: State) {
    && |s.linked| == MAX_HEIGHT && 1 <= s.maxHeight <= MAX_HEIGHT
    && (forall i :: 0 <= i < MAX_HEIGHT ==> LevelLinked(s, i))
    && (forall i, j :: 0 <= i < j < MAX_HEIGHT ==> s.linked[j] <= s.linked[i])
    && (forall i :: s.maxHeight <= i < MAX_HEIGHT ==> s.linked[i] == {})
  }

  ghost predicate PrevOk(s: State, key: Key, prev: map<nat, Place>, from: nat, to: nat)
    requires |s.linked| == MAX_HEIGHT && to <= MAX_HEIGHT
  {
    forall j :: from <= j < to ==> j in prev && IsPredecessor(s.linked[j], key, prev[j])
  }

  ghost predicate WriterInv(s: State)
    requires |s.linked| == MAX_HEIGHT && 1 <= s.maxHeight <= MAX_HEIGHT
  {
    match s.writer
    case Idle => true
    case Finding(key, x, level, prev) =>
      && key !in s.linked[0] && level < s.maxHeight
      && InList(s.linked[level], x) && PlaceBefore(x, key)
      && PrevOk(s, key, prev, level + 1, s.maxHeight)
    case FoundPlace(key, prev) =>
      key !in s.linked[0] && PrevOk(s, key, prev, 0, s.maxHeight)
    case Linking(key, height, prev, i, stored) =>
      && i < height <= s.maxHeight
      && PrevOk(s, key, prev, i, height)
      && (forall j :: 0 <= j < MAX_HEIGHT ==> (key in s.linked[j] <==> j < i))
      && (stored ==>
            && Slot(At(key), i) in s.next && Slot(prev[i], i) in s.next
            && s.next[Slot(At(key), i)] == s.next[Slot(prev[i], i)])
  }

  ghost predicate ReaderInv(s: State, r: Reader)
    requires |s.linked| == MAX_HEIGHT
  {
    match r
    case Resting => true
    case Searching(q, x, level) =>
      && level < MAX_HEIGHT && InList(s.linked[level], x) && !q.AfterNode?
      && (q.AtOrAfter? || q.BeforeKey? ==> PlaceBefore(x, q.target))
    case Done(q, result) =>
      result.Some? ==> result.value in s.linked[0]
  }

  ghost predicate Inv(s: State) {
    && ListsInv(s)
    && WriterInv(s)
    && forall r :: r in s.readers ==> ReaderInv(s, s.readers[r])
  }

  lemma InitialInv(s: State)
    requires Initial(s)
    ensures Inv(s)
  {
    forall i | 0 <= i < MAX_HEIGHT ensures LevelLinked(s, i) {
    }
  }

  /** Keys are never unlinked. */
  ghost predicate Grows(s: State, t: State) {
    && |t.linked| == |s.linked|
    && forall i :: 0 <= i < |s.linked| ==> s.linked[i] <= t.linked[i]
  }

  lemma ReadersStay(s: State, t: State)
    requires |s.linked| == MAX_HEIGHT && Grows(s, t)
    ensures forall r: Reader :: ReaderInv(s, r) ==> ReaderInv(t, r)
  {
  }

  /** A load keeps the reader on its level's list. */
  lemma {:induction false} LoadKeepsReader(s: State, r: Reader)
    requires ListsInv(s) && r.Searching? && ReaderInv(s, r) && Slot(r.x, r.level) in s.next
    ensures ReaderInv(s, AfterLoad(r, s.next[Slot(r.x, r.level)]))
  {
    var next := s.next[Slot(r.x, r.level)];
    assert LevelLinked(s, r.level);
    assert IsSuccessor(s.linked[r.level], r.x, next);
    if !Advances(r.query, next) && r.level > 0 {
      assert s.linked[r.level] <= s.linked[r.level - 1];
    }
  }

  /** The last load of a search gives the answer for the keys in the list at that instant. */
  lemma {:induction false} LastLoadAnswers(s: State, r: Reader)
    requires ListsInv(s) && r.Searching? && ReaderInv(s, r) && Slot(r.x, r.level) in s.next
    ensures var after := AfterLoad(r, s.next[Slot(r.x, r.level)]);
            after.Done? ==> after.query == r.query && Answers(r.query, s.linked[0], after.result)
  {
    var next := s.next[Slot(r.x, r.level)];
    assert LevelLinked(s, r.level);
    assert IsSuccessor(s.linked[r.level], r.x, next);
    forall k | r.level == 0 && k in s.linked[0]
      ensures (r.x.At? && LessEq(k, r.x.key)) || (next.Some? && LessEq(next.value, k))
    {
      if r.x.At? {
        CompareIsTotalOrder(k, r.x.key);
      }
    }
    if next.Some? && (r.query.AtOrAfter? || r.query.BeforeKey?) {
      CompareIsTotalOrder(next.value, r.query.target);
    }
  }

  lemma {:induction false} WriterLoadKeepsInv(s: State)
    requires Inv(s) && Enabled(s, WriterLoad)
    ensures Inv(Apply(s, WriterLoad))
  {
    var w, t := s.writer, Apply(s, WriterLoad);
    var next := s.next[Slot(w.x, w.level)];
    assert LevelLinked(s, w.level);
    assert IsSuccessor(s.linked[w.level], w.x, next);
    if !(next.Some? && Less(next.value, w.key)) {
      forall other | other in s.linked[w.level] && Less(other, w.key) ensures w.x.At? && LessEq(other, w.x.key) {
        if w.x.At? {
          CompareIsTotalOrder(other, w.x.key);
        }
      }
      assert IsPredecessor(s.linked[w.level], w.key, w.x);
      if w.level > 0 {
        assert s.linked[w.level] <= s.linked[w.level - 1];
      }
    }
    ListsUnchanged(s, t);
    ReadersStay(s, t);
  }

  /** Steps that leave links and lists alone leave their invariant alone. */
  lemma ListsUnchanged(s: State, t: State)
    requires ListsInv(s) && t.next == s.next && t.linked == s.linked && s.maxHeight <= t.maxHeight <= MAX_HEIGHT
    ensures ListsInv(t)
  {
    forall i | 0 <= i < MAX_HEIGHT ensures LevelLinked(t, i) {
      assert LevelLinked(s, i);
    }
  }

  lemma {:induction false} ChooseHeightKeepsInv(s: State, height: nat)
    requires Inv(s) && Enabled(s, ChooseHeight(height))
    ensures Inv(Apply(s, ChooseHeight(height)))
  {
    var w, t := s.writer, Apply(s, ChooseHeight(height));
    ListsUnchanged(s, t);
    ReadersStay(s, t);
    forall j | 0 <= j < height
      ensures j in t.writer.prev && IsPredecessor(s.linked[j], w.key, t.writer.prev[j])
    {
      if j >= s.maxHeight {
        assert s.linked[j] == {};
      }
    }
    forall j | 0 <= j < MAX_HEIGHT ensures w.key !in s.linked[j] {
      assert j > 0 ==> s.linked[j] <= s.linked[0];
    }
  }

  /** The store into the new node changes no link that a reader can reach. */
  lemma {:induction false} StoreNextKeepsInv(s: State)
    requires Inv(s) && Enabled(s, StoreNext)
    ensures Inv(Apply(s, StoreNext))
  {
    var w, t := s.writer, Apply(s, StoreNext);
    assert w.key !in s.linked[w.i];
    forall i | 0 <= i < MAX_HEIGHT ensures LevelLinked(t, i) {
      assert LevelLinked(s, i);
    }
    ReadersStay(s, t);
  }

  /** Publishing at one level: the links are again those of a sorted list, now with the new key. */
  lemma {:induction false} PublishLinksLevel(s: State)
    requires Inv(s) && Enabled(s, Publish)
    ensures LevelLinked(Apply(s, Publish), s.writer.i)
  {
    var w, t := s.writer, Apply(s, Publish);
    var S, T := s.linked[w.i], t.linked[w.i];
    var before := w.prev[w.i];
    assert LevelLinked(s, w.i);
    assert IsPredecessor(S, w.key, before);
    forall p | InList(T, p) ensures Slot(p, w.i) in t.next && IsSuccessor(T, p, t.next[Slot(p, w.i)]) {
      PublishedSuccessor(S, w.key, before, s.next[Slot(before, w.i)], p,
                         if InList(S, p) then s.next[Slot(p, w.i)] else None);
    }
  }

  /** Successors after a key is put between a place and its old successor. */
  lemma {:induction false} PublishedSuccessor(S: set<Key>, key: Key, before: Place, after: Option<Key>, p: Place,
                                              next: Option<Key>)
    requires key !in S && IsPredecessor(S, key, before) && IsSuccessor(S, before, after)
    requires InList(S + {key}, p) && (InList(S, p) ==> IsSuccessor(S, p, next))
    ensures p == before ==> IsSuccessor(S + {key}, p, Some(key))
    ensures p == At(key) ==> IsSuccessor(S + {key}, p, after)
    ensures p != before && p != At(key) ==> IsSuccessor(S + {key}, p, next)
  {
    forall k | k in S ensures Less(k, key) || Less(key, k) {
      CompareIsTotalOrder(k, key);
    }
    forall k | k in S && Less(key, k) ensures PlaceBefore(before, k) {
    }
    if p != before && p != At(key) {
      if p == Head {
        assert before.At? && before.key in S;
      } else if Less(p.key, key) {
        assert LessEq(p.key, before.key);
      }
    }
  }

  lemma {:induction false} PublishKeepsInv(s: State)
    requires Inv(s) && Enabled(s, Publish)
    ensures Inv(Apply(s, Publish))
  {
    var w, t := s.writer, Apply(s, Publish);
    forall i | 0 <= i < MAX_HEIGHT ensures LevelLinked(t, i) {
      if i == w.i {
        PublishLinksLevel(s);
      } else {
        assert LevelLinked(s, i);
      }
    }
    forall i, j | 0 <= i < j < MAX_HEIGHT ensures t.linked[j] <= t.linked[i] {
      assert s.linked[j] <= s.linked[i];
    }
    ReadersStay(s, t);
  }

  /** Every step keeps the invariant and only adds keys. */
  lemma {:induction false} StepKeepsInv(s: State, step: Step)
    requires Inv(s) && Enabled(s, step)
    ensures Inv(Apply(s, step)) && Grows(s, Apply(s, step))
  {
    var t := Apply(s, step);
    ReadersStay(s, t);
    match step {
      case StartSearch(r, q, height) => ListsUnchanged(s, t);
      case Load(r) =>
        ListsUnchanged(s, t);
        LoadKeepsReader(s, s.readers[r]);
      case IteratorNext(r) =>
        ListsUnchanged(s, t);
        assert LevelLinked(s, 0);
      case BeginInsert(key) => ListsUnchanged(s, t);
      case WriterLoad => WriterLoadKeepsInv(s);
      case ChooseHeight(height) => ChooseHeightKeepsInv(s, height);
      case StoreNext => StoreNextKeepsInv(s);
      case Publish => PublishKeepsInv(s);
    }
  }

  ghost predicate IsRun(run: seq<State>, steps: seq<Step>) {
    && |run| == |steps| + 1
    && Initial(run[0])
    && forall i :: 0 <= i < |steps| ==> Enabled(run[i], steps[i]) && run[i + 1] == Apply(run[i], steps[i])
  }

  lemma {:induction false} RunKeepsInv(run: seq<State>, steps: seq<Step>, n: nat)
    requires IsRun(run, steps) && n < |run|
    ensures Inv(run[n])
  {
    if n == 0 {
      InitialInv(run[0]);
    } else {
      RunKeepsInv(run, steps, n - 1);
      StepKeepsInv(run[n - 1], steps[n - 1]);
    }
  }

  lemma {:induction false} RunGrows(run: seq<State>, steps: seq<Step>, m: nat, n: nat)
    requires IsRun(run, steps) && m <= n < |run|
    ensures Grows(run[m], run[n])
    decreases n
  {
    if m < n {
      RunGrows(run, steps, m, n - 1);
      RunKeepsInv(run, steps, n - 1);
      StepKeepsInv(run[n - 1], steps[n - 1]);
    }
  }

  /**
     In every run, a search that ends does so with the exact answer for the keys in the list when its last
     load happened, so it misses no key whose level-0 link was published before that.
   */
  lemma {:induction false} EverySearchIsExact(run: seq<State>, steps: seq<Step>, n: nat)
    requires IsRun(run, steps) && n < |steps|
    requires steps[n].Load? || steps[n].IteratorNext?
    ensures var after := run[n + 1].readers[steps[n].reader];
            after.Done? ==>
              && Answers(after.query, KeysAt(run[n], 0), after.result)
              && (steps[n].Load? ==> after.query == run[n].readers[steps[n].reader].query)
    ensures forall m :: 0 <= m <= n ==> KeysAt(run[m], 0) <= KeysAt(run[n], 0)
  {
    RunKeepsInv(run, steps, n);
    var s := run[n];
    forall m | 0 <= m <= n ensures KeysAt(run[m], 0) <= KeysAt(s, 0) {
      RunGrows(run, steps, m, n);
    }
    if steps[n].Load? {
      LastLoadAnswers(s, s.readers[steps[n].reader]);
    } else {
      assert LevelLinked(s, 0);
    }
  }

  /** Looking for a key itself decides whether it is in the list. */
  lemma ContainsIsExact(S: set<Key>, key: Key, result: Option<Key>)
    requires Answers(AtOrAfter(key), S, result)
    ensures result == Some(key) <==> key in S
  {
    if key in S {
      assert LessEq(result.value, key);
      CompareIsTotalOrder(result.value, key);
    }
  }

  /** An insert links its key one level at a time from the bottom up, and no other key. */
  lemma {:induction false} PublishAddsOneKey(run: seq<State>, steps: seq<Step>, n: nat)
    requires IsRun(run, steps) && n < |steps| && steps[n].Publish?
    ensures var w := run[n].writer;
            && KeysAt(run[n + 1], w.i) == KeysAt(run[n], w.i) + {w.key}
            && (forall j :: 0 <= j < w.i ==> w.key in KeysAt(run[n], j))
            && (forall j: nat :: w.i <= j ==> w.key !in KeysAt(run[n], j))
            && forall j: nat :: j != w.i ==> KeysAt(run[n + 1], j) == KeysAt(run[n], j)
  {
    RunKeepsInv(run, steps, n);
  }

  /** A sorted list whose links are those of a level. */
  ghost predicate IsChain(s: State, level: nat, p: Place, list: seq<Key>)
    decreases |list|
  {
    && Slot(p, level) in s.next
    && (list == [] ==> s.next[Slot(p, level)] == None)
    && (list != [] ==>
          && s.next[Slot(p, level)] == Some(list[0]) && PlaceBefore(p, list[0])
          && IsChain(s, level, At(list[0]), list[1..]))
  }

  /** Following the links of a level from any of its places lists the later keys in order and ends. */
  lemma {:induction false} LevelIsSortedList(s: State, level: nat, p: Place, rest: set<Key>) returns (list: seq<Key>)
    requires ListsInv(s) && level < MAX_HEIGHT && InList(s.linked[level], p)
    requires forall k :: k in rest <==> k in s.linked[level] && PlaceBefore(p, k)
    ensures IsChain(s, level, p, list)
    ensures forall k :: k in list <==> k in rest
    decreases rest
  {
    assert LevelLinked(s, level);
    var next := s.next[Slot(p, level)];
    assert IsSuccessor(s.linked[level], p, next);
    if next.None? {
      list := [];
    } else {
      var k := next.value;
      forall other ensures other in rest - {k} <==> other in s.linked[level] && PlaceBefore(At(k), other) {
        CompareIsTotalOrder(k, other);
      }
      var tail := LevelIsSortedList(s, level, At(k), rest - {k});
      list := [k] + tail;
      assert list[1..] == tail;
    }
  }
}
