/**
  The event queue of eventpp/include/eventpp/eventqueue.h as a protocol: any number of calls under
  way at once, each advancing by one step at a time, a step being what the source does under one
  mutex, with one atomic counter, or with memory that is its own.  The unlocked tests of
  `queueList.empty()` and `freeList.empty()` are hints that may come out either way.
 */
module EventQueueModel {
  import opened Common

  datatype Event = Event(event: int, arguments: seq<int>)

  /** A `BufferedItem`: a node of the lists, and what it holds while its `dtor` is not null. */
  datatype Item = Item(id: nat, content: Option<Event>)

  datatype Op = Enqueue(event: Event) | Process | ProcessOne | ProcessIf | TakeEvent | ClearEvents

  datatype Pc =
    | Begin
    | HasBuffer
    | Filled
    | Guarded
    | Looping(at: nat)
    | Handed(at: nat)
    | Recycling
    | Leaving
    | Done

  /**
    A call under way, with its `tempList` and `idleList`.  `took` and `flags` are history: the
    events it took off the queue, and for those it has looked at, whether it handed them out.
   */
  datatype Call = Call(op: Op, pc: Pc, temp: seq<Item>, idle: seq<Item>, took: seq<Event>, flags: seq<bool>)

  /**
    What calls share.  `failed` says that an `assert` of `BufferedItem` did not hold; `next` is
    the number of nodes allocated; the last four are history.
   */
  datatype Shared = Shared(
    queue: seq<Item>, free: seq<Item>, counter: int, next: nat, failed: bool,
    submitted: multiset<Event>, enqueued: seq<Event>, handedOut: seq<Event>, cleared: multiset<Event>)

  datatype World = World(shared: Shared, calls: seq<Call>)

  predicate Processes(op: Op) {
    op.Process? || op.ProcessOne? || op.ProcessIf?
  }

  /** Between the constructor and the destructor of its `CounterGuard`. */
  predicate Guards(c: Call) {
    Processes(c.op) && (c.pc.Guarded? || c.pc.Looping? || c.pc.Handed? || c.pc.Recycling? || c.pc.Leaving?)
  }

  function EventsOf(items: seq<Item>): seq<Event> {
    if items == [] then []
    else (if items[0].content.Some? then [items[0].content.value] else []) + EventsOf(items[1..])
  }

  function Drop(items: seq<Item>, at: nat): seq<Item>
    requires at < |items|
  {
    items[..at] + items[at + 1..]
  }

  // ---------------------------------------------------------------- steps

  function AdvanceEnqueue(s: Shared, c: Call, hint: bool): (Shared, Call)
    requires c.op.Enqueue?
  {
    match c.pc
    case Begin =>
      if hint && s.free != [] then (s.(free := s.free[1..]), c.(pc := HasBuffer, temp := [s.free[0]]))
      else (s.(next := s.next + 1), c.(pc := HasBuffer, temp := [Item(s.next, None)]))
    case HasBuffer =>
      if c.temp == [] then (s, c)
      else
        (s.(failed := s.failed || c.temp[0].content != None),
         c.(pc := Filled, temp := [Item(c.temp[0].id, Some(c.op.event))]))
    case Filled =>
      (s.(queue := s.queue + c.temp, enqueued := s.enqueued + [c.op.event]), c.(pc := Done, temp := []))
    case _ => (s, c)
  }

  /** `get` and the call of the listeners, or the move of `takeEvent`; `processIf` asks its predicate first. */
  function HandOut(s: Shared, c: Call, at: nat, chosen: bool): (Shared, Call)
    requires at < |c.temp|
  {
    match c.temp[at].content
    case None => (s.(failed := true), c)
    case Some(e) =>
      if c.op.ClearEvents? then
        (s.(cleared := s.cleared + multiset{e}),
            c.(pc := Looping(at + 1), temp := c.temp[at := c.temp[at].(content := None)]))
      else if c.op.ProcessIf? && !chosen then
        (s, c.(pc := Looping(at + 1), flags := c.flags + [false]))
      else
        (s.(handedOut := s.handedOut + [e]), c.(pc := Handed(at), flags := c.flags + [true]))
  }

  /** `clear` of the event handed out, which `processIf` moves to its `idleList`. */
  function Clear(s: Shared, c: Call, at: nat): (Shared, Call)
    requires at < |c.temp|
  {
    var cleared := c.temp[at].(content := None);
    (s.(failed := s.failed || c.temp[at].content == None),
     if c.op.ProcessIf? then c.(pc := Looping(at), temp := Drop(c.temp, at), idle := c.idle + [cleared])
     else c.(pc := Looping(at + 1), temp := c.temp[at := cleared]))
  }

  /** The swap under `queueListMutex`, or the splice of the first node. */
  function TakeOff(s: Shared, c: Call): (Shared, Call) {
    var n := if (c.op.ProcessOne? || c.op.TakeEvent?) && s.queue != [] then 1 else |s.queue|;
    (s.(queue := s.queue[n..]), c.(pc := Looping(0), temp := s.queue[..n], took := EventsOf(s.queue[..n])))
  }

  /** After the loop: `processIf` splices what it did not choose back to the front of the queue. */
  function PutBack(s: Shared, c: Call): (Shared, Call) {
    if c.op.ProcessIf? then (s.(queue := c.temp + s.queue), c.(pc := Recycling, temp := []))
        else (s, c.(pc := Recycling))
  }

  /** The splice under `freeListMutex`. */
  function Recycle(s: Shared, c: Call): (Shared, Call) {
    (s.(free := s.free + c.temp + c.idle), c.(pc := Leaving, temp := [], idle := []))
  }

  function AdvanceConsumer(s: Shared, c: Call, hint: bool): (Shared, Call)
    requires !c.op.Enqueue?
  {
    match c.pc
    case Begin =>
      if hint then (s, c.(pc := Done))
      else (if Processes(c.op) then s.(counter := s.counter + 1) else s, c.(pc := Guarded))
    case Guarded => TakeOff(s, c)
    case Looping(at) => if at < |c.temp| then HandOut(s, c, at, hint) else PutBack(s, c)
    case Handed(at) => if at < |c.temp| then Clear(s, c, at) else (s, c)
    case Recycling => Recycle(s, c)
    case Leaving => (if Processes(c.op) then s.(counter := s.counter - 1) else s, c.(pc := Done))
    case _ => (s, c)
  }

  function Advance(s: Shared, c: Call, hint: bool): (Shared, Call) {
    if c.op.Enqueue? then AdvanceEnqueue(s, c, hint) else AdvanceConsumer(s, c, hint)
  }

  /** A thread, or a listener, starts a call; or call `k` takes its next step. */
  datatype Move = Start(op: Op) | Go(k: nat, hint: bool)

  function Step(w: World, m: Move): World {
    match m
    case Start(op) =>
      World(if op.Enqueue? then w.shared.(submitted := w.shared.submitted + multiset{op.event}) else w.shared,
            w.calls + [Call(op, Begin, [], [], [], [])])
    case Go(k, hint) =>
      if k >= |w.calls| then w
      else
        var (s, c) := Advance(w.shared, w.calls[k], hint);
        World(s, w.calls[k := c])
  }

  function RunAll(w: World, moves: seq<Move>): World
    decreases |moves|
  {
    if moves == [] then w else RunAll(Step(w, moves[0]), moves[1..])
  }

  function Initial(): World {
    World(Shared([], [], 0, 0, false, multiset{}, [], [], multiset{}), [])
  }

  /**
    The asserts of `BufferedItem`: `set` fails exactly on a full node, `get` and `clear` exactly on an
    empty one, and a failure is never forgotten.
   */
  lemma AssertsAreSeen(s: Shared, c: Call, hint: bool)
    ensures var t := Advance(s, c, hint).0;
      t.failed <==>
        || s.failed
        || (c.op.Enqueue? && c.pc.HasBuffer? && c.temp != [] && c.temp[0].content.Some?)
        || (!c.op.Enqueue? && (c.pc.Looping? || c.pc.Handed?) && c.pc.at < |c.temp| && c.temp[c.pc.at].content.None?)
    ensures !Initial().shared.failed
  {
    hide EventsOf;
  }

  /** A free node is used again if there is one and the call sees it. */
  lemma FreeNodeIsUsed(s: Shared, c: Call)
    requires c.op.Enqueue? && c.pc.Begin?
    ensures s.free != [] ==> Advance(s, c, true) == (s.(free := s.free[1..]), c.(pc := HasBuffer, temp := s.free[..1]))
    ensures s.free == [] ==>
      forall hint :: Advance(s, c, hint) == (s.(next := s.next + 1), c.(pc := HasBuffer, temp := [Item(s.next, None)]))
  {
    assert s.free != [] ==> s.free[..1] == [s.free[0]];
  }

  // ---------------------------------------------------------------- the invariant

  predicate AllFull(items: seq<Item>) {
    forall i :: 0 <= i < |items| ==> items[i].content.Some?
  }

  predicate AllEmpty(items: seq<Item>) {
    forall i :: 0 <= i < |items| ==> items[i].content.None?
  }

  /** What a call's own lists hold, by where the call is: the `dtor` discipline. */
  predicate CallValid(c: Call) {
    if c.op.Enqueue? then EnqueueValid(c) else ConsumerValid(c)
  }

  predicate EnqueueValid(c: Call)
    requires c.op.Enqueue?
  {
    && c.idle == []
    && match c.pc
       case HasBuffer => |c.temp| == 1 && c.temp[0].content == None
       case Filled => |c.temp| == 1 && c.temp[0].content == Some(c.op.event)
       case Begin => c.temp == []
       case Done => c.temp == []
       case _ => false
  }

  predicate ConsumerValid(c: Call) {
    && AllEmpty(c.idle) && (c.op.ProcessIf? || c.idle == [])
    && match c.pc
       case Looping(at) => LoopValid(c, at)
       case Handed(at) => at < |c.temp| && LoopValid(c, at)
       case Recycling => AllEmpty(c.temp) && (c.op.ProcessIf? ==> c.temp == [])
       case HasBuffer => false
       case Filled => false
       case _ => c.temp == [] && c.idle == []
  }

  /** `processIf` keeps what is left, full; the others leave what is done behind, empty. */
  predicate LoopValid(c: Call, at: nat) {
    && at <= |c.temp|
    && AllFull(c.temp[at..])
    && (if c.op.ProcessIf? then AllFull(c.temp[..at]) else AllEmpty(c.temp[..at]))
  }

  predicate SharedValid(s: Shared) {
    AllFull(s.queue) && AllEmpty(s.free) && !s.failed
  }

  /** How often a node is in a list. */
  function Ids(items: seq<Item>, id: nat): nat {
    if items == [] then 0 else (if items[0].id == id then 1 else 0) + Ids(items[1..], id)
  }

  function CallIds(c: Call, id: nat): nat {
    Ids(c.temp, id) + Ids(c.idle, id)
  }

  function HeldIds(calls: seq<Call>, id: nat): nat {
    if calls == [] then 0 else HeldIds(calls[..|calls| - 1], id) + CallIds(calls[|calls| - 1], id)
  }

  function Lists(w: World, id: nat): nat {
    Ids(w.shared.queue, id) + Ids(w.shared.free, id) + HeldIds(w.calls, id)
  }

  /** Every node allocated is in exactly one list, once. */
  ghost predicate Owned(w: World) {
    forall id: nat :: Lists(w, id) == if id < w.shared.next then 1 else 0
  }

  /** How often an event is in a list. */
  function Count(items: seq<Item>, e: Event): nat {
    if items == [] then 0 else (if items[0].content == Some(e) then 1 else 0) + Count(items[1..], e)
  }

  /** How often a call has an event that is not handed out or cleared. */
  function Undone(c: Call, e: Event): nat {
    if c.pc.Begin? || c.pc.HasBuffer? then (if c.op == Enqueue(e) then 1 else 0)
    else if c.pc.Handed? && c.pc.at < |c.temp| then Count(c.temp[..c.pc.at], e) + Count(c.temp[c.pc.at + 1..], e)
    else Count(c.temp, e)
  }

  function InFlight(calls: seq<Call>, e: Event): nat {
    if calls == [] then 0 else InFlight(calls[..|calls| - 1], e) + Undone(calls[|calls| - 1], e)
  }

  function Occurrences(s: seq<Event>, e: Event): nat {
    multiset(s)[e]
  }

  /** How often an event is queued, in flight, handed out or cleared. */
  function Places(w: World, e: Event): nat {
    InFlight(w.calls, e) + Count(w.shared.queue, e) + Occurrences(w.shared.handedOut, e) + w.shared.cleared[e]
  }

  /** Every event submitted is in just one place. */
  ghost predicate Conserved(w: World) {
    forall e :: Places(w, e) == w.shared.submitted[e]
  }

  function GuardsIn(calls: seq<Call>): nat {
    if calls == [] then 0
    else GuardsIn(calls[..|calls| - 1]) + (if Guards(calls[|calls| - 1]) then 1 else 0)
  }

  ghost predicate Inv(w: World) {
    && SharedValid(w.shared)
    && (forall k :: 0 <= k < |w.calls| ==> CallValid(w.calls[k]))
    && Owned(w)
    && Conserved(w)
    && w.shared.counter == GuardsIn(w.calls)
  }

  // ---------------------------------------------------------------- lists

  lemma {:induction false} ConcatCount(a: seq<Item>, b: seq<Item>, e: Event)
    ensures Count(a + b, e) == Count(a, e) + Count(b, e)
    decreases |a|
  {
    if a == [] {
      assert a + b == b;
    } else {
      assert (a + b)[1..] == a[1..] + b;
      ConcatCount(a[1..], b, e);
    }
  }

  lemma {:induction false} ConcatIds(a: seq<Item>, b: seq<Item>, id: nat)
    ensures Ids(a + b, id) == Ids(a, id) + Ids(b, id)
    decreases |a|
  {
    if a == [] {
      assert a + b == b;
    } else {
      assert (a + b)[1..] == a[1..] + b;
      ConcatIds(a[1..], b, id);
    }
  }

  lemma {:induction false} EmptyCount(items: seq<Item>, e: Event)
    requires AllEmpty(items)
    ensures Count(items, e) == 0
    decreases |items|
  {
    if items != [] {
      EmptyCount(items[1..], e);
    }
  }

  function CountOne(item: Item, e: Event): nat {
    if item.content == Some(e) then 1 else 0
  }

  /** A list around one of its nodes, and with the node replaced. */
  lemma CountAround(items: seq<Item>, at: nat, item: Item, e: Event)
    requires at < |items|
    ensures Count(items, e) == Count(items[..at], e) + CountOne(items[at], e) + Count(items[at + 1..], e)
    ensures Count(items[at := item], e) == Count(items[..at], e) + CountOne(item, e) + Count(items[at + 1..], e)
    ensures Count(Drop(items, at), e) == Count(items[..at], e) + Count(items[at + 1..], e)
  {
    ConcatCount(items[..at], items[at..], e);
    assert items[..at] + items[at..] == items && items[at..][1..] == items[at + 1..];
    var tail := [item] + items[at + 1..];
    ConcatCount(items[..at], tail, e);
    assert items[..at] + tail == items[at := item] && tail[1..] == items[at + 1..];
    ConcatCount(items[..at], items[at + 1..], e);
  }

  lemma IdsAround(items: seq<Item>, at: nat, item: Item, id: nat)
    requires at < |items| && item.id == items[at].id
    ensures Ids(items, id) == Ids(items[..at], id) + (if item.id == id then 1 else 0) + Ids(items[at + 1..], id)
    ensures Ids(items[at := item], id) == Ids(items, id)
    ensures Ids(Drop(items, at), id) + (if item.id == id then 1 else 0) == Ids(items, id)
  {
    ConcatIds(items[..at], items[at..], id);
    assert items[..at] + items[at..] == items && items[at..][1..] == items[at + 1..];
    var tail := [item] + items[at + 1..];
    ConcatIds(items[..at], tail, id);
    assert items[..at] + tail == items[at := item] && tail[1..] == items[at + 1..];
    ConcatIds(items[..at], items[at + 1..], id);
  }

  // ---------------------------------------------------------------- one step

  lemma EnqueueKeepsDiscipline(s: Shared, c: Call, hint: bool)
    requires SharedValid(s) && CallValid(c) && c.op.Enqueue?
    ensures var (t, d) := Advance(s, c, hint); SharedValid(t) && CallValid(d)
  {
  }

  lemma HandOutKeepsDiscipline(s: Shared, c: Call, at: nat, chosen: bool)
    requires SharedValid(s) && CallValid(c) && !c.op.Enqueue? && c.pc == Looping(at) && at < |c.temp|
    ensures var (t, d) := HandOut(s, c, at, chosen); SharedValid(t) && CallValid(d)
  {
    assert c.temp[at..][0] == c.temp[at];
  }

  lemma ClearKeepsDiscipline(s: Shared, c: Call, at: nat)
    requires SharedValid(s) && CallValid(c) && !c.op.Enqueue? && c.pc == Handed(at)
    ensures var (t, d) := Clear(s, c, at); SharedValid(t) && CallValid(d)
  {
    assert c.temp[at..][0] == c.temp[at] && c.temp[at..][1..] == c.temp[at + 1..];
    var d := Clear(s, c, at).1;
    if c.op.ProcessIf? {
      assert d.temp[..at] == c.temp[..at] && d.temp[at..] == c.temp[at + 1..];
    } else {
      assert d.temp[..at + 1] == c.temp[..at] + [d.temp[at]] && d.temp[at + 1..] == c.temp[at + 1..];
    }
  }

  lemma ConsumerKeepsDiscipline(s: Shared, c: Call, hint: bool)
    requires SharedValid(s) && CallValid(c) && !c.op.Enqueue?
    ensures var (t, d) := Advance(s, c, hint); SharedValid(t) && CallValid(d)
  {
    hide EventsOf, HandOut, Clear;
    match c.pc
    case Looping(at) =>
      if at < |c.temp| {
        HandOutKeepsDiscipline(s, c, at, hint);
      }
    case Handed(at) => ClearKeepsDiscipline(s, c, at);
    case _ =>
  }

  function LocalIds(s: Shared, c: Call, id: nat): nat {
    Ids(s.queue, id) + Ids(s.free, id) + CallIds(c, id)
  }

  function LocalPlaces(s: Shared, c: Call, e: Event): nat {
    Undone(c, e) + Count(s.queue, e) + Occurrences(s.handedOut, e) + s.cleared[e]
  }

  lemma EnqueueKeepsIds(s: Shared, c: Call, hint: bool, id: nat)
    requires CallValid(c) && c.op.Enqueue?
    ensures var (t, d) := Advance(s, c, hint);
      && (t.next == s.next || t.next == s.next + 1)
      && LocalIds(t, d, id) == LocalIds(s, c, id) + (if s.next <= id < t.next then 1 else 0)
  {
    if c.pc.Filled? {
      ConcatIds(s.queue, c.temp, id);
    } else if c.pc.HasBuffer? {
      var d := Advance(s, c, hint).1;
      assert c.temp[1..] == [] && d.temp[1..] == [];
    } else if c.pc.Begin? {
      var d := Advance(s, c, hint).1;
      assert d.temp[1..] == [] && Ids(d.temp, id) == if d.temp[0].id == id then 1 else 0;
    }
  }

  lemma EnqueueKeepsPlaces(s: Shared, c: Call, hint: bool, e: Event)
    requires CallValid(c) && c.op.Enqueue?
    ensures var (t, d) := Advance(s, c, hint);
        LocalPlaces(t, d, e) == LocalPlaces(s, c, e) && t.submitted == s.submitted
  {
    if c.pc.Filled? {
      ConcatCount(s.queue, c.temp, e);
    } else if c.pc.HasBuffer? {
      assert Count([Item(c.temp[0].id, Some(c.op.event))], e) == (if c.op.event == e then 1 else 0) + Count([], e);
    }
  }

  lemma TakeOffKeeps(s: Shared, c: Call, id: nat, e: Event)
    requires CallValid(c) && !c.op.Enqueue? && c.pc == Guarded
    ensures var (t, d) := TakeOff(s, c);
        LocalIds(t, d, id) == LocalIds(s, c, id) && LocalPlaces(t, d, e) == LocalPlaces(s, c, e)
  {
    hide EventsOf, Occurrences;
    var n := |TakeOff(s, c).1.temp|;
    assert s.queue == s.queue[..n] + s.queue[n..];
    ConcatIds(s.queue[..n], s.queue[n..], id);
    ConcatCount(s.queue[..n], s.queue[n..], e);
  }

  lemma HandOutKeeps(s: Shared, c: Call, at: nat, chosen: bool, id: nat, e: Event)
    requires CallValid(c) && !c.op.Enqueue? && c.pc == Looping(at) && at < |c.temp|
    ensures var (t, d) := HandOut(s, c, at, chosen);
        LocalIds(t, d, id) == LocalIds(s, c, id) && LocalPlaces(t, d, e) == LocalPlaces(s, c, e)
  {
    hide EventsOf, Count, Ids;
    assert c.temp[at..][0] == c.temp[at];
    IdsAround(c.temp, at, c.temp[at].(content := None), id);
    CountAround(c.temp, at, c.temp[at].(content := None), e);
  }

  lemma PutBackKeeps(s: Shared, c: Call, at: nat, id: nat, e: Event)
    requires CallValid(c) && !c.op.Enqueue? && c.pc == Looping(at) && at == |c.temp|
    ensures var (t, d) := PutBack(s, c);
        LocalIds(t, d, id) == LocalIds(s, c, id) && LocalPlaces(t, d, e) == LocalPlaces(s, c, e)
  {
    ConcatIds(c.temp, s.queue, id);
    ConcatCount(c.temp, s.queue, e);
  }

  lemma ClearKeeps(s: Shared, c: Call, at: nat, id: nat, e: Event)
    requires CallValid(c) && !c.op.Enqueue? && c.pc == Handed(at)
    ensures var (t, d) := Clear(s, c, at);
        LocalIds(t, d, id) == LocalIds(s, c, id) && LocalPlaces(t, d, e) == LocalPlaces(s, c, e)
  {
    hide EventsOf, Occurrences;
    var cleared := c.temp[at].(content := None);
    IdsAround(c.temp, at, cleared, id);
    CountAround(c.temp, at, cleared, e);
    ConcatIds(c.idle, [cleared], id);
    assert Ids([cleared], id) == (if cleared.id == id then 1 else 0) + Ids([], id);
  }

  lemma RecycleKeeps(s: Shared, c: Call, id: nat, e: Event)
    requires CallValid(c) && !c.op.Enqueue? && c.pc == Recycling
    ensures var (t, d) := Recycle(s, c);
        LocalIds(t, d, id) == LocalIds(s, c, id) && LocalPlaces(t, d, e) == LocalPlaces(s, c, e)
  {
    ConcatIds(s.free + c.temp, c.idle, id);
    ConcatIds(s.free, c.temp, id);
    EmptyCount(c.temp, e);
  }

  lemma ConsumerKeeps(s: Shared, c: Call, hint: bool, id: nat, e: Event)
    requires CallValid(c) && !c.op.Enqueue?
    ensures var (t, d) := Advance(s, c, hint);
      && LocalIds(t, d, id) == LocalIds(s, c, id) && LocalPlaces(t, d, e) == LocalPlaces(s, c, e)
  {
    hide TakeOff, HandOut, PutBack, Clear, Recycle, LoopValid, Ids, Occurrences;
    match c.pc
    case Guarded => TakeOffKeeps(s, c, id, e);
    case Looping(at) =>
      if at < |c.temp| {
        HandOutKeeps(s, c, at, hint, id, e);
      } else {
        assert at == |c.temp| by {
          assert LoopValid(c, at);
          LoopEnds(c, at);
        }
        PutBackKeeps(s, c, at, id, e);
      }
    case Handed(at) => ClearKeeps(s, c, at, id, e);
    case Recycling => RecycleKeeps(s, c, id, e);
    case _ =>
  }

  lemma LoopEnds(c: Call, at: nat)
    requires LoopValid(c, at)
    ensures at <= |c.temp|
  {
  }

  lemma ConsumerAllocatesNothing(s: Shared, c: Call, hint: bool)
    requires !c.op.Enqueue?
    ensures var (t, d) := Advance(s, c, hint);
        t.next == s.next && t.submitted == s.submitted && t.enqueued == s.enqueued
  {
    hide EventsOf;
  }

  lemma GuardMatchesCounter(s: Shared, c: Call, hint: bool)
    requires CallValid(c)
    ensures var (t, d) := Advance(s, c, hint);
      t.counter - s.counter == (if Guards(d) then 1 else 0) - (if Guards(c) then 1 else 0)
  {
    hide EventsOf, AllFull, AllEmpty;
  }

  // ---------------------------------------------------------------- sums over the calls

  lemma {:induction false} HeldIdsReplaced(calls: seq<Call>, k: nat, c: Call, id: nat)
    requires k < |calls|
    ensures HeldIds(calls[k := c], id) + CallIds(calls[k], id) == HeldIds(calls, id) + CallIds(c, id)
    decreases |calls|
  {
    hide CallIds;
    var last, after := |calls| - 1, calls[k := c];
    if k == last {
      assert after[..last] == calls[..last];
    } else {
      assert after[..last] == calls[..last][k := c] && after[last] == calls[last];
      HeldIdsReplaced(calls[..last], k, c, id);
    }
  }

  lemma {:induction false} InFlightReplaced(calls: seq<Call>, k: nat, c: Call, e: Event)
    requires k < |calls|
    ensures InFlight(calls[k := c], e) + Undone(calls[k], e) == InFlight(calls, e) + Undone(c, e)
    decreases |calls|
  {
    hide Undone;
    var last, after := |calls| - 1, calls[k := c];
    if k == last {
      assert after[..last] == calls[..last];
    } else {
      assert after[..last] == calls[..last][k := c] && after[last] == calls[last];
      InFlightReplaced(calls[..last], k, c, e);
    }
  }

  lemma {:induction false} GuardsReplaced(calls: seq<Call>, k: nat, c: Call)
    requires k < |calls|
    ensures GuardsIn(calls[k := c]) + (if Guards(calls[k]) then 1 else 0)
        == GuardsIn(calls) + (if Guards(c) then 1 else 0)
    decreases |calls|
  {
    hide Guards;
    var last, after := |calls| - 1, calls[k := c];
    if k == last {
      assert after[..last] == calls[..last];
    } else {
      assert after[..last] == calls[..last][k := c] && after[last] == calls[last];
      GuardsReplaced(calls[..last], k, c);
    }
  }

  // ---------------------------------------------------------------- every run

  lemma InitiallyInv()
    ensures Inv(Initial())
  {
  }

  lemma StartKeepsInv(w: World, op: Op)
    requires Inv(w)
    ensures Inv(Step(w, Start(op)))
  {
    var v := Step(w, Start(op));
    assert v.calls[..|w.calls|] == w.calls;
    forall id: nat ensures Lists(v, id) == if id < v.shared.next then 1 else 0 {
      assert Lists(w, id) == if id < w.shared.next then 1 else 0;
    }
    forall e ensures Places(v, e) == v.shared.submitted[e] {
      assert Places(w, e) == w.shared.submitted[e];
    }
  }

  lemma GoKeepsInv(w: World, k: nat, hint: bool)
    requires Inv(w) && k < |w.calls|
    ensures Inv(Step(w, Go(k, hint)))
  {
    hide Advance, CallValid, Guards, Undone, Count, CallIds, HeldIds, InFlight, GuardsIn, SharedValid, Ids, Occurrences;
    var s, c := w.shared, w.calls[k];
    var (t, d) := Advance(s, c, hint);
    var v := Step(w, Go(k, hint));
    assert v == World(t, w.calls[k := d]);
    if c.op.Enqueue? {
      EnqueueKeepsDiscipline(s, c, hint);
      EnqueueKeepsPlaces(s, c, hint, Event(0, []));
    } else {
      ConsumerKeepsDiscipline(s, c, hint);
      ConsumerAllocatesNothing(s, c, hint);
    }
    forall id: nat ensures Lists(v, id) == if id < v.shared.next then 1 else 0 {
      if c.op.Enqueue? {
        EnqueueKeepsIds(s, c, hint, id);
      } else {
        ConsumerKeeps(s, c, hint, id, Event(0, []));
      }
      HeldIdsReplaced(w.calls, k, d, id);
      assert Lists(w, id) == if id < w.shared.next then 1 else 0;
    }
    forall e ensures Places(v, e) == v.shared.submitted[e] {
      if c.op.Enqueue? {
        EnqueueKeepsPlaces(s, c, hint, e);
      } else {
        ConsumerKeeps(s, c, hint, 0, e);
      }
      InFlightReplaced(w.calls, k, d, e);
      assert Places(w, e) == w.shared.submitted[e];
    }
    GuardMatchesCounter(s, c, hint);
    GuardsReplaced(w.calls, k, d);
  }

  /** Every step keeps the invariant: in particular no `assert` of `set`, `get` or `clear` ever fails. */
  lemma StepKeepsInv(w: World, m: Move)
    requires Inv(w)
    ensures Inv(Step(w, m))
  {
    match m
    case Start(op) => StartKeepsInv(w, op);
    case Go(k, hint) =>
      if k < |w.calls| {
        GoKeepsInv(w, k, hint);
      }
  }

  lemma {:induction false} RunKeepsInv(w: World, moves: seq<Move>)
    requires Inv(w)
    ensures Inv(RunAll(w, moves))
    decreases |moves|
  {
    hide Inv, Step;
    if moves != [] {
      StepKeepsInv(w, moves[0]);
      RunKeepsInv(Step(w, moves[0]), moves[1..]);
    }
  }
}
