/** What the queue's invariant means to its callers, and the order in which events come out. */
module EventQueueRuns {
  import opened Common
  import opened EventQueueModel

  // ---------------------------------------------------------------- conservation

  /** In every run no assert fails, every node is in exactly one list, every event in exactly one place. */
  lemma NothingIsLost(moves: seq<Move>, id: nat, e: Event)
    ensures var w := RunAll(Initial(), moves);
      && !w.shared.failed
      && AllFull(w.shared.queue) && AllEmpty(w.shared.free)
      && Lists(w, id) == (if id < w.shared.next then 1 else 0)
      && Places(w, e) == w.shared.submitted[e]
  {
    hide Step, Initial, RunAll, Lists, Places;
    InitiallyInv();
    RunKeepsInv(Initial(), moves);
  }

  lemma {:induction false} SomeGuard(calls: seq<Call>, k: nat)
    requires k < |calls| && Guards(calls[k])
    ensures GuardsIn(calls) > 0
    decreases |calls|
  {
    if k < |calls| - 1 {
      SomeGuard(calls[..|calls| - 1], k);
    }
  }

  /** Events a process call still has to hand out are announced by `queueEmptyCounter`. */
  lemma UndoneMeansCounted(w: World, k: nat, e: Event)
    requires Inv(w) && k < |w.calls| && Processes(w.calls[k].op) && Undone(w.calls[k], e) > 0
    ensures w.shared.counter > 0
  {
    var c := w.calls[k];
    assert CallValid(c);
    if c.pc.Recycling? {
      EmptyCount(c.temp, e);
    }
    SomeGuard(w.calls, k);
  }

  /** How often an event is in calls that no counter announces: `enqueue`, `takeEvent` and `clearEvents`. */
  function Unannounced(calls: seq<Call>, e: Event): nat {
    if calls == [] then 0
    else
      var c := calls[|calls| - 1];
      Unannounced(calls[..|calls| - 1], e) + (if Processes(c.op) then 0 else Undone(c, e))
  }

  lemma {:induction false} InFlightUnannounced(calls: seq<Call>, e: Event)
    requires forall k :: 0 <= k < |calls| && Processes(calls[k].op) ==> Undone(calls[k], e) == 0
    ensures InFlight(calls, e) == Unannounced(calls, e)
    decreases |calls|
  {
    if calls != [] {
      InFlightUnannounced(calls[..|calls| - 1], e);
    }
  }

  lemma NothingCounted(w: World, e: Event)
    requires Inv(w) && w.shared.counter == 0
    ensures InFlight(w.calls, e) == Unannounced(w.calls, e)
  {
    forall k | 0 <= k < |w.calls| && Processes(w.calls[k].op) ensures Undone(w.calls[k], e) == 0 {
      if Undone(w.calls[k], e) > 0 {
        UndoneMeansCounted(w, k, e);
      }
    }
    InFlightUnannounced(w.calls, e);
  }

  /** `emptyQueue`, read at one moment: all events are handed out or cleared, or in a call that is not announced. */
  lemma EmptyQueueTells(w: World, e: Event)
    requires Inv(w) && w.shared.queue == [] && w.shared.counter == 0
    ensures w.shared.submitted[e] == Occurrences(w.shared.handedOut, e) + w.shared.cleared[e] + Unannounced(w.calls, e)
  {
    NothingCounted(w, e);
    assert Places(w, e) == w.shared.submitted[e];
  }

  // ---------------------------------------------------------------- emptyQueue in two reads

  lemma {:induction false} ConcatEvents(a: seq<Item>, b: seq<Item>)
    ensures EventsOf(a + b) == EventsOf(a) + EventsOf(b)
    decreases |a|
  {
    if a == [] {
      assert a + b == b;
    } else {
      assert (a + b)[1..] == a[1..] + b;
      ConcatEvents(a[1..], b);
      var first := if a[0].content.Some? then [a[0].content.value] else [];
      assert EventsOf(a + b) == first + (EventsOf(a[1..]) + EventsOf(b)) == EventsOf(a) + EventsOf(b);
    }
  }

  lemma {:induction false} EmptyEvents(items: seq<Item>)
    requires AllEmpty(items)
    ensures EventsOf(items) == []
    decreases |items|
  {
    if items != [] {
      EmptyEvents(items[1..]);
    }
  }

  lemma {:induction false} FullEvents(items: seq<Item>)
    requires AllFull(items)
    ensures |EventsOf(items)| == |items|
    decreases |items|
  {
    if items != [] {
      FullEvents(items[1..]);
    }
  }

  lemma InvOfCall(w: World, k: nat)
    requires Inv(w) && k < |w.calls|
    ensures SharedValid(w.shared) && CallValid(w.calls[k])
  {
  }

  lemma AdvanceKeepsOp(s: Shared, c: Call, hint: bool)
    ensures Advance(s, c, hint).1.op == c.op
  {
    hide EventsOf;
  }

  /** What the calls of `processIf` have taken off the queue and not handed out, which they may put back. */
  function Retained(calls: seq<Call>, e: Event): nat {
    if calls == [] then 0
    else
      var c := calls[|calls| - 1];
      Retained(calls[..|calls| - 1], e) + (if c.op.ProcessIf? then Undone(c, e) else 0)
  }

  lemma {:induction false} RetainedReplaced(calls: seq<Call>, k: nat, c: Call, e: Event)
    requires k < |calls| && c.op == calls[k].op
    ensures Retained(calls[k := c], e) + (if c.op.ProcessIf? then Undone(calls[k], e) else 0) ==
            Retained(calls, e) + (if c.op.ProcessIf? then Undone(c, e) else 0)
    decreases |calls|
  {
    hide Undone;
    var last, after := |calls| - 1, calls[k := c];
    if k == last {
      assert after[..last] == calls[..last];
    } else {
      assert after[..last] == calls[..last][k := c] && after[last] == calls[last];
      RetainedReplaced(calls[..last], k, c, e);
    }
  }

  /** Events that are queued, or may come back to the queue, were enqueued since. */
  predicate ComesFrom(w: World, base: nat, e: Event) {
    && base <= |w.shared.enqueued|
    && Count(w.shared.queue, e) + Retained(w.calls, e) <= Occurrences(w.shared.enqueued[base..], e)
  }

  lemma EnqueueComesFrom(s: Shared, c: Call, hint: bool, base: nat, e: Event)
    requires CallValid(c) && c.op.Enqueue? && base <= |s.enqueued|
    ensures var t := Advance(s, c, hint).0;
      && |s.enqueued| <= |t.enqueued|
      && Count(t.queue, e) - Count(s.queue, e)
          == Occurrences(t.enqueued[base..], e) - Occurrences(s.enqueued[base..], e)
  {
    if c.pc.Filled? {
      ConcatCount(s.queue, c.temp, e);
      assert c.temp[1..] == [] && Count(c.temp, e) == if c.op.event == e then 1 else 0;
      assert (s.enqueued + [c.op.event])[base..] == s.enqueued[base..] + [c.op.event];
    }
  }

  lemma ConsumerTakesOnly(s: Shared, c: Call, hint: bool, e: Event)
    requires CallValid(c) && !c.op.Enqueue?
    ensures var (t, d) := Advance(s, c, hint);
      Count(t.queue, e) + (if c.op.ProcessIf? then Undone(d, e) else 0) <= Count(s.queue, e)
          + (if c.op.ProcessIf? then Undone(c, e) else 0)
  {
    var (t, d) := Advance(s, c, hint);
    ConsumerKeeps(s, c, hint, 0, e);
    assert Occurrences(s.handedOut, e) <= Occurrences(t.handedOut, e) && s.cleared[e] <= t.cleared[e] by {
      HistoryGrows(s, c, hint, e);
    }
    hide Count, Undone, Occurrences;
    if !c.op.ProcessIf? {
      TakesFromQueue(s, c, hint, e);
    }
  }

  lemma HistoryGrows(s: Shared, c: Call, hint: bool, e: Event)
    requires !c.op.Enqueue?
    ensures var t := Advance(s, c, hint).0;
        Occurrences(s.handedOut, e) <= Occurrences(t.handedOut, e) && s.cleared[e] <= t.cleared[e]
  {
    hide EventsOf;
  }

  lemma TakesFromQueue(s: Shared, c: Call, hint: bool, e: Event)
    requires !c.op.Enqueue? && !c.op.ProcessIf?
    ensures Count(Advance(s, c, hint).0.queue, e) <= Count(s.queue, e)
  {
    hide EventsOf;
    if c.pc.Guarded? {
      var n := |TakeOff(s, c).1.temp|;
      ConcatCount(s.queue[..n], s.queue[n..], e);
      assert s.queue == s.queue[..n] + s.queue[n..];
    }
  }

  lemma StepComesFrom(w: World, m: Move, base: nat, e: Event)
    requires Inv(w) && ComesFrom(w, base, e)
    ensures ComesFrom(Step(w, m), base, e)
  {
    hide Count, Undone, Occurrences, Advance, CallValid, SharedValid;
    match m
    case Start(op) => StartComesFrom(w, op, base, e);
    case Go(k, hint) =>
      if k < |w.calls| {
        var c := w.calls[k];
        var d := Advance(w.shared, c, hint).1;
        InvOfCall(w, k);
        AdvanceKeepsOp(w.shared, c, hint);
        RetainedReplaced(w.calls, k, d, e);
        if c.op.Enqueue? {
          EnqueueComesFrom(w.shared, c, hint, base, e);
        } else {
          ConsumerTakesOnly(w.shared, c, hint, e);
          ConsumerAllocatesNothing(w.shared, c, hint);
        }
      }
  }

  lemma StartComesFrom(w: World, op: Op, base: nat, e: Event)
    requires ComesFrom(w, base, e)
    ensures ComesFrom(Step(w, Start(op)), base, e)
  {
    assert Step(w, Start(op)).calls[..|w.calls|] == w.calls;
  }

  lemma {:induction false} RunComesFrom(w: World, moves: seq<Move>, base: nat, e: Event)
    requires Inv(w) && ComesFrom(w, base, e)
    ensures ComesFrom(RunAll(w, moves), base, e)
    decreases |moves|
  {
    hide Inv, Step, ComesFrom;
    if moves != [] {
      StepKeepsInv(w, moves[0]);
      StepComesFrom(w, moves[0], base, e);
      RunComesFrom(Step(w, moves[0]), moves[1..], base, e);
    }
  }

  /** No call of `processIf` holds an event that it may put back. */
  ghost predicate NoneRetained(w: World) {
    forall k, e :: 0 <= k < |w.calls| && w.calls[k].op.ProcessIf? ==> Undone(w.calls[k], e) == 0
  }

  /**
    `emptyQueue` reads the queue in `w`, and the counter after the moves.  If the second read says
    empty too, then everything is handed out or cleared, in a call that is not announced, or was
    enqueued after the first read.
   */
  ghost predicate Told(w: World, moves: seq<Move>, e: Event) {
    var s, calls := RunAll(w, moves).shared, RunAll(w, moves).calls;
    s.counter == 0 ==>
      && |w.shared.enqueued| <= |s.enqueued|
      && s.submitted[e] <= Occurrences(s.handedOut, e) + s.cleared[e] + Unannounced(calls, e)
                           + Occurrences(s.enqueued[|w.shared.enqueued|..], e)
  }

  lemma {:induction false} NothingRetained(calls: seq<Call>, e: Event)
    requires forall k :: 0 <= k < |calls| && calls[k].op.ProcessIf? ==> Undone(calls[k], e) == 0
    ensures Retained(calls, e) == 0
    decreases |calls|
  {
    if calls != [] {
      NothingRetained(calls[..|calls| - 1], e);
    }
  }

  /**
    The answer in two reads holds, whatever goes on in between, `processIf` included, if none held an
    event at the first.
   */
  lemma TwoReadsTell(w: World, moves: seq<Move>, e: Event)
    requires Inv(w) && w.shared.queue == [] && NoneRetained(w)
    ensures Told(w, moves, e)
  {
    var base, v := |w.shared.enqueued|, RunAll(w, moves);
    NothingRetained(w.calls, e);
    assert ComesFrom(w, base, e);
    RunKeepsInv(w, moves);
    RunComesFrom(w, moves, base, e);
    if v.shared.counter == 0 {
      NothingCounted(v, e);
      assert Places(v, e) == v.shared.submitted[e];
    }
  }

  // The other half: a processIf call that holds an event can make the answer wrong.

  /** How many steps a guarded call has left when it chooses nothing more. */
  function StepsLeft(s: Shared, c: Call): nat {
    match c.pc
    case Guarded => 4 + 2 * |s.queue|
    case Looping(at) => if at <= |c.temp| then 3 + 2 * (|c.temp| - at) else 3
    case Handed(at) => if at <= |c.temp| then 2 + 2 * (|c.temp| - at) else 2
    case Recycling => 2
    case Leaving => 1
    case _ => 0
  }

  lemma GuardedStep(s: Shared, c: Call)
    requires SharedValid(s) && CallValid(c) && Guards(c)
    ensures var (t, d) := Advance(s, c, false);
      && StepsLeft(t, d) < StepsLeft(s, c) && d.op == c.op
      && t.enqueued == s.enqueued && t.submitted == s.submitted
      && (c.op.ProcessIf? ==> t.handedOut == s.handedOut && t.cleared == s.cleared)
  {
    hide EventsOf;
    if c.pc.Looping? && c.pc.at < |c.temp| {
      assert c.temp[c.pc.at..][0] == c.temp[c.pc.at];
    }
  }

  lemma EndedHoldsNothing(c: Call, e: Event)
    requires CallValid(c) && Processes(c.op) && !Guards(c)
    ensures Undone(c, e) == 0
  {
  }

  /** Only call `j` has moved: nothing was enqueued, and the other calls are where they were. */
  predicate OnlyMoved(w: World, v: World, j: nat) {
    && |v.calls| == |w.calls|
    && (forall i :: 0 <= i < |w.calls| && i != j ==> v.calls[i] == w.calls[i])
    && v.shared.enqueued == w.shared.enqueued
  }

  /** A guarded call runs to its end; a `processIf` that chooses nothing more puts back all it has. */
  lemma {:induction false} CallEnds(w: World, j: nat, e: Event) returns (moves: seq<Move>)
    requires Inv(w) && j < |w.calls| && Processes(w.calls[j].op)
    ensures var v := RunAll(w, moves);
      && Inv(v) && OnlyMoved(w, v, j) && !Guards(v.calls[j])
      && (w.calls[j].op.ProcessIf? ==> Undone(w.calls[j], e) + Count(w.shared.queue, e) == Count(v.shared.queue, e))
    decreases StepsLeft(w.shared, w.calls[j])
  {
    var s, c := w.shared, w.calls[j];
    InvOfCall(w, j);
    if !Guards(c) {
      EndedHoldsNothing(c, e);
      moves := [];
    } else {
      hide Inv, Advance, CallValid, SharedValid, Guards, Undone, Count, Occurrences, StepsLeft;
      var (t, d) := Advance(s, c, false);
      var v := Step(w, Go(j, false));
      assert v == World(t, w.calls[j := d]);
      GuardedStep(s, c);
      ConsumerKeeps(s, c, false, 0, e);
      StepKeepsInv(w, Go(j, false));
      var rest := CallEnds(v, j, e);
      moves := [Go(j, false)] + rest;
      assert moves[1..] == rest;
    }
  }

  lemma {:induction false} RunsInTurn(w: World, first: seq<Move>, second: seq<Move>)
    ensures RunAll(w, first + second) == RunAll(RunAll(w, first), second)
    decreases |first|
  {
    hide Step;
    if first == [] {
      assert first + second == second;
    } else {
      assert (first + second)[1..] == first[1..] + second;
      RunsInTurn(Step(w, first[0]), first[1..], second);
    }
  }

  /** All guarded calls from `j` on run to their end, but for call `k`. */
  lemma {:induction false} OthersEnd(w: World, k: nat, j: nat, e: Event) returns (moves: seq<Move>)
    requires Inv(w) && k < |w.calls| && j <= |w.calls|
    requires forall i :: 0 <= i < j && i != k ==> !Guards(w.calls[i])
    ensures var v := RunAll(w, moves);
      && Inv(v) && |v.calls| == |w.calls| && v.calls[k] == w.calls[k] && v.shared.enqueued == w.shared.enqueued
      && forall i :: 0 <= i < |v.calls| && i != k ==> !Guards(v.calls[i])
    decreases |w.calls| - j
  {
    hide Inv, Step, Guards, Undone, Count;
    if j == |w.calls| {
      moves := [];
    } else if j == k || !Guards(w.calls[j]) {
      moves := OthersEnd(w, k, j + 1, e);
    } else {
      GuardedProcesses(w.calls[j]);
      var first := CallEnds(w, j, e);
      var second := OthersEnd(RunAll(w, first), k, j + 1, e);
      moves := first + second;
      RunsInTurn(w, first, second);
    }
  }

  lemma GuardedProcesses(c: Call)
    requires Guards(c)
    ensures Processes(c.op)
  {
  }

  lemma {:induction false} NoGuards(calls: seq<Call>)
    requires forall i :: 0 <= i < |calls| ==> !Guards(calls[i])
    ensures GuardsIn(calls) == 0
    decreases |calls|
  {
    hide Guards;
    if calls != [] {
      NoGuards(calls[..|calls| - 1]);
    }
  }

  /** From any world with an empty queue and a `processIf` that holds an event, the answer can go wrong. */
  lemma RetainedCanMislead(w: World, k: nat, e: Event) returns (moves: seq<Move>)
    requires Inv(w) && w.shared.queue == []
    requires k < |w.calls| && w.calls[k].op.ProcessIf? && Undone(w.calls[k], e) > 0
    ensures !Told(w, moves, e)
  {
    var first := OthersEnd(w, k, 0, e);
    var u := RunAll(w, first);
    var second := CallEnds(u, k, e);
    moves := first + second;
    RunsInTurn(w, first, second);
    var v := RunAll(w, moves);
    NoGuards(v.calls);
    assert v.shared.counter == 0 && Places(v, e) == v.shared.submitted[e];
    NothingCounted(v, e);
    assert v.shared.enqueued[|w.shared.enqueued|..] == [];
  }

  /** Exactly when an answer that begins in `w` can be relied on: no `processIf` holds an event then. */
  lemma TwoReadsTellIff(w: World)
    requires Inv(w) && w.shared.queue == []
    ensures (forall moves: seq<Move>, e: Event :: Told(w, moves, e)) <==> NoneRetained(w)
  {
    if NoneRetained(w) {
      forall moves: seq<Move>, e: Event ensures Told(w, moves, e) {
        TwoReadsTell(w, moves, e);
      }
    } else {
      var k, e :| 0 <= k < |w.calls| && w.calls[k].op.ProcessIf? && Undone(w.calls[k], e) != 0;
      var moves := RetainedCanMislead(w, k, e);
    }
  }

  lemma RunNext(w: World, moves: seq<Move>, i: nat, v: World)
    requires i < |moves| && Step(w, moves[i]) == v
    ensures RunAll(w, moves[i..]) == RunAll(v, moves[i + 1..])
  {
    hide Step;
    assert moves[i..][1..] == moves[i + 1..];
  }

  lemma EventIsEnqueued(e: Event, moves: seq<Move>)
    requires |moves| >= 4 && moves[..4] == [Start(Enqueue(e)), Go(0, false), Go(0, false), Go(0, false)]
    ensures RunAll(Initial(), moves) == RunAll(AfterEnqueue(e), moves[4..])
  {
    var item, enqueue := Item(0, Some(e)), Call(Enqueue(e), Begin, [], [], [], []);
    var s1 := Initial().shared.(submitted := multiset{e});
    var w1 := World(s1, [enqueue]);
    var w2 := World(s1.(next := 1), [enqueue.(pc := HasBuffer, temp := [Item(0, None)])]);
    var w3 := World(s1.(next := 1), [enqueue.(pc := Filled, temp := [item])]);
    assert moves[0..] == moves;
    assert moves[0] == moves[..4][0] && moves[1] == moves[..4][1] && moves[2] == moves[..4][2];
    assert moves[3] == moves[..4][3];
    RunNext(Initial(), moves, 0, w1);
    RunNext(w1, moves, 1, w2);
    RunNext(w2, moves, 2, w3);
    assert Step(w3, Go(0, false)) == AfterEnqueue(e) by {
      assert [] + [item] == [item] && [] + [e] == [e];
    }
    RunNext(w3, moves, 3, AfterEnqueue(e));
  }

  function AfterEnqueue(e: Event): World {
    World(Shared([Item(0, Some(e))], [], 0, 1, false, multiset{e}, [e], [], multiset{}),
        [Call(Enqueue(e), Done, [], [], [], [])])
  }

  lemma EventIsTakenOff(e: Event, moves: seq<Move>)
    requires moves == [Start(ProcessIf), Go(1, false), Go(1, false)]
    ensures RunAll(AfterEnqueue(e), moves) == AfterTakeOff(e)
  {
    var w, call := AfterEnqueue(e), Call(ProcessIf, Begin, [], [], [], []);
    var w1 := World(w.shared, w.calls + [call]);
    var w2 := World(w.shared.(counter := 1), w.calls + [call.(pc := Guarded)]);
    assert moves[0..] == moves && moves[3..] == [];
    RunNext(w, moves, 0, w1);
    RunNext(w1, moves, 1, w2);
    TakenOff(e);
    RunNext(w2, moves, 2, AfterTakeOff(e));
  }

  lemma TakenOff(e: Event)
    ensures var w := AfterEnqueue(e);
      Step(World(w.shared.(counter := 1), w.calls + [Call(ProcessIf, Guarded, [], [], [], [])]), Go(1, false))
          == AfterTakeOff(e)
  {
    var items := [Item(0, Some(e))];
    assert items[..1] == items && items[1..] == [] && EventsOf(items) == [e];
    var w := AfterEnqueue(e);
    var (s, c) := Advance(w.shared.(counter := 1), Call(ProcessIf, Guarded, [], [], [], []), false);
    assert s == AfterTakeOff(e).shared && c == AfterTakeOff(e).calls[1];
    assert (w.calls + [Call(ProcessIf, Guarded, [], [], [], [])])[1 := c] == AfterTakeOff(e).calls;
  }

  function AfterTakeOff(e: Event): World {
    World(Shared([], [], 1, 1, false, multiset{e}, [e], [], multiset{}),
          [Call(Enqueue(e), Done, [], [], [], []), Call(ProcessIf, Looping(0), [Item(0, Some(e))], [], [e], [])])
  }

  /** The `processIf` does not choose the event. */
  lemma EventComesBack(e: Event, moves: seq<Move>)
    requires moves == [Go(1, false), Go(1, false), Go(1, false), Go(1, false)]
    ensures var v := RunAll(AfterTakeOff(e), moves);
      && v.shared == AfterTakeOff(e).shared.(queue := [Item(0, Some(e))], counter := 0)
      && Unannounced(v.calls, e) == 0
  {
    var w, item := AfterTakeOff(e), Item(0, Some(e));
    var s, enqueue, call := w.shared, w.calls[0], w.calls[1];
    var w1 := World(s, [enqueue, call.(pc := Looping(1), flags := [false])]);
    var w2 := World(s.(queue := [item]), [enqueue, call.(pc := Recycling, temp := [], flags := [false])]);
    var w3 := World(s.(queue := [item]), [enqueue, call.(pc := Leaving, temp := [], flags := [false])]);
    var w4 := World(s.(queue := [item], counter := 0), [enqueue, call.(pc := Done, temp := [], flags := [false])]);
    assert moves[0..] == moves && moves[4..] == [];
    assert Step(w, Go(1, false)) == w1 by {
      assert [] + [false] == [false];
    }
    RunNext(w, moves, 0, w1);
    assert Step(w1, Go(1, false)) == w2 by {
      assert [item] + [] == [item];
    }
    RunNext(w1, moves, 1, w2);
    RunNext(w2, moves, 2, w3);
    RunNext(w3, moves, 3, w4);
    NoneUnannounced(w4.calls, e);
  }

  lemma {:induction false} NoneUnannounced(calls: seq<Call>, e: Event)
    requires forall k :: 0 <= k < |calls| ==> !Processes(calls[k].op) ==> calls[k].pc == Done && calls[k].temp == []
    ensures Unannounced(calls, e) == 0
    decreases |calls|
  {
    if calls != [] {
      NoneUnannounced(calls[..|calls| - 1], e);
    }
  }

  /** Such a world is reached: an event that is not chosen comes back between the two reads. */
  lemma TwoReadsCanMiss(e: Event) returns (before: seq<Move>, between: seq<Move>)
    ensures var w, v := RunAll(Initial(), before), RunAll(RunAll(Initial(), before), between);
      && w.shared.queue == [] && v.shared.counter == 0
      && w.shared.enqueued == v.shared.enqueued == [e]
      && v.shared.submitted[e] == 1 > Occurrences(v.shared.handedOut, e) + v.shared.cleared[e] + Unannounced(v.calls, e)
  {
    before := [Start(Enqueue(e)), Go(0, false), Go(0, false), Go(0, false), Start(ProcessIf), Go(1, false),
        Go(1, false)];
    between := [Go(1, false), Go(1, false), Go(1, false), Go(1, false)];
    EventIsEnqueued(e, before);
    EventIsTakenOff(e, before[4..]);
    EventComesBack(e, between);
  }
}
