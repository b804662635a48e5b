/** The order in which events come out of the queue. */
module EventQueueOrder {
  import opened Common
  import opened EventQueueModel
  import opened EventQueueRuns

  // ---------------------------------------------------------------- first in, first out

  predicate TakesInOrder(op: Op) {
    op.Enqueue? || op.Process? || op.ProcessOne? || op.TakeEvent?
  }

  /** The events a call has taken off the queue and still has to hand out. */
  function Held(c: Call): seq<Event> {
    if c.op.Enqueue? then []
    else if c.pc.Handed? && c.pc.at < |c.temp| then EventsOf(c.temp[c.pc.at + 1..])
    else EventsOf(c.temp)
  }

  /** At no moment do two calls hold events: one consumer, or consumers that do not overlap. */
  predicate OneHolder(w: World) {
    forall i, j :: 0 <= i < j < |w.calls| ==> Held(w.calls[i]) == [] || Held(w.calls[j]) == []
  }

  predicate InOrder(w: World) {
    (forall k :: 0 <= k < |w.calls| ==> TakesInOrder(w.calls[k].op)) && OneHolder(w)
  }

  predicate AlwaysInOrder(w: World, moves: seq<Move>)
    decreases |moves|
  {
    InOrder(w) && (moves == [] || AlwaysInOrder(Step(w, moves[0]), moves[1..]))
  }

  predicate HoldsAtMost(w: World, k: nat) {
    forall j :: 0 <= j < |w.calls| && j != k ==> Held(w.calls[j]) == []
  }

  function HeldBy(w: World, k: nat): seq<Event> {
    if k < |w.calls| then Held(w.calls[k]) else []
  }

  /** Handed out, then held by the call that holds events, then queued: all in the order they were enqueued. */
  ghost predicate Fifo(w: World) {
    forall k: nat :: HoldsAtMost(w, k) ==>
      w.shared.handedOut + HeldBy(w, k) + EventsOf(w.shared.queue) == w.shared.enqueued
  }

  predicate SameOrder(s: Shared, c: Call, t: Shared, d: Call) {
    && t.handedOut + Held(d) + EventsOf(t.queue) == s.handedOut + Held(c) + EventsOf(s.queue)
    && t.enqueued == s.enqueued
    && (Held(c) == Held(d) == [] ==> t.handedOut == s.handedOut && EventsOf(t.queue) == EventsOf(s.queue))
  }

  lemma TakeOffInOrder(s: Shared, c: Call)
    requires CallValid(c) && c.pc == Guarded && !c.op.Enqueue?
    ensures var (t, d) := TakeOff(s, c); SameOrder(s, c, t, d)
  {
    var n := |TakeOff(s, c).1.temp|;
    ConcatEvents(s.queue[..n], s.queue[n..]);
    assert s.queue == s.queue[..n] + s.queue[n..];
  }

  /** The events in a list whose first `at` nodes are done. */
  lemma EventsFrom(items: seq<Item>, at: nat)
    requires at < |items| && AllEmpty(items[..at]) && items[at].content.Some?
    ensures EventsOf(items) == [items[at].content.value] + EventsOf(items[at + 1..])
  {
    assert items == items[..at] + items[at..] && items[at..][0] == items[at] && items[at..][1..] == items[at + 1..];
    ConcatEvents(items[..at], items[at..]);
    EmptyEvents(items[..at]);
  }

  lemma EventsAfter(items: seq<Item>, at: nat)
    requires at <= |items| && AllEmpty(items[..at])
    ensures EventsOf(items) == EventsOf(items[at..])
  {
    ConcatEvents(items[..at], items[at..]);
    assert items == items[..at] + items[at..];
    EmptyEvents(items[..at]);
  }

  lemma HandOutInOrder(s: Shared, c: Call, at: nat, chosen: bool)
    requires CallValid(c) && TakesInOrder(c.op) && !c.op.Enqueue? && c.pc == Looping(at) && at < |c.temp|
    ensures var (t, d) := HandOut(s, c, at, chosen); SameOrder(s, c, t, d)
  {
    hide EventsOf, AllEmpty;
    assert c.temp[at..][0] == c.temp[at];
    EventsFrom(c.temp, at);
  }

  lemma ClearInOrder(s: Shared, c: Call, at: nat)
    requires CallValid(c) && TakesInOrder(c.op) && !c.op.Enqueue? && c.pc == Handed(at)
    ensures var (t, d) := Clear(s, c, at); SameOrder(s, c, t, d)
  {
    hide EventsOf;
    var d := Clear(s, c, at).1;
    assert d.temp[..at + 1] == c.temp[..at] + [d.temp[at]] && d.temp[at + 1..] == c.temp[at + 1..];
    EventsAfter(d.temp, at + 1);
  }

  lemma PutBackInOrder(s: Shared, c: Call, at: nat)
    requires CallValid(c) && TakesInOrder(c.op) && !c.op.Enqueue? && c.pc == Looping(at) && at == |c.temp|
    ensures var (t, d) := PutBack(s, c); SameOrder(s, c, t, d)
  {
  }

  lemma RecycleInOrder(s: Shared, c: Call)
    requires CallValid(c) && !c.op.Enqueue? && c.pc == Recycling
    ensures var (t, d) := Recycle(s, c); SameOrder(s, c, t, d)
  {
    EmptyEvents(c.temp);
  }

  lemma ConsumerTakesInOrder(s: Shared, c: Call, hint: bool)
    requires SharedValid(s) && CallValid(c) && TakesInOrder(c.op) && !c.op.Enqueue?
    ensures var (t, d) := Advance(s, c, hint); SameOrder(s, c, t, d)
  {
    hide TakeOff, HandOut, PutBack, Clear, Recycle;
    match c.pc
    case Guarded => TakeOffInOrder(s, c);
    case Looping(at) =>
      if at < |c.temp| {
        HandOutInOrder(s, c, at, hint);
      } else {
        PutBackInOrder(s, c, at);
      }
    case Handed(at) => ClearInOrder(s, c, at);
    case Recycling => RecycleInOrder(s, c);
    case _ =>
  }

  lemma EnqueueAppends(s: Shared, c: Call, hint: bool)
    requires CallValid(c) && c.op.Enqueue?
    ensures var (t, d) := Advance(s, c, hint);
      && t.handedOut == s.handedOut
      && var more := if c.pc.Filled? then [c.op.event] else [];
         EventsOf(t.queue) == EventsOf(s.queue) + more && t.enqueued == s.enqueued + more
  {
    if c.pc.Filled? {
      ConcatEvents(s.queue, c.temp);
      assert c.temp[1..] == [] && EventsOf(c.temp) == [c.op.event];
    }
  }

  lemma GoKeepsFifo(w: World, k: nat, hint: bool)
    requires Inv(w) && k < |w.calls| && InOrder(w) && Fifo(w)
    ensures Fifo(Step(w, Go(k, hint)))
  {
    hide Advance, Held, CallValid, SharedValid, EventsOf;
    var v, c := Step(w, Go(k, hint)), w.calls[k];
    var (t, d) := Advance(w.shared, c, hint);
    assert v == World(t, w.calls[k := d]);
    InvOfCall(w, k);
    AdvanceKeepsOp(w.shared, c, hint);
    HoldsNothing(c);
    HoldsNothing(d);
    assert forall i :: 0 <= i < |w.calls| && i != k ==> w.calls[i] == v.calls[i];
    if c.op.Enqueue? {
      EnqueueAppends(w.shared, c, hint);
    } else {
      ConsumerTakesInOrder(w.shared, c, hint);
    }
    forall j: nat | HoldsAtMost(v, j)
      ensures t.handedOut + HeldBy(v, j) + EventsOf(t.queue) == t.enqueued
    {
      var held, more := HeldBy(w, j), if c.op.Enqueue? && c.pc.Filled? then [c.op.event] else [];
      assert w.shared.handedOut + held + (EventsOf(w.shared.queue) + more)
          == (w.shared.handedOut + held + EventsOf(w.shared.queue)) + more;
      if j == k || Held(c) != [] {
        assert HoldsAtMost(w, k) by {
          if j == k {
            assert forall i :: 0 <= i < |w.calls| && i != k ==> Held(v.calls[i]) == [];
          }
        }
        assert w.shared.handedOut + Held(c) + EventsOf(w.shared.queue) == w.shared.enqueued;
        assert j != k ==> HeldBy(v, j) == [] == Held(v.calls[k]);
      } else {
        assert Held(v.calls[k]) == [] && HeldBy(v, j) == held;
        assert HoldsAtMost(w, j) by {
          assert forall i :: 0 <= i < |w.calls| && i != j ==> Held(v.calls[i]) == [];
        }
        assert w.shared.handedOut + HeldBy(w, j) + EventsOf(w.shared.queue) == w.shared.enqueued;
      }
    }
  }

  lemma HoldsNothing(c: Call)
    ensures c.op.Enqueue? ==> Held(c) == []
  {
  }

  lemma {:induction false} RunKeepsFifo(w: World, moves: seq<Move>)
    requires Inv(w) && Fifo(w) && AlwaysInOrder(w, moves)
    ensures Fifo(RunAll(w, moves))
    decreases |moves|
  {
    hide Inv, Fifo;
    if moves != [] {
      var v := Step(w, moves[0]);
      StepKeepsInv(w, moves[0]);
      assert Fifo(v) by {
        match moves[0]
        case Start(op) => StartKeepsFifo(w, op);
        case Go(k, hint) =>
          if k < |w.calls| {
            GoKeepsFifo(w, k, hint);
          }
      }
      RunKeepsFifo(v, moves[1..]);
    }
  }

  lemma StartKeepsFifo(w: World, op: Op)
    requires Fifo(w)
    ensures Fifo(Step(w, Start(op)))
  {
    var v := Step(w, Start(op));
    forall k: nat | HoldsAtMost(v, k)
      ensures v.shared.handedOut + HeldBy(v, k) + EventsOf(v.shared.queue) == v.shared.enqueued
    {
      assert forall j :: 0 <= j < |w.calls| ==> w.calls[j] == v.calls[j];
      assert HoldsAtMost(w, k);
    }
  }

  /** Queue order: what has been handed out, by any calls that did not overlap, is what was enqueued first, in order. */
  lemma HandedOutInOrder(moves: seq<Move>)
    requires AlwaysInOrder(Initial(), moves)
    ensures RunAll(Initial(), moves).shared.handedOut <= RunAll(Initial(), moves).shared.enqueued
  {
    var w := RunAll(Initial(), moves);
    InitiallyInv();
    RunKeepsFifo(Initial(), moves);
    EndsInOrder(Initial(), moves);
    var k := SomeHolder(w);
    assert w.shared.handedOut + (HeldBy(w, k) + EventsOf(w.shared.queue)) == w.shared.enqueued;
  }

  lemma {:induction false} EndsInOrder(w: World, moves: seq<Move>)
    requires AlwaysInOrder(w, moves)
    ensures InOrder(RunAll(w, moves))
    decreases |moves|
  {
    hide InOrder, Step;
    if moves != [] {
      EndsInOrder(Step(w, moves[0]), moves[1..]);
    }
  }

  lemma SomeHolder(w: World) returns (k: nat)
    requires OneHolder(w)
    ensures HoldsAtMost(w, k)
  {
    hide Held;
    if i :| 0 <= i < |w.calls| && Held(w.calls[i]) != [] {
      k := i;
    } else {
      k := 0;
    }
  }

  // ---------------------------------------------------------------- one call, start to end

  /** The events with flag true, in order. */
  function Chosen(events: seq<Event>, flags: seq<bool>): seq<Event>
    requires |flags| <= |events|
    decreases |flags|
  {
    if flags == [] then []
    else
      var last := |flags| - 1;
      Chosen(events, flags[..last]) + (if flags[last] then [events[last]] else [])
  }

  /** The events with flag false, in order. */
  function Kept(events: seq<Event>, flags: seq<bool>): seq<Event>
    requires |flags| <= |events|
    decreases |flags|
  {
    if flags == [] then []
    else
      var last := |flags| - 1;
      Kept(events, flags[..last]) + (if flags[last] then [] else [events[last]])
  }

  predicate AllTrue(flags: seq<bool>) {
    forall i :: 0 <= i < |flags| ==> flags[i]
  }

  lemma {:induction false} AllChosen(events: seq<Event>, flags: seq<bool>)
    requires |flags| <= |events| && AllTrue(flags)
    ensures Chosen(events, flags) == events[..|flags|] && Kept(events, flags) == []
    decreases |flags|
  {
    if flags != [] {
      AllChosen(events, flags[..|flags| - 1]);
    }
  }

  /** Everything that was queued before the call, and everything enqueued since. */
  function Arrivals(before: Shared, s: Shared): seq<Event>
    requires before.enqueued <= s.enqueued
  {
    EventsOf(before.queue) + s.enqueued[|before.enqueued|..]
  }

  predicate Over(pc: Pc) {
    pc.Recycling? || pc.Leaving? || pc.Done?
  }

  predicate ListsMatch(c: Call)
    requires |c.flags| <= |c.took|
  {
    match c.pc
    case Looping(at) =>
      && at <= |c.temp|
      && EventsOf(c.temp[..at]) == Kept(c.took, c.flags) && EventsOf(c.temp[at..]) == c.took[|c.flags|..]
    case Handed(at) =>
      && at < |c.temp|
      && EventsOf(c.temp[..at]) == Kept(c.took, c.flags) && EventsOf(c.temp[at + 1..]) == c.took[|c.flags|..]
    case _ => |c.flags| == |c.took| && (c.pc.Begin? || c.pc.Guarded? ==> c.took == [])
  }

  /** How far a call has come, told by the queue before it, the queue now and what has been handed out. */
  predicate Story(before: Shared, s: Shared, c: Call) {
    && before.enqueued <= s.enqueued
    && |c.flags| <= |c.took|
    && c.took <= Arrivals(before, s)
    && EventsOf(s.queue) == (if Over(c.pc) then Kept(c.took, c.flags) else []) + Arrivals(before, s)[|c.took|..]
    && s.handedOut == before.handedOut + Chosen(c.took, c.flags)
    && (c.op.ProcessIf? || AllTrue(c.flags))
    && Size(before, c)
    && ListsMatch(c)
  }

  /** How many events a call takes: all there were, or one. */
  predicate Size(before: Shared, c: Call) {
    c.took == [] || if c.op.ProcessOne? || c.op.TakeEvent? then |c.took| == 1 else |EventsOf(before.queue)| <= |c.took|
  }

  lemma OthersEnqueue(before: Shared, s: Shared, c: Call, other: Call, hint: bool)
    requires CallValid(other) && other.op.Enqueue? && Story(before, s, c)
    ensures Story(before, Advance(s, other, hint).0, c)
  {
    hide EventsOf, Chosen, Kept;
    EnqueueAppends(s, other, hint);
    var t := Advance(s, other, hint).0;
    var more := if other.pc.Filled? then [other.op.event] else [];
    assert Arrivals(before, t) == Arrivals(before, s) + more;
    assert Arrivals(before, t)[|c.took|..] == Arrivals(before, s)[|c.took|..] + more;
  }

  lemma TakeOffGoesOn(before: Shared, s: Shared, c: Call)
    requires SharedValid(s) && c.pc == Guarded && !c.op.Enqueue? && Story(before, s, c)
    ensures var (t, d) := TakeOff(s, c); Story(before, t, d)
  {
    var (t, d) := TakeOff(s, c);
    var n := |d.temp|;
    ConcatEvents(s.queue[..n], s.queue[n..]);
    assert s.queue == s.queue[..n] + s.queue[n..];
    FullEvents(s.queue[..n]);
    FullEvents(s.queue);
    assert d.temp[0..] == d.temp && d.temp[..0] == [] && d.took[0..] == d.took && c.flags == [];
    assert Arrivals(before, s)[0..] == Arrivals(before, s) == d.took + EventsOf(t.queue);
  }

  lemma HandOutGoesOn(before: Shared, s: Shared, c: Call, at: nat, chosen: bool)
    requires CallValid(c) && c.pc == Looping(at) && at < |c.temp| && !c.op.Enqueue? && !c.op.ClearEvents?
    requires Story(before, s, c)
    ensures var (t, d) := HandOut(s, c, at, chosen); Story(before, t, d)
  {
    hide CallValid, EventsOf, Chosen, Kept;
    var (t, d) := HandOut(s, c, at, chosen);
    NextEvent(c, at);
    var m := |c.flags|;
    assert d.flags[..m] == c.flags;
    assert t.handedOut == before.handedOut + Chosen(d.took, d.flags) by {
      OneMore(c.took, c.flags, d.flags[m]);
    }
    OneMore(c.took, c.flags, d.flags[m]);
  }

  lemma OneMore(events: seq<Event>, flags: seq<bool>, flag: bool)
    requires |flags| < |events|
    ensures Chosen(events, flags + [flag]) == Chosen(events, flags) + (if flag then [events[|flags|]] else [])
    ensures Kept(events, flags + [flag]) == Kept(events, flags) + (if flag then [] else [events[|flags|]])
  {
    assert (flags + [flag])[..|flags|] == flags;
  }

  lemma NextEvent(c: Call, at: nat)
    requires CallValid(c) && c.pc == Looping(at) && at < |c.temp| && !c.op.Enqueue?
    requires |c.flags| <= |c.took| && EventsOf(c.temp[at..]) == c.took[|c.flags|..]
    ensures |c.flags| < |c.took| && c.temp[at].content == Some(c.took[|c.flags|])
    ensures EventsOf(c.temp[at + 1..]) == c.took[|c.flags| + 1..]
    ensures EventsOf(c.temp[..at + 1]) == EventsOf(c.temp[..at]) + [c.took[|c.flags|]]
  {
    var item, m := c.temp[at], |c.flags|;
    assert c.temp[at..][0] == item && c.temp[at..][1..] == c.temp[at + 1..];
    assert EventsOf(c.temp[at..]) == [item.content.value] + EventsOf(c.temp[at + 1..]);
    assert c.took[m..][0] == item.content.value && c.took[m..][1..] == c.took[m + 1..];
    ConcatEvents(c.temp[..at], [item]);
    assert c.temp[..at + 1] == c.temp[..at] + [item] && [item][1..] == [];
  }

  lemma ClearGoesOn(before: Shared, s: Shared, c: Call, at: nat)
    requires CallValid(c) && c.pc == Handed(at) && !c.op.Enqueue? && Story(before, s, c)
    ensures var (t, d) := Clear(s, c, at); Story(before, t, d)
  {
    var d := Clear(s, c, at).1;
    if c.op.ProcessIf? {
      assert d.temp[..at] == c.temp[..at] && d.temp[at..] == c.temp[at + 1..];
    } else {
      assert d.temp[..at + 1] == c.temp[..at] + [d.temp[at]] && d.temp[at + 1..] == c.temp[at + 1..];
      ConcatEvents(c.temp[..at], [d.temp[at]]);
      assert [d.temp[at]][1..] == [];
    }
  }

  lemma PutBackGoesOn(before: Shared, s: Shared, c: Call, at: nat)
    requires CallValid(c) && c.pc == Looping(at) && at == |c.temp| && !c.op.Enqueue? && Story(before, s, c)
    ensures var (t, d) := PutBack(s, c); Story(before, t, d)
  {
    hide Chosen, Kept;
    assert c.temp[..at] == c.temp && c.temp[at..] == [];
    assert |c.flags| == |c.took| by {
      assert EventsOf([]) == [];
    }
    if c.op.ProcessIf? {
      ConcatEvents(c.temp, s.queue);
    } else {
      AllChosen(c.took, c.flags);
    }
  }

  lemma GoesOn(before: Shared, s: Shared, c: Call, hint: bool)
    requires SharedValid(s) && CallValid(c) && !c.op.Enqueue? && !c.op.ClearEvents? && Story(before, s, c)
    ensures var (t, d) := Advance(s, c, hint); Story(before, t, d)
  {
    hide TakeOff, HandOut, PutBack, Clear, EventsOf, Chosen, Kept;
    match c.pc
    case Guarded => TakeOffGoesOn(before, s, c);
    case Looping(at) =>
      LoopInRange(c, at);
      if at < |c.temp| {
        HandOutGoesOn(before, s, c, at, hint);
      } else {
        PutBackGoesOn(before, s, c, at);
      }
    case Handed(at) => ClearGoesOn(before, s, c, at);
    case Begin => NothingKept(c.took, c.flags);
    case _ =>
  }

  lemma LoopInRange(c: Call, at: nat)
    requires CallValid(c) && !c.op.Enqueue? && c.pc == Looping(at)
    ensures at <= |c.temp|
  {
  }

  lemma NothingKept(events: seq<Event>, flags: seq<bool>)
    requires |flags| <= |events|
    ensures flags == [] ==> Kept(events, flags) == []
  {
  }

  /** Only call `k` consumes during the moves; the others enqueue. */
  predicate Lone(w: World, k: nat, moves: seq<Move>)
    decreases |moves|
  {
    moves == [] ||
    ((match moves[0]
      case Start(op) => op.Enqueue?
      case Go(j, _) => j == k || j >= |w.calls| || w.calls[j].op.Enqueue?) &&
     Lone(Step(w, moves[0]), k, moves[1..]))
  }

  lemma {:induction false} StoryOfRun(before: Shared, w: World, k: nat, moves: seq<Move>)
    requires Inv(w) && k < |w.calls| && Lone(w, k, moves)
    requires !w.calls[k].op.Enqueue? && !w.calls[k].op.ClearEvents? && Story(before, w.shared, w.calls[k])
    ensures var v := RunAll(w, moves);
      Inv(v) && k < |v.calls| && v.calls[k].op == w.calls[k].op && Story(before, v.shared, v.calls[k])
    decreases |moves|
  {
    hide Inv, Story, CallValid, SharedValid, Advance;
    if moves != [] {
      var v := Step(w, moves[0]);
      StepKeepsInv(w, moves[0]);
      match moves[0] {
        case Start(op) =>
          assert Story(before, v.shared, v.calls[k]) by {
            SubmittingTellsNothing(before, w.shared, w.calls[k], op.event);
          }
        case Go(j, hint) =>
          if j < |w.calls| {
            InvOfCall(w, j);
            InvOfCall(w, k);
            AdvanceKeepsOp(w.shared, w.calls[j], hint);
            if j == k {
              GoesOn(before, w.shared, w.calls[k], hint);
            } else {
              OthersEnqueue(before, w.shared, w.calls[k], w.calls[j], hint);
            }
          }
      }
      StoryOfRun(before, v, k, moves[1..]);
    }
  }

  lemma SubmittingTellsNothing(before: Shared, s: Shared, c: Call, e: Event)
    requires Story(before, s, c)
    ensures Story(before, s.(submitted := s.submitted + multiset{e}), c)
  {
  }

  /**
    A call from its first step to its last, other threads and listeners enqueueing meanwhile.  With
    `all` the events queued before and those enqueued during the call, it takes the first `n` of
    them, hands out the chosen ones in order, and leaves the others, in order, before the rest.
    Only `processIf` chooses.
   */
  lemma CallKeepsOrder(w: World, k: nat, moves: seq<Move>)
    requires Inv(w) && k < |w.calls| && Lone(w, k, moves)
    requires var op := w.calls[k].op; !op.Enqueue? && !op.ClearEvents? && w.calls[k] == Call(op, Begin, [], [], [], [])
    requires k < |RunAll(w, moves).calls| && RunAll(w, moves).calls[k].pc == Done
    ensures var v, op := RunAll(w, moves), w.calls[k].op;
      && w.shared.enqueued <= v.shared.enqueued
      && var all, n, flags := Arrivals(w.shared, v.shared), |v.calls[k].took|, v.calls[k].flags;
      && n == |flags| <= |all|
      && EventsOf(v.shared.queue) == Kept(all, flags) + all[n..]
      && v.shared.handedOut == w.shared.handedOut + Chosen(all, flags)
      && (op.ProcessIf? || (AllTrue(flags) && Chosen(all, flags) == all[..n] && Kept(all, flags) == []))
      && (n == 0 || if op.ProcessOne? || op.TakeEvent? then n == 1 else |EventsOf(w.shared.queue)| <= n)
  {
    hide Inv;
    var c := w.calls[k];
    assert c.took[0..] == [] && w.shared.enqueued[|w.shared.enqueued|..] == [];
    assert Story(w.shared, w.shared, c);
    StoryOfRun(w.shared, w, k, moves);
    var v := RunAll(w, moves);
    var all, d := Arrivals(w.shared, v.shared), v.calls[k];
    SamePrefix(d.took, all, d.flags);
    if !c.op.ProcessIf? {
      AllChosen(all, d.flags);
    }
  }

  lemma {:induction false} SamePrefix(a: seq<Event>, b: seq<Event>, flags: seq<bool>)
    requires a <= b && |flags| <= |a|
    ensures Chosen(a, flags) == Chosen(b, flags) && Kept(a, flags) == Kept(b, flags)
    decreases |flags|
  {
    if flags != [] {
      SamePrefix(a, b, flags[..|flags| - 1]);
    }
  }
}
