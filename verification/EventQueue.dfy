/**
  `EventQueueBase` and `BufferedItem` as they are when one thread uses them and its listeners leave
  the queue alone.  Each method is proved to be a sequence of the steps of EventQueueModel, so what
  is proved there of every interleaving holds of these bodies.
 */
module EventQueues {
  import opened Common
  import opened EventQueueModel
  import R = EventQueueRuns

  /** A node of the lists; `id` only tells nodes apart. */
  class BufferedItem {
    ghost const id: nat
    var buffer: Event
    var dtor: bool

    ghost function Abstract(): Item
      reads this
    {
      Item(id, if dtor then Some(buffer) else None)
    }

    constructor (ghost id: nat, unset: Event)
      ensures Abstract() == Item(id, None)
    {
      this.id, buffer, dtor := id, unset, false;
    }

    method Set(e: Event)
      requires !dtor
      modifies this
      ensures Abstract() == Item(id, Some(e))
    {
      buffer, dtor := e, true;
    }

    method Get() returns (e: Event)
      requires dtor
      ensures Abstract() == Item(id, Some(e))
    {
      e := buffer;
    }

    method Clear()
      requires dtor
      modifies this
      ensures Abstract() == Item(id, None)
    {
      dtor := false;
    }
  }

  ghost function Items(list: seq<BufferedItem>): (items: seq<Item>)
    reads list
    ensures |items| == |list| && forall i :: 0 <= i < |list| ==> items[i] == list[i].Abstract()
  {
    seq(|list|, i requires 0 <= i < |list| reads list => list[i].Abstract())
  }

  /** A call that nothing interrupts, with what its tests came out as. */
  function Steps(s: Shared, c: Call, tests: seq<bool>): (Shared, Call)
    decreases |tests|
  {
    if tests == [] then (s, c)
    else
      var (t, d) := Steps(s, c, tests[..|tests| - 1]);
      Advance(t, d, tests[|tests| - 1])
  }

  lemma OneStep(s: Shared, c: Call, tests: seq<bool>, test: bool, t: Shared, d: Call)
    requires Steps(s, c, tests) == (t, d)
    ensures Steps(s, c, tests + [test]) == Advance(t, d, test)
  {
    hide Advance;
    assert (tests + [test])[..|tests|] == tests;
  }

  /** A call on its way: where it began, and what its tests came out as so far. */
  datatype Run = Run(s0: Shared, c0: Call, tests: seq<bool>, c: Call) {
    predicate Reaches(s: Shared) {
      Steps(s0, c0, tests) == (s, c)
    }

    predicate Continues(from: Run) {
      s0 == from.s0 && c0 == from.c0
    }

    function Next(test: bool, s: Shared): (r: Run)
      requires Reaches(s)
      ensures r.Continues(this) && r.c == Advance(s, c, test).1 && r.Reaches(Advance(s, c, test).0)
    {
      OneStep(s0, c0, tests, test, s, c);
      this.(tests := tests + [test], c := Advance(s, c, test).1)
    }
  }

  function Starting(s: Shared, op: Op): (r: Run)
    ensures r.Reaches(s) && r.c == NewCall(op)
  {
    Run(s, NewCall(op), [], NewCall(op))
  }

  function NewCall(op: Op): Call {
    Call(op, Begin, [], [], [], [])
  }

  /** The flags are what the predicate says of the events. */
  predicate Answers(func: Event -> bool, events: seq<Event>, flags: seq<bool>) {
    |flags| <= |events| && forall i :: 0 <= i < |flags| ==> flags[i] == func(events[i])
  }

  /** The flags answer for what was taken up to the node at `at`. */
  predicate SoFar(func: Event -> bool, took: seq<Event>, flags: seq<bool>, items: seq<Item>, at: nat, any: bool) {
    && at <= |items| && Answers(func, took, flags)
    && EventsOf(items[at..]) == took[|flags|..]
    && (any <==> true in flags)
  }

  lemma NoneAnswered(func: Event -> bool, items: seq<Item>)
    ensures SoFar(func, EventsOf(items), [], items, 0, false)
  {
    assert items[0..] == items && EventsOf(items)[0..] == EventsOf(items);
  }

  lemma NextAnswer(func: Event -> bool, took: seq<Event>, flags: seq<bool>, items: seq<Item>, at: nat, any: bool)
    requires SoFar(func, took, flags, items, at, any) && at < |items| && items[at].content.Some?
    ensures var e := items[at].content.value;
      if func(e) then SoFar(func, took, flags + [true], Drop(items, at), at, true)
      else SoFar(func, took, flags + [false], items, at + 1, any)
  {
    var m := |flags|;
    assert items[at..][0] == items[at] && items[at..][1..] == items[at + 1..] == Drop(items, at)[at..];
    assert took[m..][1..] == took[m + 1..];
    assert took[m] == took[m..][0];
  }

  lemma AllAnswered(func: Event -> bool, took: seq<Event>, flags: seq<bool>, items: seq<Item>, at: nat, any: bool)
    requires SoFar(func, took, flags, items, at, any) && at == |items|
    ensures Answers(func, took, flags) && |flags| == |took| && (any <==> true in flags)
  {
    assert items[at..] == [];
  }

  // What a call leaves behind, without its steps.

  /** The nodes with nothing in them. */
  function Emptied(items: seq<Item>): (empty: seq<Item>)
    ensures |empty| == |items| && forall i :: 0 <= i < |items| ==> empty[i] == Item(items[i].id, None)
  {
    seq(|items|, i requires 0 <= i < |items| => Item(items[i].id, None))
  }

  /** The nodes whose events satisfy the predicate, in order. */
  function Chosen(func: Event -> bool, items: seq<Item>): seq<Item> {
    if items == [] then []
    else
      var last := items[|items| - 1];
      Chosen(func, items[..|items| - 1]) + if last.content.Some? && func(last.content.value) then [last] else []
  }

  /** The other nodes, in order. */
  function Others(func: Event -> bool, items: seq<Item>): seq<Item> {
    if items == [] then []
    else
      var last := items[|items| - 1];
      Others(func, items[..|items| - 1]) + if last.content.Some? && func(last.content.value) then [] else [last]
  }

  /** `processIf` with the first `m` nodes behind it: what it has left, set aside and handed out. */
  predicate Parted(func: Event -> bool, items: seq<Item>, m: nat, left: seq<Item>, done: seq<Item>, at: nat,
      handed: seq<Event>) {
    && m <= |items| && at == |Others(func, items[..m])|
    && left == Others(func, items[..m]) + items[m..]
    && done == Emptied(Chosen(func, items[..m]))
    && handed == EventsOf(Chosen(func, items[..m]))
  }

  lemma NonePartedYet(func: Event -> bool, items: seq<Item>)
    ensures Parted(func, items, 0, items, [], 0, [])
  {
    assert items[..0] == [] && items[0..] == items && Emptied([]) == [];
  }

  lemma OneMoreParted(func: Event -> bool, items: seq<Item>, m: nat, left: seq<Item>, done: seq<Item>, at: nat,
                      handed: seq<Event>)
    requires Parted(func, items, m, left, done, at, handed) && at < |left| && left[at].content.Some?
    ensures m < |items| && left[at] == items[m]
    ensures var e := left[at].content.value;
      if func(e) then Parted(func, items, m + 1, Drop(left, at), done + [Item(left[at].id, None)], at, handed + [e])
      else Parted(func, items, m + 1, left, done, at + 1, handed)
  {
    var others, chosen := Others(func, items[..m]), Chosen(func, items[..m]);
    assert left[at] == items[m..][0];
    assert items[..m + 1][..m] == items[..m] && items[m..] == [items[m]] + items[m + 1..];
    if func(items[m].content.value) {
      assert Drop(left, at) == others + items[m + 1..];
      assert Emptied(chosen + [items[m]]) == Emptied(chosen) + [Item(items[m].id, None)];
      EventsOfMore(chosen, items[m]);
      assert others + [] == others;
    } else {
      assert left == (others + [items[m]]) + items[m + 1..];
      assert chosen + [] == chosen;
    }
  }

  lemma EventsOfMore(items: seq<Item>, item: Item)
    requires item.content.Some?
    ensures EventsOf(items + [item]) == EventsOf(items) + [item.content.value]
  {
    R.ConcatEvents(items, [item]);
    EventsOfOne(item);
  }

  lemma EventsOfOne(item: Item)
    requires item.content.Some?
    ensures EventsOf([]) == [] && EventsOf([item]) == [item.content.value] == [] + [item.content.value]
  {
    assert [item][1..] == [];
  }

  lemma AllParted(func: Event -> bool, items: seq<Item>, m: nat, left: seq<Item>, done: seq<Item>, at: nat,
                  handed: seq<Event>)
    requires Parted(func, items, m, left, done, at, handed) && at == |left|
    ensures left == Others(func, items) && done == Emptied(Chosen(func, items))
    ensures handed == EventsOf(Chosen(func, items))
  {
    assert m == |items| && items[..m] == items && items[m..] == [];
  }

  predicate Distinct(list: seq<BufferedItem>) {
    forall i, j :: 0 <= i < j < |list| ==> list[i] != list[j]
  }

  predicate Apart(a: seq<BufferedItem>, b: seq<BufferedItem>) {
    forall item :: item in a ==> item !in b
  }

  lemma DistinctTogether(a: seq<BufferedItem>, b: seq<BufferedItem>)
    requires Distinct(a) && Distinct(b) && (Apart(a, b) || Apart(b, a))
    ensures Distinct(a + b)
  {
    forall i, j | 0 <= i < j < |a + b| ensures (a + b)[i] != (a + b)[j] {
      if i < |a| && |a| <= j {
        assert a[i] in a && b[j - |a|] in b;
      }
    }
  }

  class EventQueue {
    var queueList: seq<BufferedItem>
    var freeList: seq<BufferedItem>
    var queueEmptyCounter: int
    var handedOut: seq<Event>
    ghost var next: nat
    ghost var submitted: multiset<Event>
    ghost var enqueued: seq<Event>
    ghost var cleared: multiset<Event>

    ghost function Abstract(): Shared
      reads this, queueList, freeList
    {
      Shared(Items(queueList), Items(freeList), queueEmptyCounter, next, false, submitted, enqueued, handedOut, cleared)
    }

    /** The nodes of the lists and of a temporary one are distinct, and hold events where they should. */
    ghost predicate ValidWith(temp: seq<BufferedItem>)
      reads this, queueList, freeList
    {
      && Distinct(queueList) && Distinct(freeList) && Distinct(temp)
      && Apart(queueList, freeList) && Apart(queueList, temp) && Apart(freeList, temp)
      && AllFull(Items(queueList)) && AllEmpty(Items(freeList))
    }

    ghost predicate Valid()
      reads this, queueList, freeList
    {
      ValidWith([])
    }

    constructor ()
      ensures Valid() && Abstract() == Initial().shared
    {
      queueList, freeList, queueEmptyCounter, handedOut := [], [], 0, [];
      next, submitted, enqueued, cleared := 0, multiset{}, [], multiset{};
    }

    /** The queue's part of an event's dispatch: the listeners are called. */
    method DoDispatchQueuedEvent(e: Event)
      modifies `handedOut
      ensures handedOut == old(handedOut) + [e]
    {
      handedOut := handedOut + [e];
    }

    method EmptyQueue() returns (empty: bool)
      ensures empty <==> Abstract().queue == [] && Abstract().counter == 0
    {
      empty := queueList == [] && queueEmptyCounter == 0;
    }

    /** The first part of `doEnqueue`: a free node, or a new one. */
    method GetBuffer(e: Event) returns (item: BufferedItem)
      requires Valid()
      modifies `freeList, `next
      ensures ValidWith([item]) && !item.dtor && queueList == old(queueList)
      ensures Advance(old(Abstract()), NewCall(Enqueue(e)), old(freeList) != []) ==
              (Abstract(), Call(Enqueue(e), HasBuffer, [item.Abstract()], [], [], []))
      ensures if old(freeList) != [] then item == old(freeList)[0] && freeList == old(freeList)[1..]
              else fresh(item) && freeList == []
      ensures Items(queueList) == old(Items(queueList))
    {
      if freeList != [] {
        item := freeList[0];
        freeList := freeList[1..];
        assert Items(freeList) == old(Items(freeList))[1..];
      } else {
        item := new BufferedItem(next, e);
        next := next + 1;
      }
      assert Items(queueList) == old(Items(queueList)) && Items([item]) == [item.Abstract()];
    }

    /** `set`, and the splice onto the queue under its mutex. */
    method SetAndAppend(item: BufferedItem, e: Event)
      requires ValidWith([item]) && !item.dtor
      modifies item, `queueList, `enqueued
      ensures Valid() && queueList == old(queueList) + [item]
      ensures var c := Call(Enqueue(e), HasBuffer, [old(item.Abstract())], [], [], []);
        var (t, d) := Advance(old(Abstract()), c, false);
            Advance(t, d, false) == (Abstract(), NewCall(Enqueue(e)).(pc := Done))
      ensures Items(queueList) == old(Items(queueList)) + [Item(item.id, Some(e))] && enqueued == old(enqueued) + [e]
    {
      assert item in [item];
      item.Set(e);
      assert Items(queueList) == old(Items(queueList)) && Items(freeList) == old(Items(freeList));
      queueList := queueList + [item];
      enqueued := enqueued + [e];
      assert Items(queueList) == old(Items(queueList)) + [item.Abstract()];
    }

    method DoEnqueue(e: Event) returns (ghost tests: seq<bool>)
      requires Valid()
      modifies this, freeList
      ensures Valid()
      ensures |queueList| == |old(queueList)| + 1 && queueList[..|old(queueList)|] == old(queueList)
      ensures var item := queueList[|old(queueList)|];
        && (if old(freeList) != [] then item == old(freeList)[0] && freeList == old(freeList)[1..]
            else fresh(item) && freeList == [])
        && Items(queueList) == old(Items(queueList)) + [Item(item.id, Some(e))]
      ensures enqueued == old(enqueued) + [e] && queueEmptyCounter == old(queueEmptyCounter)
      ensures handedOut == old(handedOut)
      ensures Steps(old(Abstract()).(submitted := old(submitted) + multiset{e}), NewCall(Enqueue(e)), tests) ==
              (Abstract(), NewCall(Enqueue(e)).(pc := Done))
    {
      hide Advance, Items, AllFull, AllEmpty;
      submitted := submitted + multiset{e};
      ghost var s := Abstract();
      tests := [freeList != []];
      var item := GetBuffer(e);
      ghost var t, c := Abstract(), Call(Enqueue(e), HasBuffer, [item.Abstract()], [], [], []);
      SetAndAppend(item, e);
      OneStep(s, NewCall(Enqueue(e)), [], tests[0], s, NewCall(Enqueue(e)));
      assert [] + tests == tests;
      OneStep(s, NewCall(Enqueue(e)), tests, false, t, c);
      var (u, d) := Advance(t, c, false);
      OneStep(s, NewCall(Enqueue(e)), tests + [false], false, u, d);
      tests := tests + [false] + [false];
    }

    /** The swap under the mutex of the queue. */
    method SwapOut(ghost c: Call) returns (temp: seq<BufferedItem>)
      requires Valid() && !c.op.ProcessOne? && !c.op.TakeEvent?
      modifies `queueList
      ensures ValidWith(temp) && temp == old(queueList) && queueList == [] && AllFull(Items(temp))
      ensures Items(temp) == old(Items(queueList)) && Abstract() == old(Abstract()).(queue := [])
      ensures TakeOff(old(Abstract()), c)
          == (Abstract(), c.(pc := Looping(0), temp := Items(temp), took := EventsOf(Items(temp))))
    {
      temp := queueList;
      queueList := [];
      assert old(Abstract()).queue[..|temp|] == Items(temp) && Items(freeList) == old(Items(freeList));
      assert old(Abstract()).queue[|temp|..] == Items(queueList);
    }

    /** The splice of the first node under the mutex of the queue. */
    method SpliceFirst(ghost c: Call) returns (temp: seq<BufferedItem>)
      requires Valid() && (c.op.ProcessOne? || c.op.TakeEvent?)
      modifies `queueList
      ensures ValidWith(temp) && temp == (if old(queueList) == [] then [] else old(queueList[..1]))
      ensures AllFull(Items(temp)) && Items(temp) == old(Items(queueList))[..|temp|]
      ensures Abstract() == old(Abstract()).(queue := old(Items(queueList))[|temp|..])
      ensures TakeOff(old(Abstract()), c)
          == (Abstract(), c.(pc := Looping(0), temp := Items(temp), took := EventsOf(Items(temp))))
    {
      hide EventsOf;
      temp := [];
      if queueList != [] {
        temp := [queueList[0]];
        queueList := queueList[1..];
      }
      assert old(Abstract()).queue[..|temp|] == Items(temp) && old(Abstract()).queue[|temp|..] == Items(queueList);
      assert Items(freeList) == old(Items(freeList));
    }

    method HandOutAt(ghost c: Call, temp: seq<BufferedItem>, at: nat) returns (e: Event)
      requires at < |temp| && temp[at].dtor && c.temp == Items(temp) && !c.op.ClearEvents?
      modifies `handedOut
      ensures temp[at].Abstract().content == Some(e)
      ensures HandOut(old(Abstract()), c, at, true) == (Abstract(), c.(pc := Handed(at), flags := c.flags + [true]))
      ensures Abstract() == old(Abstract()).(handedOut := old(handedOut) + [e])
    {
      e := temp[at].Get();
      DoDispatchQueuedEvent(e);
    }

    method ClearAt(ghost c: Call, temp: seq<BufferedItem>, at: nat)
      requires ValidWith(temp) && at < |temp| && temp[at].dtor && c.temp == Items(temp) && !c.op.ProcessIf?
      modifies temp[at]
      ensures ValidWith(temp) && Items(temp) == c.temp[at := c.temp[at].(content := None)]
      ensures Clear(old(Abstract()), c, at) == (Abstract(), c.(pc := Looping(at + 1), temp := Items(temp)))
      ensures Abstract() == old(Abstract())
    {
      assert temp[at] in temp;
      temp[at].Clear();
      assert Items(queueList) == old(Items(queueList)) && Items(freeList) == old(Items(freeList));
      assert Items(temp) == c.temp[at := c.temp[at].(content := None)];
    }

    /** The splice under the mutex of the free list. */
    method SpliceFree(ghost c: Call, temp: seq<BufferedItem>)
      requires ValidWith(temp) && AllEmpty(Items(temp)) && c.temp + c.idle == Items(temp)
      modifies `freeList
      ensures Valid() && freeList == old(freeList) + temp
      ensures EventQueueModel.Recycle(old(Abstract()), c) == (Abstract(), c.(pc := Leaving, temp := [], idle := []))
      ensures Items(temp) == old(Items(temp))
      ensures Abstract() == old(Abstract()).(free := old(Items(freeList)) + Items(temp))
    {
      DistinctTogether(freeList, temp);
      freeList := freeList + temp;
      assert Items(freeList) == old(Items(freeList)) + Items(temp) && Items(queueList) == old(Items(queueList));
      assert old(Items(freeList)) + c.temp + c.idle == old(Items(freeList)) + (c.temp + c.idle);
    }

    /** An item is handed out and cleared. */
    method HandleAt(ghost run: Run, temp: seq<BufferedItem>, at: nat) returns (ghost after: Run, e: Event)
      requires ValidWith(temp) && at < |temp| && temp[at].dtor
      requires run.Reaches(Abstract()) && run.c.pc == Looping(at) && run.c.temp == Items(temp)
      requires run.c.op.Process? || run.c.op.ProcessOne? || run.c.op.TakeEvent?
      modifies `handedOut, temp[at]
      ensures ValidWith(temp) && Items(temp) == old(Items(temp))[at := old(Items(temp))[at].(content := None)]
      ensures old(Items(temp))[at].content == Some(e)
      ensures Abstract() == old(Abstract()).(handedOut := old(handedOut) + [e])
      ensures after.Continues(run) && after.Reaches(Abstract())
      ensures after.c == run.c.(pc := Looping(at + 1), temp := Items(temp), flags := run.c.flags + [true])
    {
      hide Steps, HandOut, Clear, Items, AllFull, AllEmpty, Apart, Distinct;
      e := HandOutAt(run.c, temp, at);
      ghost var middle := run.Next(true, old(Abstract()));
      ghost var s := Abstract();
      ClearAt(middle.c, temp, at);
      after := middle.Next(false, s);
    }

    /** The processed nodes go to the free list, and the guard of the counter ends. */
    method Release(ghost run: Run, temp: seq<BufferedItem>) returns (ghost after: Run)
      requires ValidWith(temp) && AllEmpty(Items(temp)) && run.c.temp + run.c.idle == Items(temp)
      requires run.Reaches(Abstract()) && run.c.pc.Recycling? && Processes(run.c.op)
      modifies `freeList, `queueEmptyCounter
      ensures Valid()
      ensures Abstract()
          == old(Abstract()).(free := old(Items(freeList)) + old(Items(temp)), counter := old(queueEmptyCounter) - 1)
      ensures after.Continues(run) && after.Reaches(Abstract()) && after.c == run.c.(pc := Done, temp := [], idle := [])
    {
      hide Steps, Items, AllFull, AllEmpty, Apart, Distinct, EventQueueModel.Recycle;
      SpliceFree(run.c, temp);
      ghost var middle := run.Next(false, old(Abstract()));
      ghost var s := Abstract();
      queueEmptyCounter := queueEmptyCounter - 1;
      after := middle.Next(false, s);
    }

    /** The same for a call that does not count. */
    method ReleaseUncounted(ghost run: Run, temp: seq<BufferedItem>) returns (ghost after: Run)
      requires ValidWith(temp) && AllEmpty(Items(temp)) && run.c.temp + run.c.idle == Items(temp)
      requires run.Reaches(Abstract()) && run.c.pc.Recycling? && (run.c.op.TakeEvent? || run.c.op.ClearEvents?)
      modifies `freeList
      ensures Valid()
      ensures Abstract() == old(Abstract()).(free := old(Items(freeList)) + old(Items(temp)))
      ensures after.Continues(run) && after.Reaches(Abstract()) && after.c == run.c.(pc := Done, temp := [], idle := [])
    {
      hide Steps, Items, AllFull, AllEmpty, Apart, Distinct, EventQueueModel.Recycle;
      SpliceFree(run.c, temp);
      after := run.Next(false, old(Abstract()));
      after := after.Next(false, Abstract());
    }

    /** `! queueList.empty()`, the guard of the counter, and the swap or the splice of one node. */
    method Begin(ghost op: Op, one: bool) returns (ghost run: Run, temp: seq<BufferedItem>)
      requires Valid() && Processes(op) && (op.ProcessOne? <==> one) && queueList != []
      modifies `queueEmptyCounter, `queueList
      ensures ValidWith(temp) && AllFull(Items(temp)) && temp != []
      ensures temp == if one then old(queueList)[..1] else old(queueList)
      ensures Items(temp) == old(Items(queueList))[..|temp|]
      ensures Abstract()
          == old(Abstract()).(queue := old(Items(queueList))[|temp|..], counter := old(queueEmptyCounter) + 1)
      ensures run.Continues(Starting(old(Abstract()), op)) && run.Reaches(Abstract())
      ensures run.c == NewCall(op).(pc := Looping(0), temp := Items(temp), took := EventsOf(Items(temp)))
    {
      hide Steps, EventsOf, Distinct, Apart;
      run := Starting(Abstract(), op);
      run := run.Next(false, Abstract());
      queueEmptyCounter := queueEmptyCounter + 1;
      ghost var s := Abstract();
      if one {
        temp := SpliceFirst(run.c);
      } else {
        temp := SwapOut(run.c);
      }
      run := run.Next(false, s);
    }

    /** `process` in its loop, on its way from `from`, with `at` of the nodes `items` handed out. */
    ghost predicate Handling(from: Run, s: Shared, items: seq<Item>, run: Run, temp: seq<BufferedItem>, at: nat)
      reads this, queueList, freeList, temp
    {
      && at <= |temp| == |items| && ValidWith(temp) && AllFull(items)
      && run.Continues(from) && run.Reaches(Abstract()) && run.c.op.Process?
      && run.c.(flags := from.c.flags) == from.c.(pc := Looping(at), temp := Items(temp))
      && Items(temp) == Emptied(items[..at]) + items[at..]
      && Abstract() == s.(handedOut := s.handedOut + EventsOf(items[..at]))
    }

    method HandleRound(ghost from: Run, ghost s: Shared, ghost items: seq<Item>, ghost run: Run,
        temp: seq<BufferedItem>,
                       at: nat) returns (ghost after: Run)
      requires Handling(from, s, items, run, temp, at) && at < |temp|
      modifies `handedOut, temp[at]
      ensures Handling(from, s, items, after, temp, at + 1)
    {
      hide Steps, Advance, Distinct, Apart, EventsOf;
      ghost var before := Items(temp);
      assert before[at] == items[at];
      var e;
      after, e := HandleAt(run, temp, at);
      OneMoreHandled(items, before, at, s.handedOut, e);
    }

    /** The loop of `process`. */
    method HandleAll(ghost run: Run, temp: seq<BufferedItem>) returns (ghost after: Run)
      requires ValidWith(temp) && AllFull(Items(temp)) && run.Reaches(Abstract())
      requires run.c.op.Process? && run.c.pc == Looping(0) && run.c.temp == Items(temp)
      modifies `handedOut, temp
      ensures ValidWith(temp) && AllEmpty(Items(temp)) && after.Continues(run) && after.Reaches(Abstract())
      ensures after.c.(flags := run.c.flags) == run.c.(pc := Looping(|temp|), temp := Items(temp))
      ensures Items(temp) == Emptied(old(Items(temp)))
      ensures Abstract() == old(Abstract()).(handedOut := old(handedOut) + EventsOf(old(Items(temp))))
    {
      hide Steps, Advance, Distinct, Apart, ValidWith, Items, EventsOf;
      after := run;
      var at: nat := 0;
      ghost var s, items := Abstract(), Items(temp);
      HandlingBegins(run, s, temp);
      hide Handling;
      while at < |temp|
        invariant at <= |temp| && Handling(run, s, items, after, temp, at)
      {
        after := HandleRound(run, s, items, after, temp, at);
        at := at + 1;
      }
      HandlingEnds(run, s, items, after, temp);
    }

    lemma HandlingBegins(run: Run, s: Shared, temp: seq<BufferedItem>)
      requires ValidWith(temp) && AllFull(Items(temp)) && run.Reaches(s) && s == Abstract()
      requires run.c.op.Process? && run.c.pc == Looping(0) && run.c.temp == Items(temp)
      ensures Handling(run, s, Items(temp), run, temp, 0)
    {
      hide Steps, Distinct, Apart, ValidWith, EventsOf;
      NothingHandled(Items(temp), s.handedOut);
    }

    lemma HandlingEnds(from: Run, s: Shared, items: seq<Item>, run: Run, temp: seq<BufferedItem>)
      requires Handling(from, s, items, run, temp, |temp|)
      ensures ValidWith(temp) && Items(temp) == Emptied(items) && AllEmpty(Items(temp))
      ensures run.Continues(from) && run.Reaches(Abstract())
      ensures run.c.(flags := from.c.flags) == from.c.(pc := Looping(|temp|), temp := Items(temp))
      ensures Abstract() == s.(handedOut := s.handedOut + EventsOf(items))
    {
      hide Steps, Distinct, Apart, ValidWith, EventsOf;
      assert items[..|temp|] == items && Emptied(items) + items[|temp|..] == Emptied(items);
    }

    lemma NothingHandled(items: seq<Item>, handed: seq<Event>)
      ensures items == Emptied(items[..0]) + items[0..]
      ensures EventsOf(items[..0]) == [] && handed == handed + EventsOf(items[..0])
    {
    }

    lemma OneMoreHandled(items: seq<Item>, before: seq<Item>, at: nat, handed: seq<Event>, e: Event)
      requires at < |items| && before == Emptied(items[..at]) + items[at..] && before[at].content == Some(e)
      ensures before[at := before[at].(content := None)] == Emptied(items[..at + 1]) + items[at + 1..]
      ensures handed + EventsOf(items[..at]) + [e] == handed + EventsOf(items[..at + 1])
    {
      assert before[at] == items[at..][0] == items[at];
      assert items[..at + 1] == items[..at] + [items[at]];
      EventsOfMore(items[..at], items[at]);
    }

    /** `process`: the steps of the protocol, one after the other. */
    method Process() returns (ret: bool, ghost run: Run)
      requires Valid()
      modifies this, queueList
      ensures Valid() && run.Continues(Starting(old(Abstract()), EventQueueModel.Process)) && run.Reaches(Abstract())
      ensures run.c.pc.Done? && (ret <==> run.c.took != [])
      ensures ret <==> old(queueList) != []
      ensures var s := old(Abstract());
        Abstract() == s.(queue := [], free := s.free + Emptied(s.queue), handedOut := s.handedOut + EventsOf(s.queue))
    {
      hide Steps, HandOut, Recycle, EventsOf, Distinct, Apart, Items;
      if queueList == [] {
        NothingQueued(Abstract());
        run := Starting(Abstract(), EventQueueModel.Process);
        run := run.Next(true, Abstract());
        return false, run;
      }
      ghost var s := Abstract();
      var temp;
      run, temp := Begin(EventQueueModel.Process, false);
      TookSome(Items(temp));
      assert s.queue[..|temp|] == s.queue && s.queue[|temp|..] == [];
      run := HandleAll(run, temp);
      run := run.Next(false, Abstract());
      run := Release(run, temp);
      ret := true;
    }

    lemma NothingQueued(s: Shared)
      requires s.queue == []
      ensures s.free + Emptied(s.queue) == s.free && EventsOf(s.queue) == [] && s.handedOut + [] == s.handedOut
    {
      assert s.free + Emptied([]) == s.free && s.handedOut + EventsOf([]) == s.handedOut;
    }

    /** A single node, and its event. */
    lemma OneHandled(items: seq<Item>, item: Item)
      requires items == [item] && item.content.Some?
      ensures EventsOf(items) == [item.content.value] && items[0 := item.(content := None)] == Emptied(items)
    {
      EventsOfMore([], item);
      assert [] + [item] == items;
    }

    lemma TookSome(items: seq<Item>)
      requires AllFull(items) && items != []
      ensures EventsOf(items) != []
    {
    }

    /** `processOne`: the first node only. */
    method ProcessOne() returns (ret: bool, ghost run: Run)
      requires Valid()
      modifies this, queueList
      ensures Valid() && run.Continues(Starting(old(Abstract()), EventQueueModel.ProcessOne)) && run.Reaches(Abstract())
      ensures run.c.pc.Done? && (ret <==> run.c.took != [])
      ensures ret <==> old(queueList) != []
      ensures var s := old(Abstract());
        Abstract() == if s.queue == [] then s
                      else s.(queue := s.queue[1..], free := s.free + Emptied(s.queue[..1]),
                              handedOut := s.handedOut + EventsOf(s.queue[..1]))
    {
      hide Steps, HandOut, Recycle, EventsOf, Distinct, Apart;
      if queueList == [] {
        run := Starting(Abstract(), EventQueueModel.ProcessOne);
        run := run.Next(true, Abstract());
        return false, run;
      }
      var temp, e;
      run, temp := Begin(EventQueueModel.ProcessOne, true);
      TookSome(Items(temp));
      ghost var items := Items(temp);
      run, e := HandleAt(run, temp, 0);
      OneHandled(items, items[0]);
      run := run.Next(false, Abstract());
      run := Release(run, temp);
      ret := true;
    }

    /** `takeEvent`: the event is handed to the caller. */
    method TakeEvent() returns (taken: Option<Event>, ghost run: Run)
      requires Valid()
      modifies this, queueList
      ensures Valid() && run.Continues(Starting(old(Abstract()), EventQueueModel.TakeEvent)) && run.Reaches(Abstract())
      ensures run.c.pc.Done? && run.c.took == if taken.Some? then [taken.value] else []
      ensures var s := old(Abstract());
        if s.queue == [] then taken == None && Abstract() == s
        else taken == s.queue[0].content && taken.Some?
             && Abstract() == s.(queue := s.queue[1..], free := s.free + Emptied(s.queue[..1]),
                                 handedOut := s.handedOut + [taken.value])
    {
      hide Steps, HandOut, TakeOff, EventQueueModel.Recycle, Distinct, Apart;
      run := Starting(Abstract(), EventQueueModel.TakeEvent);
      if queueList == [] {
        run := run.Next(true, Abstract());
        return None, run;
      }
      run := run.Next(false, Abstract());
      ghost var s := Abstract();
      var temp := SpliceFirst(run.c);
      run := run.Next(false, s);
      assert Items(temp)[1..] == [];
      ghost var items := Items(temp);
      var e;
      run, e := HandleAt(run, temp, 0);
      OneHandled(items, items[0]);
      run := run.Next(false, Abstract());
      run := ReleaseUncounted(run, temp);
      taken := Some(e);
    }

    method ClearEvents() returns (ghost run: Run)
      requires Valid()
      modifies this, queueList
      ensures Valid() && run.Continues(Starting(old(Abstract()), EventQueueModel.ClearEvents))
      ensures run.Reaches(Abstract())
      ensures run.c.pc.Done? && queueList == []
      ensures var s := old(Abstract());
        Abstract() == s.(queue := [], free := s.free + Emptied(s.queue),
                         cleared := s.cleared + multiset(EventsOf(s.queue)))
    {
      hide Steps, HandOut, TakeOff, EventQueueModel.Recycle, Distinct, Apart, Items, EventsOf;
      run := Starting(Abstract(), EventQueueModel.ClearEvents);
      if queueList == [] {
        NothingQueued(Abstract());
        run := run.Next(true, Abstract());
        return;
      }
      run := run.Next(false, Abstract());
      ghost var s := Abstract();
      var temp := SwapOut(run.c);
      run := run.Next(false, s);
      run := ClearAll(run, temp);
      run := run.Next(false, Abstract());
      run := ReleaseUncounted(run, temp);
    }

    /** `clearEvents` in its loop, on its way from `from`, with `at` of the nodes `items` cleared. */
    ghost predicate Clearing(from: Run, s: Shared, items: seq<Item>, run: Run, temp: seq<BufferedItem>, at: nat)
      reads this, queueList, freeList, temp
    {
      && at <= |temp| == |items| && ValidWith(temp) && AllFull(items)
      && run.Continues(from) && run.Reaches(Abstract()) && run.c.op.ClearEvents?
      && run.c == from.c.(pc := Looping(at), temp := Items(temp))
      && Items(temp) == Emptied(items[..at]) + items[at..]
      && Abstract() == s.(cleared := s.cleared + multiset(EventsOf(items[..at])))
    }

    method ClearRound(ghost from: Run, ghost s: Shared, ghost items: seq<Item>, ghost run: Run, temp: seq<BufferedItem>,
                      at: nat) returns (ghost after: Run)
      requires Clearing(from, s, items, run, temp, at) && at < |temp|
      modifies `cleared, temp[at]
      ensures Clearing(from, s, items, after, temp, at + 1)
    {
      hide Steps, Advance, Distinct, Apart, EventsOf;
      ghost var before := Items(temp);
      assert before[at] == items[at];
      after := DropAt(run, temp, at);
      OneMoreHandled(items, before, at, [], before[at].content.value);
      assert [] + EventsOf(items[..at]) == EventsOf(items[..at]);
      assert [] + EventsOf(items[..at + 1]) == EventsOf(items[..at + 1]);
    }

    /** The loop of `clearEvents`. */
    method ClearAll(ghost run: Run, temp: seq<BufferedItem>) returns (ghost after: Run)
      requires ValidWith(temp) && AllFull(Items(temp)) && run.Reaches(Abstract())
      requires run.c.op.ClearEvents? && run.c.pc == Looping(0) && run.c.temp == Items(temp)
      modifies `cleared, temp
      ensures ValidWith(temp) && AllEmpty(Items(temp)) && after.Continues(run) && after.Reaches(Abstract())
      ensures after.c == run.c.(pc := Looping(|temp|), temp := Items(temp))
      ensures Items(temp) == Emptied(old(Items(temp)))
      ensures Abstract() == old(Abstract()).(cleared := old(cleared) + multiset(EventsOf(old(Items(temp)))))
    {
      hide Steps, Advance, Distinct, Apart, ValidWith, Items, EventsOf;
      after := run;
      var at: nat := 0;
      ghost var s, items := Abstract(), Items(temp);
      ClearingBegins(run, s, temp);
      hide Clearing;
      while at < |temp|
        invariant at <= |temp| && Clearing(run, s, items, after, temp, at)
      {
        after := ClearRound(run, s, items, after, temp, at);
        at := at + 1;
      }
      ClearingEnds(run, s, items, after, temp);
    }

    lemma ClearingBegins(run: Run, s: Shared, temp: seq<BufferedItem>)
      requires ValidWith(temp) && AllFull(Items(temp)) && run.Reaches(s) && s == Abstract()
      requires run.c.op.ClearEvents? && run.c.pc == Looping(0) && run.c.temp == Items(temp)
      ensures Clearing(run, s, Items(temp), run, temp, 0)
    {
      hide Steps, Distinct, Apart, ValidWith, EventsOf;
      NothingHandled(Items(temp), []);
    }

    lemma ClearingEnds(from: Run, s: Shared, items: seq<Item>, run: Run, temp: seq<BufferedItem>)
      requires Clearing(from, s, items, run, temp, |temp|)
      ensures ValidWith(temp) && Items(temp) == Emptied(items) && AllEmpty(Items(temp))
      ensures run.Continues(from) && run.Reaches(Abstract())
      ensures run.c == from.c.(pc := Looping(|temp|), temp := Items(temp))
      ensures Abstract() == s.(cleared := s.cleared + multiset(EventsOf(items)))
    {
      hide Steps, Distinct, Apart, ValidWith, EventsOf;
      assert items[..|temp|] == items && Emptied(items) + items[|temp|..] == Emptied(items);
    }

    /** An event is cleared without being handed out. */
    method DropAt(ghost run: Run, temp: seq<BufferedItem>, at: nat) returns (ghost after: Run)
      requires ValidWith(temp) && at < |temp| && temp[at].dtor
      requires run.Reaches(Abstract()) && run.c.pc == Looping(at) && run.c.temp == Items(temp) && run.c.op.ClearEvents?
      modifies `cleared, temp[at]
      ensures ValidWith(temp) && Items(temp) == old(Items(temp))[at := old(Items(temp))[at].(content := None)]
      ensures after.Continues(run) && after.Reaches(Abstract())
      ensures after.c == run.c.(pc := Looping(at + 1), temp := Items(temp))
      ensures Abstract() == old(Abstract()).(cleared := old(cleared) + multiset{old(temp[at].buffer)})
      ensures old(Items(temp))[at].content == Some(old(temp[at].buffer))
    {
      hide Steps;
      assert temp[at] in temp;
      cleared := cleared + multiset{temp[at].buffer};
      temp[at].Clear();
      assert Items(queueList) == old(Items(queueList)) && Items(freeList) == old(Items(freeList));
      assert Items(temp) == old(Items(temp))[at := old(Items(temp))[at].(content := None)];
      after := run.Next(false, old(Abstract()));
    }

    /** `tempList` and `idleList` of `processIf`. */
    ghost predicate ValidWithIdle(temp: seq<BufferedItem>, idle: seq<BufferedItem>)
      reads this, queueList, freeList, temp, idle
    {
      && ValidWith(temp) && Distinct(idle) && Apart(queueList, idle) && Apart(freeList, idle) && Apart(temp, idle)
      && AllFull(Items(temp)) && AllEmpty(Items(idle))
    }

    /** A chosen event is handed out and its node moved to `idleList`. */
    method ChooseAt(ghost run: Run, temp: seq<BufferedItem>, idle: seq<BufferedItem>, at: nat)
      returns (ghost after: Run, left: seq<BufferedItem>, done: seq<BufferedItem>)
      requires ValidWithIdle(temp, idle) && at < |temp|
      requires run.Reaches(Abstract()) && run.c.op.ProcessIf? && run.c.pc == Looping(at)
      requires run.c.temp == Items(temp) && run.c.idle == Items(idle)
      modifies `handedOut, temp[at]
      ensures ValidWithIdle(left, done) && Items(left) == Drop(old(Items(temp)), at)
      ensures Items(done) == old(Items(idle)) + [Item(temp[at].id, None)] && temp[at].id == old(Items(temp))[at].id
      ensures old(Items(temp))[at].content == Some(old(temp[at].buffer))
      ensures Abstract() == old(Abstract()).(handedOut := old(handedOut) + [old(temp[at].buffer)])
      ensures left == temp[..at] + temp[at + 1..] && done == idle + [temp[at]]
      ensures after.Continues(run) && after.Reaches(Abstract())
      ensures after.c == run.c.(temp := Items(left), idle := Items(done), flags := run.c.flags + [true])
    {
      hide Steps, HandOut;
      assert run.c.temp[at].content.Some? && temp[at] in temp;
      var e := HandOutAt(run.c, temp, at);
      after := run.Next(true, old(Abstract()));
      ghost var s := Abstract();
      temp[at].Clear();
      assert Items(queueList) == s.queue && Items(freeList) == s.free;
      left, done := temp[..at] + temp[at + 1..], idle + [temp[at]];
      assert Items(left) == Drop(run.c.temp, at) && Items(done) == run.c.idle + [run.c.temp[at].(content := None)];
      after := after.Next(false, s);
      ApartAfter(temp, idle, at);
    }

    lemma ApartAfter(temp: seq<BufferedItem>, idle: seq<BufferedItem>, at: nat)
      requires at < |temp| && Distinct(temp) && Distinct(idle) && Apart(temp, idle)
      ensures var left, done := temp[..at] + temp[at + 1..], idle + [temp[at]];
        Distinct(left) && Distinct(done) && Apart(left, done)
        && (forall item :: item in left ==> item in temp)
        && (forall item :: item in done ==> item in idle || item == temp[at])
    {
      var left, done := temp[..at] + temp[at + 1..], idle + [temp[at]];
      assert temp[at] in temp;
      assert forall i :: 0 <= i < |left| ==> left[i] == temp[if i < at then i else i + 1];
    }

    /** `processIf` in its loop, on its way from `from`, with `m` of the nodes `items` behind it. */
    ghost predicate Selecting(func: Event -> bool, from: Run, s: Shared, items: seq<Item>, run: Run,
                              left: seq<BufferedItem>, done: seq<BufferedItem>, at: nat, m: nat, handed: seq<Event>)
      reads this, queueList, freeList, left, done
    {
      && ValidWithIdle(left, done) && at <= |left|
      && run.Continues(from) && run.Reaches(Abstract()) && run.c.op.ProcessIf?
      && run.c.(flags := []) == from.c.(pc := Looping(at), temp := Items(left), idle := Items(done))
      && SoFar(func, from.c.took, run.c.flags, Items(left), at, done != [])
      && Parted(func, items, m, Items(left), Items(done), at, handed)
      && Abstract() == s.(handedOut := s.handedOut + handed)
    }

    /** One round of the loop. */
    method SelectAt(func: Event -> bool, ghost from: Run, ghost s: Shared, ghost items: seq<Item>, ghost run: Run,
                    left: seq<BufferedItem>, done: seq<BufferedItem>, at: nat, ghost m: nat, ghost handed: seq<Event>)
      returns (ghost after: Run, rest: seq<BufferedItem>, idle: seq<BufferedItem>, next: nat, ghost now: seq<Event>)
      requires Selecting(func, from, s, items, run, left, done, at, m, handed) && at < |left|
      modifies `handedOut, left[at]
      ensures Selecting(func, from, s, items, after, rest, idle, next, m + 1, now)
      ensures (forall item :: item in rest ==> item in left) && |rest| - next < |left| - at
    {
      hide Steps, Advance, HandOut, Distinct, Apart, ValidWith, AllFull, AllEmpty, EventsOf, Answers, Parted, SoFar;
      rest, idle, next := left, done, at;
      assert left[at] in left;
      var e := GetAt(left, done, at);
      NextAnswer(func, from.c.took, run.c.flags, Items(left), at, done != []);
      OneMoreParted(func, items, m, Items(left), Items(done), at, handed);
      if func(e) {
        assert s.handedOut + handed + [e] == s.handedOut + (handed + [e]);
        now := handed + [e];
        after, rest, idle := ChooseAt(run, left, done, at);
      } else {
        PassedOver(Abstract(), run.c, at);
        after := run.Next(false, Abstract());
        now, next := handed, at + 1;
      }
    }

    /** The loop of `processIf`. */
    method SelectAll(ghost run: Run, temp: seq<BufferedItem>, func: Event -> bool)
      returns (ghost after: Run, left: seq<BufferedItem>, done: seq<BufferedItem>)
      requires ValidWithIdle(temp, []) && run.Reaches(Abstract())
      requires run.c.op.ProcessIf? && run.c.pc == Looping(0) && run.c.temp == Items(temp) && run.c.idle == []
      requires run.c.flags == [] && run.c.took == EventsOf(Items(temp))
      modifies `handedOut, temp
      ensures ValidWithIdle(left, done)
      ensures after.Continues(run) && after.Reaches(Abstract())
      ensures after.c.(flags := []) == run.c.(pc := Looping(|left|), temp := Items(left), idle := Items(done))
      ensures Answers(func, run.c.took, after.c.flags) && |after.c.flags| == |run.c.took|
      ensures (done != [] <==> true in after.c.flags)
      ensures var items := old(Items(temp));
        && Items(left) == Others(func, items) && Items(done) == Emptied(Chosen(func, items))
        && Abstract() == old(Abstract()).(handedOut := old(handedOut) + EventsOf(Chosen(func, items)))
    {
      hide Steps, Advance, HandOut, Distinct, Apart, ValidWith, AllFull, AllEmpty, EventsOf, Answers, Parted, SoFar;
      after, left, done := run, temp, [];
      var at: nat := 0;
      ghost var s, items, m: nat, handed := Abstract(), Items(temp), 0, [];
      NoneAnswered(func, items);
      NonePartedYet(func, items);
      assert s.handedOut + [] == s.handedOut;
      while at < |left|
        invariant forall item :: item in left ==> item in temp
        invariant Selecting(func, run, s, items, after, left, done, at, m, handed)
        decreases |left| - at
      {
        assert left[at] in left;
        after, left, done, at, handed := SelectAt(func, run, s, items, after, left, done, at, m, handed);
        m := m + 1;
      }
      AllAnswered(func, run.c.took, after.c.flags, Items(left), at, done != []);
      AllParted(func, items, m, Items(left), Items(done), at, handed);
    }

    method GetAt(left: seq<BufferedItem>, ghost done: seq<BufferedItem>, at: nat) returns (e: Event)
      requires ValidWithIdle(left, done) && at < |left|
      ensures Items(left)[at].content == Some(e)
    {
      assert Items(left)[at].content.Some?;
      e := left[at].Get();
    }

    lemma PassedOver(s: Shared, c: Call, at: nat)
      requires c.op.ProcessIf? && c.pc == Looping(at) && at < |c.temp| && c.temp[at].content.Some?
      ensures Advance(s, c, false) == (s, c.(pc := Looping(at + 1), flags := c.flags + [false]))
    {
    }

    /** What was not chosen goes back to the front of the queue, under its mutex. */
    method SpliceBack(ghost run: Run, left: seq<BufferedItem>, ghost done: seq<BufferedItem>) returns (ghost after: Run)
      requires ValidWithIdle(left, done) && run.Reaches(Abstract())
      requires run.c.op.ProcessIf? && run.c.pc == Looping(|left|) && run.c.temp == Items(left)
      requires run.c.idle == Items(done)
      modifies `queueList
      ensures ValidWith(done) && AllEmpty(Items(done)) && queueList == left + old(queueList)
      ensures Items(done) == old(Items(done))
      ensures Abstract() == old(Abstract()).(queue := old(Items(left)) + old(Items(queueList)))
      ensures after.Continues(run) && after.Reaches(Abstract()) && after.c == run.c.(pc := Recycling, temp := [])
    {
      hide Steps, HandOut;
      DistinctTogether(left, queueList);
      queueList := left + queueList;
      assert Items(queueList) == run.c.temp + old(Items(queueList)) && Items(freeList) == old(Items(freeList));
      after := run.Next(false, old(Abstract()));
    }

    /** `processIf` with a predicate that reads nothing but its argument. */
    method ProcessIf(func: Event -> bool) returns (ret: bool, ghost run: Run)
      requires Valid()
      modifies this, queueList
      ensures Valid() && run.Continues(Starting(old(Abstract()), EventQueueModel.ProcessIf)) && run.Reaches(Abstract())
      ensures run.c.pc.Done? && |run.c.flags| == |run.c.took| && Answers(func, run.c.took, run.c.flags)
      ensures ret <==> true in run.c.flags
      ensures var s := old(Abstract()); var chosen := Chosen(func, s.queue);
        && (ret <==> chosen != [])
        && Abstract() == s.(queue := Others(func, s.queue), free := s.free + Emptied(chosen),
                            handedOut := s.handedOut + EventsOf(chosen))
    {
      hide Steps, Advance, HandOut, Recycle, EventsOf, Distinct, Apart, Items;
      if queueList == [] {
        NothingQueued(Abstract());
        run := StopAtOnce();
        return false, run;
      }
      ghost var s := Abstract();
      var temp;
      run, temp := Begin(EventQueueModel.ProcessIf, false);
      TookSome(Items(temp));
      NoneIdle(temp);
      assert s.queue[..|temp|] == s.queue && s.queue[|temp|..] == [];
      var left, done;
      run, left, done := SelectAll(run, temp, func);
      run := SpliceBack(run, left, done);
      assert Items(left) + [] == Items(left);
      ret := done != [];
      assert run.c.temp + run.c.idle == Items(done);
      run := Release(run, done);
    }

    lemma NoneIdle(temp: seq<BufferedItem>)
      requires ValidWith(temp) && AllFull(Items(temp))
      ensures ValidWithIdle(temp, [])
    {
    }

    ghost method StopAtOnce() returns (run: Run)
      requires queueList == []
      ensures run.c.took == [] && run.c.flags == []
      ensures run.Continues(Starting(Abstract(), EventQueueModel.ProcessIf)) && run.Reaches(Abstract())
      ensures run.c.pc.Done?
    {
      run := Starting(Abstract(), EventQueueModel.ProcessIf);
      run := run.Next(true, Abstract());
    }
  }
}