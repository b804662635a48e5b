/**
  The heap of a callback list (eventpp/include/eventpp/callbacklist.h) as a value.

  A node is named by its position in `cells`, in order of allocation, and is never
  forgotten: a node that was removed keeps its cell, with the stale `previous` and
  `next` that a running traversal may still follow.

  The fields after `currentCounter` are history.  They are read by no operation;
  the invariants and the theorems about traversals are stated with them.
 */
module CallbackListModel {
  import opened Common

  // `Counter` is an `unsigned int`.
  const COUNTER_RANGE: nat := 0x1_0000_0000
  const REMOVED_COUNTER: nat := 0

  type NodeId = nat
  type Callback = nat

  datatype Cell = Cell(previous: Option<NodeId>, next: Option<NodeId>, callback: Callback, counter: nat)

  datatype List = List(
    cells: seq<Cell>,
    head: Option<NodeId>,
    tail: Option<NodeId>,
    currentCounter: nat,
    // history
    linked: seq<NodeId>,   // the nodes from head to tail
    rank: seq<real>,       // with ties broken by age, a total order of all nodes ever linked
    stamp: seq<nat>,       // `ticks` when the node was allocated
    removedAt: seq<nat>,   // `ticks` when the node was removed
    ticks: nat,            // how often the counter was taken
    base: nat)             // `ticks` before the last wrap of the counter

  /** A list as its default constructor leaves it. */
  predicate IsEmpty(l: List) {
    && l.cells == [] && l.head == None && l.tail == None && l.currentCounter == 0
    && l.linked == [] && l.rank == [] && l.stamp == [] && l.removedAt == [] && l.ticks == 0 && l.base == 0
  }

  lemma EmptyExists()
    ensures exists l :: IsEmpty(l)
  {
    assert IsEmpty(List([], None, None, 0, [], [], [], [], 0, 0));
  }

  lemma EmptyIsValid(l: List)
    requires IsEmpty(l)
    ensures Valid(l)
  {
  }

  // ---------------------------------------------------------------- invariant

  predicate Before(l: List, a: NodeId, b: NodeId)
    requires a < |l.rank| && b < |l.rank|
  {
    l.rank[a] < l.rank[b] || (l.rank[a] == l.rank[b] && a < b)
  }

  predicate IsNode(l: List, p: Option<NodeId>) {
    p.Some? ==> p.value < |l.cells|
  }

  ghost predicate Sized(l: List) {
    && |l.rank| == |l.cells| && |l.stamp| == |l.cells| && |l.removedAt| == |l.cells|
    && (forall i :: 0 <= i < |l.linked| ==> l.linked[i] < |l.cells|)
    && (forall n :: 0 <= n < |l.cells| ==> IsNode(l, l.cells[n].previous) && IsNode(l, l.cells[n].next))
  }

  predicate HasEnds(l: List) {
    IsNode(l, l.head) && IsNode(l, l.tail) && (l.head.Some? <==> l.tail.Some?)
  }

  /** `previous` and `next` of the linked nodes mirror the one sequence `linked`. */
  ghost predicate Mirrors(l: List)
    requires Sized(l)
  {
    && (l.linked == [] ==> l.head == None && l.tail == None)
    && (l.linked != [] ==>
          && l.head == Some(l.linked[0]) && l.cells[l.linked[0]].previous == None
          && l.tail == Some(l.linked[|l.linked| - 1]) && l.cells[l.linked[|l.linked| - 1]].next == None)
    && (forall i, j :: 0 <= i < j < |l.linked| && j == i + 1 ==>
          l.cells[l.linked[i]].next == Some(l.linked[j]) && l.cells[l.linked[j]].previous == Some(l.linked[i]))
  }

  ghost predicate Sorted(l: List)
    requires Sized(l)
  {
    forall i, j :: 0 <= i < j < |l.linked| ==> l.rank[l.linked[i]] < l.rank[l.linked[j]]
  }

  predicate Live(l: List, n: NodeId)
    requires n < |l.cells|
  {
    l.cells[n].counter != REMOVED_COUNTER
  }

  /** The counter a node allocated at tick `stamp` carries while it is linked. */
  function CounterOf(stamp: nat, base: nat): nat {
    if stamp <= base then 1 else stamp - base
  }

  ghost predicate Counted(l: List)
    requires Sized(l)
  {
    && (l.base == 0 || l.base < l.ticks)
    && l.base <= l.ticks
    && l.currentCounter == l.ticks - l.base < COUNTER_RANGE
    && (forall n :: 0 <= n < |l.cells| ==> 1 <= l.stamp[n] <= l.ticks && l.removedAt[n] <= l.ticks)
    && (forall n :: 0 <= n < |l.cells| ==> (Live(l, n) <==> n in l.linked))
    && (forall n :: 0 <= n < |l.cells| && Live(l, n) ==> l.cells[n].counter == CounterOf(l.stamp[n], l.base))
  }

  /** Every `next`, stale ones included, points forward. */
  ghost predicate Forward(l: List)
    requires Sized(l)
  {
    forall n :: 0 <= n < |l.cells| && l.cells[n].next.Some? ==> Before(l, n, l.cells[n].next.value)
  }

  /** `x` lies between node `r` and the node that `r.next` names. */
  ghost predicate Skipped(l: List, r: NodeId, x: NodeId)
    requires Sized(l) && r < |l.cells| && x < |l.cells|
  {
    Before(l, r, x) && (l.cells[r].next.Some? ==> Before(l, x, l.cells[r].next.value))
  }

  /** The stale `next` of the removed node `r` skips `x` only if `x` is younger than the removal. */
  ghost predicate StaleSkip(l: List, r: NodeId, x: NodeId)
    requires Sized(l) && r < |l.cells| && x < |l.cells|
  {
    !Live(l, r) && Live(l, x) && Skipped(l, r, x) ==> l.removedAt[r] < l.stamp[x]
  }

  /** The stale `next` of the removed node `r` leads to a linked node or to one removed later. */
  ghost predicate StaleChain(l: List, r: NodeId)
    requires Sized(l) && r < |l.cells|
  {
    (!Live(l, r) && l.cells[r].next.Some? && !Live(l, l.cells[r].next.value)) ==>
      l.removedAt[r] <= l.removedAt[l.cells[r].next.value]
  }

  ghost predicate StaleLinks(l: List)
    requires Sized(l)
  {
    && (forall r, x :: 0 <= r < |l.cells| && 0 <= x < |l.cells| ==> StaleSkip(l, r, x))
    && (forall r :: 0 <= r < |l.cells| ==> StaleChain(l, r))
  }

  ghost predicate Shape(l: List) {
    Sized(l) && Mirrors(l) && Sorted(l)
  }

  ghost predicate Valid(l: List) {
    && Shape(l)
    && Counted(l)
    && Forward(l)
    && StaleLinks(l)
  }

  // ---------------------------------------------------------------- operations

  /** `++currentCounter`. */
  function Increment(counter: nat): nat {
    if counter + 1 < COUNTER_RANGE then counter + 1 else 0
  }

  /** `getNextCounter`: on overflow every linked node falls back to counter 1. */
  function NextCounter(l: List): List {
    if Increment(l.currentCounter) == 0 then
      l.(cells := ResetCounters(l.cells, l.linked), currentCounter := Increment(0), ticks := l.ticks + 1,
          base := l.ticks)
    else
      l.(currentCounter := Increment(l.currentCounter), ticks := l.ticks + 1)
  }

  function ResetCounters(cells: seq<Cell>, linked: seq<NodeId>): (r: seq<Cell>)
    ensures |r| == |cells|
    ensures forall n :: 0 <= n < |cells| ==> r[n] == if n in linked then cells[n].(counter := 1) else cells[n]
  {
    seq(|cells|, n requires 0 <= n < |cells| => if n in linked then cells[n].(counter := 1) else cells[n])
  }

  lemma ResetOneMore(cells: seq<Cell>, linked: seq<NodeId>, k: nat)
    requires k < |linked| && linked[k] < |cells|
    ensures var n, r := linked[k], ResetCounters(cells, linked[..k]);
      ResetCounters(cells, linked[..k + 1]) == r[n := r[n].(counter := 1)]
  {
    assert linked[..k + 1] == linked[..k] + [linked[k]];
  }

  /** A new node, at the given place in the order and not linked to from anywhere yet. */
  function Allocated(l: List, cell: Cell, rank: real): List {
    l.(cells := l.cells + [cell], rank := l.rank + [rank], stamp := l.stamp + [l.ticks], removedAt := l.removedAt + [0])
  }

  function SetNext(cells: seq<Cell>, n: Option<NodeId>, next: Option<NodeId>): (r: seq<Cell>)
    requires n.Some? ==> n.value < |cells|
    ensures |r| == |cells|
  {
    if n.Some? then cells[n.value := cells[n.value].(next := next)] else cells
  }

  function SetPrevious(cells: seq<Cell>, n: Option<NodeId>, previous: Option<NodeId>): (r: seq<Cell>)
    requires n.Some? ==> n.value < |cells|
    ensures |r| == |cells|
  {
    if n.Some? then cells[n.value := cells[n.value].(previous := previous)] else cells
  }

  /** `append`. */
  function Append(l: List, callback: Callback): List
    requires Valid(l)
  {
    NextCounterKeepsValid(l);
    LinkLast(NextCounter(l), callback)
  }

  /** `prepend`. */
  function Prepend(l: List, callback: Callback): List
    requires Valid(l)
  {
    NextCounterKeepsValid(l);
    LinkFirst(NextCounter(l), callback)
  }

  /** `insert` with a handle of the linked node `before`. */
  function Insert(l: List, callback: Callback, before: NodeId): List
    requires Valid(l) && before in l.linked
  {
    NextCounterKeepsValid(l);
    LinkBefore(NextCounter(l), callback, before)
  }

  function LinkOnly(l: List, callback: Callback): List {
    Allocated(l, Cell(None, None, callback, l.currentCounter), 0.0)
      .(head := Some(|l.cells|), tail := Some(|l.cells|), linked := [|l.cells|])
  }

  function LinkLast(l: List, callback: Callback): List
    requires Sized(l) && HasEnds(l)
  {
    if l.head.None? then LinkOnly(l, callback) else
      var a := Allocated(l, Cell(l.tail, None, callback, l.currentCounter), l.rank[l.tail.value] + 1.0);
      a.(cells := SetNext(a.cells, l.tail, Some(|l.cells|)), tail := Some(|l.cells|), linked := l.linked + [|l.cells|])
  }

  function LinkFirst(l: List, callback: Callback): List
    requires Sized(l) && HasEnds(l)
  {
    if l.head.None? then LinkOnly(l, callback) else
      var a := Allocated(l, Cell(None, l.head, callback, l.currentCounter), l.rank[l.head.value] - 1.0);
      a.(cells := SetPrevious(a.cells, l.head, Some(|l.cells|)), head := Some(|l.cells|),
          linked := [|l.cells|] + l.linked)
  }

  function IndexOf(s: seq<NodeId>, n: NodeId): (i: nat)
    requires n in s
    ensures i < |s| && s[i] == n
  {
    if s[0] == n then 0 else 1 + IndexOf(s[1..], n)
  }

  /** `doInsert`. */
  function LinkBefore(l: List, callback: Callback, before: NodeId): List
    requires Sized(l) && before in l.linked
  {
    var i := IndexOf(l.linked, before);
    var previous := l.cells[before].previous;
    var rank := if previous.Some? then (l.rank[previous.value] + l.rank[before]) / 2.0 else l.rank[before] - 1.0;
    var a := Allocated(l, Cell(previous, Some(before), callback, l.currentCounter), rank);
    a.(cells := SetPrevious(SetNext(a.cells, previous, Some(|l.cells|)), Some(before), Some(|l.cells|)),
       head := if l.head == Some(before) then Some(|l.cells|) else l.head,
       linked := l.linked[..i] + [|l.cells|] + l.linked[i..])
  }

  lemma LinkBeforeCells(l: List, callback: Callback, before: NodeId)
    requires Sized(l) && before in l.linked
    ensures var id, previous := |l.cells|, l.cells[before].previous;
      var cells := l.cells + [Cell(None, None, callback, l.currentCounter)];
      LinkBefore(l, callback, before).cells ==
      SetPrevious(SetNext(cells[id := cells[id].(previous := previous, next := Some(before))], previous, Some(id)),
                  Some(before), Some(id))
  {
  }

  /** `doFreeNode` of the linked node `n`. */
  function Remove(l: List, n: NodeId): List
    requires Sized(l) && n in l.linked
  {
    var i := IndexOf(l.linked, n);
    var previous := l.cells[n].previous;
    var next := l.cells[n].next;
    var cells := SetNext(SetPrevious(l.cells, next, previous), previous, next);
    l.(cells := cells[n := cells[n].(counter := REMOVED_COUNTER)],
       head := if l.head == Some(n) then next else l.head,
       tail := if l.tail == Some(n) then previous else l.tail,
       linked := l.linked[..i] + l.linked[i + 1..],
       removedAt := l.removedAt[n := l.ticks])
  }

  // ---------------------------------------------------------------- the operations keep the invariant

  /** Just after the counter was taken, and before the new node is linked. */
  ghost predicate Fresh(l: List)
    requires Sized(l)
  {
    && l.base < l.ticks
    && (forall n :: 0 <= n < |l.cells| ==> l.stamp[n] < l.ticks && l.removedAt[n] < l.ticks)
  }

  lemma NextCounterKeepsValid(l: List)
    requires Valid(l)
    ensures Valid(NextCounter(l)) && Fresh(NextCounter(l))
  {
    NextCounterIsCounted(l);
    CountersDoNotMatter(l, NextCounter(l));
  }

  lemma NextCounterIsCounted(l: List)
    requires Sized(l) && Counted(l)
    ensures var a := NextCounter(l);
      && Sized(a) && Counted(a) && Fresh(a)
      && (forall n :: 0 <= n < |l.cells| ==> Live(a, n) == Live(l, n))
  {
    var a := NextCounter(l);
    forall n | 0 <= n < |l.cells|
      ensures Live(a, n) == Live(l, n) && (Live(l, n) ==> a.cells[n].counter == CounterOf(l.stamp[n], a.base))
    {
      assert Live(l, n) <==> n in l.linked;
    }
  }

  lemma CountersDoNotMatter(l: List, a: List)
    requires Sized(l) && Mirrors(l) && Sorted(l) && Forward(l) && StaleLinks(l)
    requires a.head == l.head && a.tail == l.tail && a.linked == l.linked && a.rank == l.rank
    requires a.stamp == l.stamp && a.removedAt == l.removedAt && |a.cells| == |l.cells|
    requires forall n :: 0 <= n < |l.cells| ==>
      && a.cells[n].previous == l.cells[n].previous && a.cells[n].next == l.cells[n].next && Live(a, n) == Live(l, n)
    ensures Sized(a) && Mirrors(a) && Sorted(a) && Forward(a) && StaleLinks(a)
  {
    forall r, x | 0 <= r < |l.cells| && 0 <= x < |l.cells| ensures StaleSkip(a, r, x) {
      assert StaleSkip(l, r, x);
    }
    forall r | 0 <= r < |l.cells| ensures StaleChain(a, r) {
      assert StaleChain(l, r);
    }
  }

  /** `a` is `l` with one new node linked in at position `i`, just after the counter was taken. */
  ghost predicate LinkedAt(l: List, a: List, i: nat, callback: Callback) {
    var id, k := |l.cells|, |l.linked|;
    && Sized(l) && i <= k
    && |a.cells| == id + 1 && |a.rank| == id + 1
    && a.linked == l.linked[..i] + [id] + l.linked[i..]
    && a.head == (if i == 0 then Some(id) else l.head)
    && a.tail == (if i == k then Some(id) else l.tail)
    && a.cells[id] == Cell(if i == 0 then None else Some(l.linked[i - 1]), if i == k then None else Some(l.linked[i]),
                           callback, l.currentCounter)
    && (forall n :: 0 <= n < id ==> a.cells[n] == Cell(
          if i < k && n == l.linked[i] then Some(id) else l.cells[n].previous,
          if 0 < i && n == l.linked[i - 1] then Some(id) else l.cells[n].next,
          l.cells[n].callback, l.cells[n].counter))
    && a.rank[..id] == l.rank
    && (0 < i ==> l.rank[l.linked[i - 1]] < a.rank[id])
    && (i < k ==> a.rank[id] < l.rank[l.linked[i]])
    && a.stamp == l.stamp + [l.ticks] && a.removedAt == l.removedAt + [0]
    && a.ticks == l.ticks && a.base == l.base && a.currentCounter == l.currentCounter
  }

  lemma LinkLastLinks(l: List, callback: Callback)
    requires Shape(l)
    ensures LinkedAt(l, LinkLast(l, callback), |l.linked|, callback)
  {
  }

  lemma LinkFirstLinks(l: List, callback: Callback)
    requires Shape(l)
    ensures LinkedAt(l, LinkFirst(l, callback), 0, callback)
  {
  }

  lemma LinkBeforeLinks(l: List, callback: Callback, before: NodeId)
    requires Shape(l) && before in l.linked
    ensures LinkedAt(l, LinkBefore(l, callback, before), IndexOf(l.linked, before), callback)
  {
    var i := IndexOf(l.linked, before);
    var previous := l.cells[before].previous;
    if 0 < i {
      assert previous == Some(l.linked[i - 1]);
    } else {
      assert previous == None;
    }
    HeadIsFirst(l, i);
  }

  lemma HeadIsFirst(l: List, i: nat)
    requires Shape(l) && i < |l.linked|
    ensures l.head == Some(l.linked[i]) <==> i == 0
    ensures l.tail == Some(l.linked[i]) <==> i == |l.linked| - 1
  {
  }

  lemma LinkedIsSorted(l: List, a: List, i: nat, callback: Callback)
    requires LinkedAt(l, a, i, callback) && Sized(a) && Sorted(l)
    ensures Sorted(a)
  {
    var id := |l.cells|;
    forall x, y | 0 <= x < y < |a.linked| ensures a.rank[a.linked[x]] < a.rank[a.linked[y]] {
      assert a.linked[x] == if x < i then l.linked[x] else if x == i then id else l.linked[x - 1];
      assert a.linked[y] == if y < i then l.linked[y] else if y == i then id else l.linked[y - 1];
      assert 0 < i && x < i ==> l.rank[l.linked[x]] <= l.rank[l.linked[i - 1]];
      assert i < |l.linked| && i < y ==> l.rank[l.linked[i]] <= l.rank[l.linked[y - 1]];
    }
  }

  lemma LinkedMirrors(l: List, a: List, i: nat, callback: Callback)
    requires LinkedAt(l, a, i, callback) && Shape(l)
    ensures Sized(a) && Mirrors(a)
  {
    LinkedEnds(l, a, i, callback);
    forall x, y | 0 <= x < y < |a.linked| && y == x + 1
      ensures a.cells[a.linked[x]].next == Some(a.linked[y]) && a.cells[a.linked[y]].previous == Some(a.linked[x])
    {
      LinkedMirrorsPair(l, a, i, callback, x);
    }
  }

  lemma LinkedEnds(l: List, a: List, i: nat, callback: Callback)
    requires LinkedAt(l, a, i, callback) && Shape(l)
    ensures Sized(a)
    ensures a.head == Some(a.linked[0]) && a.cells[a.linked[0]].previous == None
    ensures a.tail == Some(a.linked[|l.linked|]) && a.cells[a.linked[|l.linked|]].next == None
  {
    var k := |l.linked|;
    assert forall x :: 0 <= x < |a.linked| ==>
      a.linked[x] == if x < i then l.linked[x] else if x == i then |l.cells| else l.linked[x - 1];
    assert 0 < i ==> a.linked[0] == l.linked[0];
    assert i < k ==> a.linked[k] == l.linked[k - 1];
  }

  lemma LinkedMirrorsPair(l: List, a: List, i: nat, callback: Callback, x: nat)
    requires LinkedAt(l, a, i, callback) && Shape(l) && x + 1 < |a.linked|
    ensures a.linked[x] < |a.cells| && a.linked[x + 1] < |a.cells|
    ensures a.cells[a.linked[x]].next == Some(a.linked[x + 1]) && a.cells[a.linked[x + 1]].previous == Some(a.linked[x])
  {
    var id, y := |l.cells|, x + 1;
    if y < i {
      assert a.linked[x] == l.linked[x] && a.linked[y] == l.linked[y] && l.linked[x] != l.linked[i - 1];
    } else if y == i {
      assert a.linked[x] == l.linked[i - 1] && a.linked[y] == id;
    } else if x == i {
      assert a.linked[x] == id && a.linked[y] == l.linked[i];
    } else {
      assert a.linked[x] == l.linked[x - 1] && a.linked[y] == l.linked[y - 1] && l.linked[y - 1] != l.linked[i];
    }
  }

  lemma LinkedPointsForward(l: List, a: List, i: nat, callback: Callback)
    requires LinkedAt(l, a, i, callback) && Shape(l) && Sized(a) && Forward(l)
    ensures Forward(a)
  {
    forall n | 0 <= n < |a.cells| && a.cells[n].next.Some? ensures Before(a, n, a.cells[n].next.value) {
      if n < |l.cells| && a.cells[n].next == l.cells[n].next {
        assert Before(l, n, l.cells[n].next.value);
      }
    }
  }

  lemma LinkedMembers(l: List, a: List, i: nat, callback: Callback, n: NodeId)
    requires LinkedAt(l, a, i, callback)
    ensures n in a.linked <==> n == |l.cells| || n in l.linked
  {
    assert l.linked == l.linked[..i] + l.linked[i..];
  }

  lemma LinkedIsCounted(l: List, a: List, i: nat, callback: Callback)
    requires LinkedAt(l, a, i, callback) && Sized(a) && Counted(l) && Fresh(l)
    ensures Counted(a)
  {
    forall n | 0 <= n < |a.cells| ensures Live(a, n) <==> n in a.linked {
      LinkedMembers(l, a, i, callback, n);
      if n < |l.cells| {
        assert Live(a, n) == Live(l, n);
      }
    }
  }

  lemma LinkedKeepsStaleLinks(l: List, a: List, i: nat, callback: Callback)
    requires LinkedAt(l, a, i, callback) && Shape(l) && Sized(a) && Counted(l) && Fresh(l) && StaleLinks(l)
    ensures StaleLinks(a)
  {
    forall r | 0 <= r < |l.cells| && !Live(a, r) ensures a.cells[r].next == l.cells[r].next {
      assert !Live(l, r);
    }
    forall r, x | 0 <= r < |a.cells| && 0 <= x < |a.cells| ensures StaleSkip(a, r, x) {
      if r < |l.cells| && x < |l.cells| {
        assert StaleSkip(l, r, x);
      }
    }
    forall r | 0 <= r < |a.cells| ensures StaleChain(a, r) {
      if r < |l.cells| {
        assert StaleChain(l, r);
      }
    }
  }

  lemma LinkedKeepsValid(l: List, a: List, i: nat, callback: Callback)
    requires LinkedAt(l, a, i, callback) && Valid(l) && Fresh(l)
    ensures Valid(a)
  {
    LinkedMirrors(l, a, i, callback);
    LinkedIsSorted(l, a, i, callback);
    LinkedPointsForward(l, a, i, callback);
    LinkedIsCounted(l, a, i, callback);
    LinkedKeepsStaleLinks(l, a, i, callback);
  }

  // ---------------------------------------------------------------- removal

  /** `a` is `l` with the linked node at position `i` freed. */
  ghost predicate Unlinked(l: List, a: List, i: nat)
    requires Sized(l)
  {
    && i < |l.linked|
    && var n, k := l.linked[i], |l.linked|;
    && |a.cells| == |l.cells|
    && a.linked == l.linked[..i] + l.linked[i + 1..]
    && a.head == (if i == 0 then l.cells[n].next else l.head)
    && a.tail == (if i == k - 1 then l.cells[n].previous else l.tail)
    && (forall m :: 0 <= m < |l.cells| ==> a.cells[m] == Cell(
          if i + 1 < k && m == l.linked[i + 1] then l.cells[n].previous else l.cells[m].previous,
          if 0 < i && m == l.linked[i - 1] then l.cells[n].next else l.cells[m].next,
          l.cells[m].callback, if m == n then REMOVED_COUNTER else l.cells[m].counter))
    && a.rank == l.rank && a.stamp == l.stamp && a.removedAt == l.removedAt[n := l.ticks]
    && a.ticks == l.ticks && a.base == l.base && a.currentCounter == l.currentCounter
  }

  lemma RemoveUnlinks(l: List, n: NodeId)
    requires Shape(l) && n in l.linked
    ensures Unlinked(l, Remove(l, n), IndexOf(l.linked, n))
  {
    var i := IndexOf(l.linked, n);
    HeadIsFirst(l, i);
    assert l.cells[n].previous == if i == 0 then None else Some(l.linked[i - 1]);
    assert l.cells[n].next == if i == |l.linked| - 1 then None else Some(l.linked[i + 1]);
  }

  lemma UnlinkedShape(l: List, a: List, i: nat)
    requires Shape(l) && Unlinked(l, a, i)
    ensures Shape(a)
  {
    UnlinkedEnds(l, a, i);
    forall x, y | 0 <= x < y < |a.linked| && y == x + 1
      ensures a.cells[a.linked[x]].next == Some(a.linked[y]) && a.cells[a.linked[y]].previous == Some(a.linked[x])
    {
      UnlinkedMirrorsPair(l, a, i, x);
    }
    forall x, y | 0 <= x < y < |a.linked| ensures a.rank[a.linked[x]] < a.rank[a.linked[y]] {
      assert a.linked[x] == l.linked[if x < i then x else x + 1];
      assert a.linked[y] == l.linked[if y < i then y else y + 1];
    }
  }

  lemma UnlinkedEnds(l: List, a: List, i: nat)
    requires Shape(l) && Unlinked(l, a, i)
    ensures Sized(a)
    ensures a.linked == [] ==> a.head == None && a.tail == None
    ensures a.linked != [] ==>
      && a.head == Some(a.linked[0]) && a.cells[a.linked[0]].previous == None
      && a.tail == Some(a.linked[|a.linked| - 1]) && a.cells[a.linked[|a.linked| - 1]].next == None
  {
    var k := |l.linked|;
    assert forall x :: 0 <= x < |a.linked| ==> a.linked[x] == l.linked[if x < i then x else x + 1];
    assert 1 < k ==> l.cells[l.linked[0]].next == Some(l.linked[1]);
    assert 1 < k ==> l.cells[l.linked[k - 1]].previous == Some(l.linked[k - 2]);
  }

  lemma UnlinkedMirrorsPair(l: List, a: List, i: nat, x: nat)
    requires Shape(l) && Unlinked(l, a, i) && x + 1 < |a.linked|
    ensures a.linked[x] < |a.cells| && a.linked[x + 1] < |a.cells|
    ensures a.cells[a.linked[x]].next == Some(a.linked[x + 1]) && a.cells[a.linked[x + 1]].previous == Some(a.linked[x])
  {
    var y := x + 1;
    if y < i {
      assert a.linked[x] == l.linked[x] && a.linked[y] == l.linked[y] && l.linked[x] != l.linked[i - 1];
    } else if y == i {
      assert a.linked[x] == l.linked[i - 1] && a.linked[y] == l.linked[i + 1];
    } else {
      assert a.linked[x] == l.linked[x + 1] && a.linked[y] == l.linked[y + 1];
      assert l.linked[x + 1] != l.linked[i] && l.linked[y + 1] != l.linked[i + 1];
    }
  }

  lemma UnlinkedPointsForward(l: List, a: List, i: nat)
    requires Shape(l) && Unlinked(l, a, i) && Sized(a) && Forward(l)
    ensures Forward(a)
  {
    forall n | 0 <= n < |a.cells| && a.cells[n].next.Some? ensures Before(a, n, a.cells[n].next.value) {
      if 0 < i && n == l.linked[i - 1] {
        assert i + 1 < |l.linked|;
        assert l.rank[l.linked[i - 1]] < l.rank[l.linked[i + 1]];
      } else {
        assert Before(l, n, l.cells[n].next.value);
      }
    }
  }

  lemma LinkedOnce(l: List, i: nat, j: nat)
    requires Shape(l) && i < j < |l.linked|
    ensures l.linked[i] != l.linked[j]
  {
  }

  lemma InThreeParts(left: seq<NodeId>, middle: NodeId, right: seq<NodeId>, n: NodeId)
    ensures n in left + [middle] + right <==> n in left + right || n == middle
  {
  }

  lemma UnlinkedMembers(l: List, a: List, i: nat, n: NodeId)
    requires Shape(l) && Unlinked(l, a, i)
    ensures n in a.linked <==> n in l.linked && n != l.linked[i]
  {
    assert a.linked == l.linked[..i] + l.linked[i + 1..];
    assert l.linked == l.linked[..i] + [l.linked[i]] + l.linked[i + 1..];
    hide Shape, Unlinked;
    if n in a.linked {
      var x := IndexOf(a.linked, n);
      var y := if x < i then x else x + 1;
      assert l.linked[y] == n;
      LinkedOnce(l, if y < i then y else i, if y < i then i else y);
    } else {
      InThreeParts(l.linked[..i], l.linked[i], l.linked[i + 1..], n);
    }
  }

  lemma UnlinkedIsCounted(l: List, a: List, i: nat)
    requires Shape(l) && Unlinked(l, a, i) && Sized(a) && Counted(l)
    ensures Counted(a)
  {
    forall n | 0 <= n < |a.cells| ensures Live(a, n) <==> n in a.linked {
      UnlinkedMembers(l, a, i, n);
      assert n != l.linked[i] ==> Live(a, n) == Live(l, n);
    }
  }

  lemma NextInList(l: List, i: nat)
    requires Shape(l) && i < |l.linked|
    ensures l.cells[l.linked[i]].next == if i + 1 < |l.linked| then Some(l.linked[i + 1]) else None
  {
    if i + 1 < |l.linked| {
      assert l.cells[l.linked[i]].next == Some(l.linked[i + 1]);
    }
  }

  /** Every linked node's counter stays in 1..currentCounter. */
  lemma LinkedNodeIsCurrent(l: List, i: nat)
    requires Valid(l) && i < |l.linked|
    ensures 1 <= l.cells[l.linked[i]].counter <= l.currentCounter
  {
    assert l.linked[i] in l.linked;
  }

  /** Nothing linked lies between a linked node and its `next`. */
  lemma NothingSkipped(l: List, i: nat, x: NodeId)
    requires Shape(l) && i < |l.linked| && x in l.linked
    ensures !Skipped(l, l.linked[i], x)
  {
    var j := IndexOf(l.linked, x);
    if i + 1 < |l.linked| {
      assert l.cells[l.linked[i]].next == Some(l.linked[i + 1]);
      assert j > i + 1 ==> l.rank[l.linked[i + 1]] < l.rank[x];
    }
  }

  lemma UnlinkedKeepsStaleLinks(l: List, a: List, i: nat)
    requires Shape(l) && Unlinked(l, a, i) && Sized(a) && Counted(l) && Counted(a) && StaleLinks(l)
    ensures StaleLinks(a)
  {
    forall r, x | 0 <= r < |a.cells| && 0 <= x < |a.cells| ensures StaleSkip(a, r, x) {
      UnlinkedKeepsStaleSkip(l, a, i, r, x);
    }
    forall r | 0 <= r < |a.cells| ensures StaleChain(a, r) {
      if !Live(a, r) { UnlinkedKeepsStaleNext(l, a, i, r); }
      UnlinkedKeepsStaleChain(l, a, i, r);
    }
  }

  lemma UnlinkedKeepsStaleNext(l: List, a: List, i: nat, r: NodeId)
    requires Shape(l) && Unlinked(l, a, i) && Counted(l) && r < |l.cells| && !Live(a, r)
    ensures a.cells[r].next == l.cells[r].next
  {
    if 0 < i {
      assert l.linked[i - 1] in l.linked && l.linked[i - 1] != l.linked[i];
    }
  }

  lemma UnlinkedKeepsStaleSkip(l: List, a: List, i: nat, r: NodeId, x: NodeId)
    requires Shape(l) && Unlinked(l, a, i) && Sized(a) && Counted(l) && StaleLinks(l) && r < |l.cells| && x < |l.cells|
    ensures StaleSkip(a, r, x)
  {
    if !Live(a, r) && Live(a, x) {
      UnlinkedKeepsStaleNext(l, a, i, r);
      assert Live(l, x) && x in l.linked;
      if r == l.linked[i] { NothingSkipped(l, i, x); } else { assert StaleSkip(l, r, x); }
    }
  }

  lemma UnlinkedKeepsStaleChain(l: List, a: List, i: nat, r: NodeId)
    requires Shape(l) && Unlinked(l, a, i) && Sized(a) && Counted(l) && StaleLinks(l) && r < |l.cells|
    requires a.cells[r].next == l.cells[r].next || Live(a, r)
    ensures StaleChain(a, r)
  {
    var n := l.linked[i];
    assert StaleChain(l, r);
    if r == n && i + 1 < |l.linked| {
      assert l.cells[n].next == Some(l.linked[i + 1]) && l.linked[i + 1] in l.linked && l.linked[i + 1] != n;
      assert Live(l, l.linked[i + 1]);
    }
  }

  lemma RemoveKeepsValid(l: List, n: NodeId)
    requires Valid(l) && n in l.linked
    ensures Valid(Remove(l, n))
  {
    var a, i := Remove(l, n), IndexOf(l.linked, n);
    RemoveUnlinks(l, n);
    UnlinkedShape(l, a, i);
    UnlinkedPointsForward(l, a, i);
    UnlinkedIsCounted(l, a, i);
    UnlinkedKeepsStaleLinks(l, a, i);
  }

  // ---------------------------------------------------------------- the public operations

  lemma AppendLinks(l: List, callback: Callback)
    requires Valid(l)
    ensures var b := NextCounter(l);
      Valid(b) && Fresh(b) && LinkedAt(b, Append(l, callback), |l.linked|, callback) && Valid(Append(l, callback))
  {
    NextCounterKeepsValid(l);
    LinkLastLinks(NextCounter(l), callback);
    LinkedKeepsValid(NextCounter(l), Append(l, callback), |l.linked|, callback);
  }

  lemma PrependLinks(l: List, callback: Callback)
    requires Valid(l)
    ensures var b := NextCounter(l);
      Valid(b) && Fresh(b) && LinkedAt(b, Prepend(l, callback), 0, callback) && Valid(Prepend(l, callback))
  {
    NextCounterKeepsValid(l);
    LinkFirstLinks(NextCounter(l), callback);
    LinkedKeepsValid(NextCounter(l), Prepend(l, callback), 0, callback);
  }

  lemma InsertLinks(l: List, callback: Callback, before: NodeId)
    requires Valid(l) && before in l.linked
    ensures var b, i := NextCounter(l), IndexOf(l.linked, before);
      && Valid(b) && Fresh(b) && LinkedAt(b, Insert(l, callback, before), i, callback)
      && Valid(Insert(l, callback, before))
  {
    NextCounterKeepsValid(l);
    LinkBeforeLinks(NextCounter(l), callback, before);
    LinkedKeepsValid(NextCounter(l), Insert(l, callback, before), IndexOf(l.linked, before), callback);
  }

  // ---------------------------------------------------------------- handles of nodes that are no longer linked

  /** The assignments of `doFreeNode` to the node and its neighbours. */
  function FreedCells(l: List, n: NodeId): seq<Cell>
    requires Sized(l) && n < |l.cells|
  {
    var cells := SetNext(SetPrevious(l.cells, l.cells[n].next, l.cells[n].previous), l.cells[n].previous,
        l.cells[n].next);
    cells[n := cells[n].(counter := REMOVED_COUNTER)]
  }

  /** `doFreeNode` of a node that was removed before and is kept alive by a loop or by another such node. */
  function FreeAgain(l: List, n: NodeId): List
    requires Sized(l) && n < |l.cells|
  {
    l.(cells := FreedCells(l, n))
  }

  predicate IsLive(l: List, p: Option<NodeId>)
    requires IsNode(l, p)
  {
    p.Some? && Live(l, p.value)
  }

  /** The linked ones of the nodes that `n` names as its neighbours are still next to each other. */
  predicate NeighboursMeet(l: List, n: NodeId)
    requires n < |l.cells| && IsNode(l, l.cells[n].previous) && IsNode(l, l.cells[n].next)
  {
    var previous, next := l.cells[n].previous, l.cells[n].next;
    && (IsLive(l, next) ==> l.cells[next.value].previous == previous)
    && (IsLive(l, previous) ==> l.cells[previous.value].next == next)
  }

  lemma FreeAgainCells(l: List, n: NodeId)
    requires Valid(l) && n < |l.cells| && n !in l.linked
    ensures var a, previous, next := FreeAgain(l, n), l.cells[n].previous, l.cells[n].next;
      && Sized(a) && next != Some(n) && !Live(l, n)
      && (next.Some? ==> a.cells[next.value].previous == previous)
      && (previous.Some? ==> a.cells[previous.value].next == next)
      && (forall m :: 0 <= m < |l.cells| && Some(m) != next && Some(m) != previous ==> a.cells[m] == l.cells[m])
  {
    var next := l.cells[n].next;
    assert next != Some(n) by {
      assert next.Some? ==> Before(l, n, next.value);
    }
    hide Mirrors, Sorted, Forward, StaleLinks;
  }

  lemma MeetingNeighboursStay(l: List, n: NodeId)
    requires Valid(l) && n < |l.cells| && n !in l.linked && NeighboursMeet(l, n)
    ensures forall m :: 0 <= m < |l.cells| && Live(l, m) ==> FreeAgain(l, n).cells[m] == l.cells[m]
  {
    hide Mirrors, Sorted, Forward, StaleLinks;
    assert !Live(l, n);
  }

  /**
    Removing a node a second time keeps the list if and only if the linked ones of the two nodes it
    names still adjoin.
   */
  lemma FreeAgainKeepsShapeIff(l: List, n: NodeId)
    requires Valid(l) && n < |l.cells| && n !in l.linked
    ensures Shape(FreeAgain(l, n)) <==> NeighboursMeet(l, n)
  {
    var a, previous, next := FreeAgain(l, n), l.cells[n].previous, l.cells[n].next;
    FreeAgainCells(l, n);
    if NeighboursMeet(l, n) {
      MeetingNeighboursStay(l, n);
      hide Mirrors, Sorted, Forward, StaleLinks, Counted;
      SameLiveLinks(l, a);
    } else if IsLive(l, next) && l.cells[next.value].previous != previous {
      hide Mirrors, Sorted, Forward, StaleLinks;
      MirrorsFixLinks(l, a, IndexOf(l.linked, next.value));
    } else {
      hide Mirrors, Sorted, Forward, StaleLinks;
      MirrorsFixLinks(l, a, IndexOf(l.linked, previous.value));
    }
  }

  /** The list is the links of the live nodes; those of the others do not matter. */
  lemma SameLiveLinks(l: List, a: List)
    requires Valid(l) && Sized(a) && a.linked == l.linked && a.head == l.head && a.tail == l.tail && l.rank <= a.rank
    requires forall m :: 0 <= m < |l.cells| && Live(l, m) ==> a.cells[m] == l.cells[m]
    ensures Shape(a)
  {
    assert forall i :: 0 <= i < |l.linked| ==> Live(l, l.linked[i]);
  }

  lemma MirrorsFixLinks(l: List, a: List, i: nat)
    requires Shape(l) && Sized(a) && a.linked == l.linked && |a.cells| == |l.cells| && i < |l.linked|
    ensures Shape(a) ==> a.cells[l.linked[i]].next == l.cells[l.linked[i]].next
    ensures Shape(a) ==> a.cells[l.linked[i]].previous == l.cells[l.linked[i]].previous
  {
    NextInList(l, i);
    PreviousInList(l, i);
    if Shape(a) {
      NextInList(a, i);
      PreviousInList(a, i);
    }
  }

  lemma PreviousInList(l: List, i: nat)
    requires Shape(l) && i < |l.linked|
    ensures l.cells[l.linked[i]].previous == if i == 0 then None else Some(l.linked[i - 1])
  {
    if 0 < i {
      assert l.cells[l.linked[i]].previous == Some(l.linked[i - 1]);
    }
  }

  /** With both neighbours where they were, removing a second time changes nothing at all. */
  predicate StillMeet(l: List, n: NodeId)
    requires n < |l.cells| && IsNode(l, l.cells[n].previous) && IsNode(l, l.cells[n].next)
  {
    var previous, next := l.cells[n].previous, l.cells[n].next;
    && (next.Some? ==> l.cells[next.value].previous == previous)
    && (previous.Some? ==> l.cells[previous.value].next == next)
  }

  lemma FreeAgainIsNothingIff(l: List, n: NodeId)
    requires Valid(l) && n < |l.cells| && n !in l.linked
    ensures FreeAgain(l, n) == l <==> StillMeet(l, n)
  {
    var a, previous, next := FreeAgain(l, n), l.cells[n].previous, l.cells[n].next;
    assert !Live(l, n);
    assert next != Some(n) by {
      assert next.Some? ==> Before(l, n, next.value);
    }
    if StillMeet(l, n) {
      assert a.cells == l.cells;
    } else if next.Some? && l.cells[next.value].previous != previous {
      assert a.cells[next.value].previous == previous;
    } else {
      assert a.cells[previous.value].next == next;
    }
  }

  /** `doInsert` before a node that is no longer linked. */
  function LinkBeforeUnlinked(l: List, callback: Callback, before: NodeId): List
    requires Sized(l) && before < |l.cells|
  {
    var previous := l.cells[before].previous;
    var a := Allocated(l, Cell(previous, Some(before), callback, l.currentCounter), l.rank[before]);
    a.(cells := SetPrevious(SetNext(a.cells, previous, Some(|l.cells|)), Some(before), Some(|l.cells|)))
  }

  lemma LinkBeforeUnlinkedCells(l: List, callback: Callback, before: NodeId)
    requires Sized(l) && before < |l.cells|
    ensures var id, previous := |l.cells|, l.cells[before].previous;
      var cells := l.cells + [Cell(None, None, callback, l.currentCounter)];
      LinkBeforeUnlinked(l, callback, before).cells ==
      SetPrevious(SetNext(cells[id := cells[id].(previous := previous, next := Some(before))], previous, Some(id)),
                  Some(before), Some(id))
  {
  }

  lemma UnlinkedIsNoHead(l: List, n: NodeId)
    requires Shape(l) && n !in l.linked
    ensures l.head != Some(n) && l.tail != Some(n)
  {
  }

  // What a traversal that starts now comes past: the nodes on the chain of `next` from the head.

  ghost predicate IsChain(l: List, path: seq<NodeId>) {
    && path != [] && l.head == Some(path[0])
    && (forall i :: 0 <= i < |path| ==> path[i] < |l.cells|)
    && (forall i, j :: 0 <= i < j < |path| && j == i + 1 ==> l.cells[path[i]].next == Some(path[j]))
  }

  ghost predicate Reaches(l: List, x: NodeId) {
    exists path :: IsChain(l, path) && path[|path| - 1] == x
  }

  /** A chain does not leave a set of nodes that holds the head and is closed under `next`. */
  lemma {:induction false} ChainStays(l: List, nodes: set<NodeId>, path: seq<NodeId>)
    requires IsChain(l, path) && path[0] in nodes
    requires forall n :: n in nodes && n < |l.cells| && l.cells[n].next.Some? ==> l.cells[n].next.value in nodes
    ensures path[|path| - 1] in nodes
    decreases |path|
  {
    if |path| > 1 {
      var shorter := path[..|path| - 1];
      assert IsChain(l, shorter) && shorter[0] == path[0];
      ChainStays(l, nodes, shorter);
      assert l.cells[path[|path| - 2]].next == Some(path[|path| - 1]);
    }
  }

  /** In a list that is in order, exactly the linked nodes are reached. */
  lemma ReachesIffLinked(l: List, x: NodeId)
    requires Shape(l)
    ensures Reaches(l, x) <==> x in l.linked
  {
    if x in l.linked {
      var i := IndexOf(l.linked, x);
      assert IsChain(l, l.linked[..i + 1]);
    }
    if Reaches(l, x) {
      var path :| IsChain(l, path) && path[|path| - 1] == x;
      var nodes := set n | n in l.linked;
      forall n | n in nodes && l.cells[n].next.Some? ensures l.cells[n].next.value in nodes {
        NextInList(l, IndexOf(l.linked, n));
      }
      ChainStays(l, nodes, path);
    }
  }

  /**
    A node inserted before a removed one is hung on the node that the removed one names before it.  It
    is reached from the head if and only if that node is linked, and then the links of the list do not
    mirror each other any more; otherwise the list stays as it was, and the node is outside it.
   */
  lemma InsertBeforeUnlinkedIsReachedIff(l: List, callback: Callback, before: NodeId)
    requires Valid(l) && before < |l.cells| && before !in l.linked
    ensures var a := LinkBeforeUnlinked(l, callback, before);
      && (Reaches(a, |l.cells|) <==> IsLive(l, l.cells[before].previous))
      && (Shape(a) <==> !IsLive(l, l.cells[before].previous))
  {
    var a, previous := LinkBeforeUnlinked(l, callback, before), l.cells[before].previous;
    InsertBeforeUnlinkedKeepsShapeIff(l, callback, before);
    hide Forward, StaleLinks, Sorted;
    if IsLive(l, previous) {
      var i := IndexOf(l.linked, previous.value);
      InsertedChain(l, callback, before, i);
      assert (l.linked[..i + 1] + [|l.cells|])[i + 1] == |l.cells|;
    } else {
      ReachesIffLinked(a, |l.cells|);
    }
  }

  lemma InsertedChain(l: List, callback: Callback, before: NodeId, i: nat)
    requires Valid(l) && before < |l.cells| && before !in l.linked
    requires i < |l.linked| && l.cells[before].previous == Some(l.linked[i])
    ensures IsChain(LinkBeforeUnlinked(l, callback, before), l.linked[..i + 1] + [|l.cells|])
  {
    hide Forward, StaleLinks, Counted;
    var a, path := LinkBeforeUnlinked(l, callback, before), l.linked[..i + 1] + [|l.cells|];
    forall x, y | 0 <= x < y < |path| && y == x + 1 ensures a.cells[path[x]].next == Some(path[y]) {
      if y <= i {
        assert l.linked[x] != l.linked[i];
        assert l.cells[l.linked[x]].next == Some(l.linked[y]);
      }
    }
  }

  lemma InsertBeforeUnlinkedKeepsShapeIff(l: List, callback: Callback, before: NodeId)
    requires Valid(l) && before < |l.cells| && before !in l.linked
    ensures Shape(LinkBeforeUnlinked(l, callback, before)) <==> !IsLive(l, l.cells[before].previous)
  {
    hide Forward, StaleLinks;
    var a, previous := LinkBeforeUnlinked(l, callback, before), l.cells[before].previous;
    assert Sized(a);
    if IsLive(l, previous) {
      assert a.cells[previous.value].next == Some(|l.cells|);
      NextIsFixed(l, a, IndexOf(l.linked, previous.value));
    } else {
      hide Mirrors, Sorted;
      SameLiveLinks(l, a);
    }
  }

  lemma NextIsFixed(l: List, a: List, i: nat)
    requires Shape(l) && Sized(a) && a.linked == l.linked && i < |l.linked|
    ensures Shape(a) ==> a.cells[l.linked[i]].next == l.cells[l.linked[i]].next
  {
    NextInList(l, i);
    if Shape(a) {
      NextInList(a, i);
    }
  }

  lemma AppendedLast(l: List, callback: Callback)
    requires Valid(l)
    ensures var a := Append(l, callback);
      Valid(a) && a.linked == l.linked + [|l.cells|] && |a.cells| == |l.cells| + 1
  {
    AppendLinks(l, callback);
  }

  /** What became of the middle one of three nodes. */
  lemma MiddleTakenOut(l: List)
    requires Valid(l) && l.linked == [0, 1, 2] && |l.cells| == 3
    ensures var a := Remove(l, 1);
      && Valid(a) && a.linked == [0, 2] && |a.cells| == 3
      && a.cells[1].next == Some(2) && a.cells[1].previous == Some(0)
  {
    RemoveKeepsValid(l, 1);
    RemoveUnlinks(l, 1);
    hide Valid, Counted, Forward, StaleLinks, Sorted, Remove;
    assert l.linked[0] == 0 && l.linked[1] == 1 && l.linked[2] == 2 && IndexOf(l.linked, 1) == 1;
    NextInList(l, 1);
    PreviousInList(l, 1);
  }

  lemma NextCounterKeepsLinks(l: List)
    ensures var b := NextCounter(l);
      && b.linked == l.linked && |b.cells| == |l.cells|
      && forall n :: 0 <= n < |l.cells|
          ==> b.cells[n].previous == l.cells[n].previous && b.cells[n].next == l.cells[n].next
  {
  }

  lemma PutBeforeTwo(l: List, callback: Callback)
    requires Valid(l) && l.linked == [0, 2] && |l.cells| == 3
    requires l.cells[1].next == Some(2) && l.cells[1].previous == Some(0)
    ensures var a := Insert(l, callback, 2);
      && Valid(a) && a.linked == [0, 3, 2] && |a.cells| == 4
      && a.cells[1].next == Some(2) && a.cells[1].previous == Some(0)
  {
    hide Valid, Shape, Fresh, Insert, NextCounter;
    InsertLinks(l, callback, 2);
    NextCounterKeepsLinks(l);
    assert l.linked[0] == 0 && l.linked[1] == 2 && IndexOf(l.linked, 2) == 1;
    assert Insert(l, callback, 2).linked == [0, 3, 2];
  }

  lemma ThirdIsPassedOver(l: List)
    requires Valid(l) && l.linked == [0, 3, 2] && |l.cells| == 4
    requires l.cells[1].next == Some(2) && l.cells[1].previous == Some(0)
    ensures var a := FreeAgain(l, 1);
      && a.head == Some(0) && a.cells[0].next == Some(2) && a.cells[2].next == None && !Reaches(a, 3)
  {
    hide Counted, Forward, StaleLinks, Sorted;
    assert l.linked[0] == 0 && l.linked[2] == 2;
    NextInList(l, 2);
    var a := FreeAgain(l, 1);
    forall path | IsChain(a, path) ensures path[|path| - 1] != 3 {
      ChainStays(a, {0, 2}, path);
    }
  }

  lemma ThreeAppended(l: List) returns (one: List, two: List, three: List)
    requires IsEmpty(l)
    ensures Valid(l) && one == Append(l, 0)
    ensures Valid(one) && two == Append(one, 0)
    ensures Valid(two) && three == Append(two, 0)
    ensures Valid(three) && three.linked == [0, 1, 2] && |three.cells| == 3
  {
    hide Valid, Append;
    EmptyIsValid(l);
    assert l.linked == [] && l.cells == [];
    hide IsEmpty;
    AppendedLast(l, 0);
    one := Append(l, 0);
    AppendedLast(one, 0);
    two := Append(one, 0);
    AppendedLast(two, 0);
    three := Append(two, 0);
    assert [] + [0] + [1] + [2] == [0, 1, 2];
  }

  /**
    Of three nodes put into an empty list the middle one is removed, a node 3 is put in its place, and
    the middle one is removed once more: 3 is gone.
   */
  lemma RemovedTwiceLosesAnother(l: List) returns (one: List, two: List, three: List, gap: List, a: List)
    requires IsEmpty(l)
    ensures Valid(l) && one == Append(l, 0)
    ensures Valid(one) && two == Append(one, 0)
    ensures Valid(two) && three == Append(two, 0)
    ensures Valid(three) && three.linked == [0, 1, 2] && gap == Remove(three, 1)
    ensures Valid(gap) && gap.linked == [0, 2] && a == Insert(gap, 0, 2)
    ensures Valid(a) && a.linked == [0, 3, 2] && |a.cells| == 4
    ensures var b := FreeAgain(a, 1);
      && b.head == Some(0) && b.cells[0].next == Some(2) && b.cells[2].next == None && !Reaches(b, 3)
  {
    hide *;
    one, two, three := ThreeAppended(l);
    SizedOfValid(three);
    MiddleTakenOut(three);
    gap := Remove(three, 1);
    PutBeforeTwo(gap, 0);
    a := Insert(gap, 0, 2);
    SizedOfValid(a);
    ThirdIsPassedOver(a);
  }

  /**
    Of three nodes put into an empty list the middle one is removed, and a node 3 is inserted before it:
    a loop goes from 0 to 3, on to the removed node, and from there to 2.
   */
  lemma InsertedBeforeRemovedIsMet(l: List) returns (one: List, two: List, three: List, gap: List, a: List)
    requires IsEmpty(l)
    ensures Valid(l) && one == Append(l, 0)
    ensures Valid(one) && two == Append(one, 0)
    ensures Valid(two) && three == Append(two, 0)
    ensures Valid(three) && three.linked == [0, 1, 2] && gap == Remove(three, 1)
    ensures Valid(gap) && gap.linked == [0, 2] && Valid(NextCounter(gap)) && |NextCounter(gap).cells| == 3
    ensures a == LinkBeforeUnlinked(NextCounter(gap), 0, 1) && |a.cells| == 4
    ensures a.head == Some(0) && a.cells[0].next == Some(3) && a.cells[3].next == Some(1) && a.cells[1].next == Some(2)
    ensures Live(a, 3) && !Live(a, 1) && Reaches(a, 3)
  {
    hide *;
    one, two, three := ThreeAppended(l);
    SizedOfValid(three);
    MiddleTakenOut(three);
    gap := Remove(three, 1);
    NextCounterKeepsValid(gap);
    NextCounterKeepsLinks(gap);
    SizedOfValid(NextCounter(gap));
    a := LinkBeforeUnlinked(NextCounter(gap), 0, 1);
    HungBeforeOne(NextCounter(gap));
  }

  lemma HungBeforeOne(l: List)
    requires Valid(l) && Fresh(l) && l.linked == [0, 2] && |l.cells| == 3
    requires l.cells[1].next == Some(2) && l.cells[1].previous == Some(0)
    ensures var a := LinkBeforeUnlinked(l, 0, 1);
      && |a.cells| == 4 && a.head == Some(0)
      && a.cells[0].next == Some(3) && a.cells[3].next == Some(1) && a.cells[1].next == Some(2)
      && Live(a, 3) && !Live(a, 1) && Reaches(a, 3)
  {
    hide Forward, StaleLinks, Sorted;
    assert l.linked[0] == 0 && l.linked[1] == 2;
    assert Live(l, 0) && !Live(l, 1);
    InsertBeforeUnlinkedIsReachedIff(l, 0, 1);
  }

  lemma SizedOfValid(l: List)
    requires Valid(l)
    ensures Sized(l)
  {
  }

  // ---------------------------------------------------------------- any live handle

  /** `remove` with a handle that is not expired, of a linked node or of one removed before. */
  function Free(l: List, n: NodeId): List
    requires Sized(l) && n < |l.cells|
  {
    if n in l.linked then Remove(l, n) else FreeAgain(l, n)
  }

  /** What `doFreeNode` assigns. */
  lemma FreeAssigns(l: List, n: NodeId)
    requires Valid(l) && n < |l.cells|
    ensures var a, previous, next := Free(l, n), l.cells[n].previous, l.cells[n].next;
      && Sized(a) && a.currentCounter == l.currentCounter && a.cells == FreedCells(l, n)
      && a.head == (if l.head == Some(n) then next else l.head)
      && a.tail == (if l.tail == Some(n) then previous else l.tail)
    ensures n in l.linked || StillMeet(l, n) ==> Valid(Free(l, n))
  {
    if n in l.linked {
      RemoveKeepsValid(l, n);
      hide Shape, Counted, Forward, StaleLinks;
    } else {
      FreeAgainCells(l, n);
      FreeAgainIsNothingIff(l, n);
      UnlinkedIsNoHead(l, n);
      hide Shape, Counted, Forward, StaleLinks;
    }
  }

  /** `doInsert` before any live node. */
  function LinkBeforeAny(l: List, callback: Callback, before: NodeId): List
    requires Sized(l) && before < |l.cells|
  {
    if before in l.linked then LinkBefore(l, callback, before) else LinkBeforeUnlinked(l, callback, before)
  }

  /** What `doInsert` assigns. */
  ghost predicate AssignsInsert(l: List, callback: Callback, before: NodeId, a: List)
    requires Sized(l) && before < |l.cells|
  {
    var id, previous := |l.cells|, l.cells[before].previous;
    var cells := l.cells + [Cell(None, None, callback, l.currentCounter)];
    && Sized(a) && a.currentCounter == l.currentCounter
    && a.cells == SetPrevious(SetNext(cells[id := cells[id].(previous := previous, next := Some(before))],
                                      previous, Some(id)), Some(before), Some(id))
    && a.head == (if l.head == Some(before) then Some(id) else l.head) && a.tail == l.tail
  }

  lemma LinkBeforeAssigns(l: List, callback: Callback, before: NodeId)
    requires Valid(l) && Fresh(l) && before < |l.cells|
    ensures AssignsInsert(l, callback, before, LinkBeforeAny(l, callback, before))
    ensures before in l.linked ==> Valid(LinkBeforeAny(l, callback, before))
  {
    hide Mirrors, Sorted, Counted, Forward, StaleLinks, AssignsInsert, LinkedAt;
    if before in l.linked {
      LinkBeforeLinks(l, callback, before);
      LinkedKeepsValid(l, LinkBefore(l, callback, before), IndexOf(l.linked, before), callback);
      LinkedAssigns(l, callback, before);
    } else {
      UnlinkedIsNoHead(l, before);
      UnlinkedAssigns(l, callback, before);
    }
  }

  lemma LinkedAssigns(l: List, callback: Callback, before: NodeId)
    requires Sized(l) && before in l.linked && Sized(LinkBefore(l, callback, before))
    ensures AssignsInsert(l, callback, before, LinkBefore(l, callback, before))
  {
    LinkBeforeCells(l, callback, before);
  }

  lemma UnlinkedAssigns(l: List, callback: Callback, before: NodeId)
    requires Sized(l) && before < |l.cells| && l.head != Some(before)
    ensures AssignsInsert(l, callback, before, LinkBeforeUnlinked(l, callback, before))
  {
    LinkBeforeUnlinkedCells(l, callback, before);
  }

  // ---------------------------------------------------------------- copies

  /** The cells of a copy of a list with these callbacks; all share one counter. */
  function ClonedCells(callbacks: seq<Callback>): (cells: seq<Cell>)
    ensures |cells| == |callbacks|
  {
    seq(|callbacks|, n requires 0 <= n < |callbacks| =>
      Cell(if n == 0 then None else Some(n - 1), if n == |callbacks| - 1 then None else Some(n + 1), callbacks[n], 1))
  }

  /** `cloneFrom` in a new list. */
  function Cloned(callbacks: seq<Callback>): List {
    var k := |callbacks|;
    List(ClonedCells(callbacks), if k == 0 then None else Some(0), if k == 0 then None else Some(k - 1), 1,
         seq(k, n => n), seq(k, n => n as real), seq(k, n => 1), seq(k, n => 0), 1, 0)
  }

  function Callbacks(l: List, ids: seq<NodeId>): seq<Callback>
    requires forall i :: 0 <= i < |ids| ==> ids[i] < |l.cells|
  {
    seq(|ids|, i requires 0 <= i < |ids| => l.cells[ids[i]].callback)
  }

  /** A copy is a valid list of the same callbacks in the same order, on nodes of its own. */
  lemma ClonedIsValid(callbacks: seq<Callback>)
    ensures var l := Cloned(callbacks);
        Valid(l) && Sized(l) && |l.linked| == |l.cells| && Callbacks(l, l.linked) == callbacks
  {
    var l := Cloned(callbacks);
    ClonedIsShaped(callbacks);
    hide Mirrors, Sorted;
    forall n | 0 <= n < |l.cells| ensures Live(l, n) && n in l.linked {
      assert l.linked[n] == n;
    }
    assert Counted(l);
  }

  lemma ClonedIsShaped(callbacks: seq<Callback>)
    ensures Shape(Cloned(callbacks))
  {
  }

  /** One more callback: the last node points at the new one. */
  lemma ClonedOneMore(callbacks: seq<Callback>, callback: Callback)
    ensures var k := |callbacks|;
      var more := ClonedCells(callbacks) + [Cell(if k == 0 then None else Some(k - 1), None, callback, 1)];
      ClonedCells(callbacks + [callback]) == if k == 0 then more else SetNext(more, Some(k - 1), Some(k))
  {
  }
}
