/**
  `CallbackListBase` of eventpp/include/eventpp/callbacklist.h on the heap: nodes that point
  at each other, updated in place.  The ghost `model` is the value of CallbackListModel that
  the nodes spell out; every method moves it by the operation of the same name.
 */
module CallbackLists {
  import opened Common
  import M = CallbackListModel
  import R = CallbackListRuns

  class Node {
    var previous: Node?
    var next: Node?
    var callback: M.Callback
    var counter: nat
    ghost const id: M.NodeId

    constructor (callback: M.Callback, counter: nat, ghost id: M.NodeId)
      ensures previous == null && next == null
      ensures this.callback == callback && this.counter == counter && this.id == id
    {
      this.previous, this.next := null, null;
      this.callback, this.counter := callback, counter;
      this.id := id;
    }
  }

  ghost function IdOf(node: Node?): Option<M.NodeId> {
    if node == null then None else Some(node.id)
  }

  class CallbackList {
    var head: Node?
    var tail: Node?
    var currentCounter: nat
    ghost var nodes: map<M.NodeId, Node>
    ghost var model: M.List

    /** `node` is one of the nodes named by the model. */
    ghost predicate Owns(node: Node?)
      reads `nodes
    {
      node != null ==> node.id in nodes && nodes[node.id] == node
    }

    /** Node `i` has the contents of `cell`, and points at nodes of this list only. */
    ghost predicate NodeIs(i: M.NodeId, cell: M.Cell)
      requires i in nodes
      reads `nodes, nodes.Values
    {
      && nodes[i].id == i
      && Owns(nodes[i].previous) && Owns(nodes[i].next)
      && M.Cell(IdOf(nodes[i].previous), IdOf(nodes[i].next), nodes[i].callback, nodes[i].counter) == cell
    }

    /** The nodes are those of the model and have the contents `cells`. */
    ghost predicate Contains(cells: seq<M.Cell>)
      reads `nodes, nodes.Values
    {
      && (forall i :: i in nodes <==> 0 <= i < |cells|)
      && (forall i :: 0 <= i < |cells| ==> NodeIs(i, cells[i]))
    }

    ghost predicate Represents()
      reads this, nodes.Values
    {
      && M.Sized(model) && Contains(model.cells)
      && Owns(head) && IdOf(head) == model.head
      && Owns(tail) && IdOf(tail) == model.tail
      && currentCounter == model.currentCounter
    }

    ghost predicate Valid()
      reads this, nodes.Values
    {
      Represents() && M.Valid(model)
    }

    constructor ()
      ensures Valid() && nodes == map[] && M.IsEmpty(model)
    {
      head, tail, currentCounter := null, null, 0;
      nodes := map[];
      M.EmptyExists();
      ghost var empty :| M.IsEmpty(empty);
      M.EmptyIsValid(empty);
      model := empty;
    }

    method Empty() returns (empty: bool)
      requires Valid()
      ensures empty <==> model.linked == []
    {
      empty := head == null;
    }

    // -------------------------------------------------------------- single assignments

    /** `node->next = next`, and what it does to the contents. */
    method SetNext(node: Node, next: Node?, ghost cells: seq<M.Cell>) returns (ghost after: seq<M.Cell>)
      requires Contains(cells) && Owns(node) && Owns(next)
      modifies node`next
      ensures node.next == next
      ensures after == M.SetNext(cells, Some(node.id), IdOf(next)) && Contains(after)
    {
      node.next := next;
      after := M.SetNext(cells, Some(node.id), IdOf(next));
      forall i | 0 <= i < |cells| ensures NodeIs(i, after[i]) {
        assert old(NodeIs(i, cells[i]));
      }
    }

    /** `node->previous = previous`. */
    method SetPrevious(node: Node, previous: Node?, ghost cells: seq<M.Cell>) returns (ghost after: seq<M.Cell>)
      requires Contains(cells) && Owns(node) && Owns(previous)
      modifies node`previous
      ensures node.previous == previous
      ensures after == M.SetPrevious(cells, Some(node.id), IdOf(previous)) && Contains(after)
    {
      node.previous := previous;
      after := M.SetPrevious(cells, Some(node.id), IdOf(previous));
      forall i | 0 <= i < |cells| ensures NodeIs(i, after[i]) {
        assert old(NodeIs(i, cells[i]));
      }
    }

    /** `node->counter = counter`. */
    method SetCounter(node: Node, counter: nat, ghost cells: seq<M.Cell>) returns (ghost after: seq<M.Cell>)
      requires Contains(cells) && Owns(node)
      modifies node`counter
      ensures after == cells[node.id := cells[node.id].(counter := counter)] && Contains(after)
    {
      node.counter := counter;
      after := cells[node.id := cells[node.id].(counter := counter)];
      forall i | 0 <= i < |cells| ensures NodeIs(i, after[i]) {
        assert old(NodeIs(i, cells[i]));
      }
    }

    /** A new node joins the nodes of this list, not linked to anything yet. */
    ghost method Adopt(node: Node, cells: seq<M.Cell>) returns (after: seq<M.Cell>)
      requires Contains(cells) && node !in nodes.Values && node.id == |cells|
      requires node.previous == null && node.next == null
      modifies `nodes
      ensures nodes == old(nodes)[node.id := node]
      ensures after == cells + [M.Cell(None, None, node.callback, node.counter)] && Contains(after)
    {
      nodes := nodes[node.id := node];
      after := cells + [M.Cell(None, None, node.callback, node.counter)];
      forall i | 0 <= i < |after| ensures NodeIs(i, after[i]) {
        assert i < |cells| ==> old(NodeIs(i, cells[i]));
      }
    }

    /** The fields of a node are those of its cell. */
    lemma Read(node: Node, cells: seq<M.Cell>)
      requires Contains(cells) && Owns(node)
      ensures Owns(node.previous) && Owns(node.next)
      ensures M.Cell(IdOf(node.previous), IdOf(node.next), node.callback, node.counter) == cells[node.id]
    {
      assert NodeIs(node.id, cells[node.id]);
    }

    // -------------------------------------------------------------- operations

    method Append(callback: M.Callback) returns (handle: Node)
      requires Valid()
      modifies this, nodes.Values
      ensures Valid() && nodes == old(nodes)[|old(model).cells| := handle]
      ensures model == M.Append(old(model), callback)
    {
      M.AppendLinks(model, callback);
      handle := Allocate(callback);
      DoAppend(handle);
    }

    method DoAppend(node: Node)
      requires Represents() && M.HasEnds(model) && IsNew(node)
      requires M.Sized(M.LinkLast(model, node.callback))
      modifies this, nodes.Values, node
      ensures Represents() && nodes == old(nodes)[node.id := node]
      ensures model == M.LinkLast(old(model), old(node.callback))
    {
      ghost var after := M.LinkLast(model, node.callback);
      ghost var cells := Adopt(node, model.cells);
      if head != null {
        cells := SetPrevious(node, tail, cells);
        cells := SetNext(tail, node, cells);
        tail := node;
      } else {
        head := node;
        tail := node;
      }
      assert cells == after.cells;
      model := after;
    }

    method Prepend(callback: M.Callback) returns (handle: Node)
      requires Valid()
      modifies this, nodes.Values
      ensures Valid() && nodes == old(nodes)[|old(model).cells| := handle]
      ensures model == M.Prepend(old(model), callback)
    {
      M.PrependLinks(model, callback);
      handle := Allocate(callback);
      DoPrepend(handle);
    }

    method DoPrepend(node: Node)
      requires Represents() && M.HasEnds(model) && IsNew(node)
      requires M.Sized(M.LinkFirst(model, node.callback))
      modifies this, nodes.Values, node
      ensures Represents() && nodes == old(nodes)[node.id := node]
      ensures model == M.LinkFirst(old(model), old(node.callback))
    {
      ghost var after := M.LinkFirst(model, node.callback);
      ghost var cells := Adopt(node, model.cells);
      if head != null {
        cells := SetNext(node, head, cells);
        cells := SetPrevious(head, node, cells);
        head := node;
      } else {
        head := node;
        tail := node;
      }
      assert cells == after.cells;
      model := after;
    }

    /**
      An expired handle is null: the callback is then appended.  The handle of a node that was removed
      but is kept alive by a loop is not expired; InsertBeforeUnlinkedIsReachedIff says what comes of it.
     */
    method Insert(callback: M.Callback, before: Node?) returns (handle: Node)
      requires Valid() && Owns(before)
      modifies this, nodes.Values
      ensures Represents() && nodes == old(nodes)[|old(model).cells| := handle]
      ensures before == null || before.id in old(model).linked ==> Valid()
      ensures model == if before == null then M.Append(old(model), callback)
                       else M.LinkBeforeAny(M.NextCounter(old(model)), callback, before.id)
    {
      if before == null {
        handle := Append(callback);
      } else {
        M.NextCounterKeepsValid(model);
        M.NextCounterKeepsLinks(model);
        handle := Allocate(callback);
        InsertBefore(handle, before);
      }
    }

    method InsertBefore(node: Node, before: Node)
      requires Valid() && M.Fresh(model) && IsNew(node) && Owns(before)
      modifies this, nodes.Values, node
      ensures Represents() && nodes == old(nodes)[node.id := node]
      ensures before.id in old(model).linked ==> Valid()
      ensures model == M.LinkBeforeAny(old(model), old(node.callback), before.id)
    {
      hide M.Valid, M.Sized, M.LinkBeforeAny, M.Fresh;
      M.LinkBeforeAssigns(model, node.callback, before.id);
      ghost var after := M.LinkBeforeAny(model, node.callback, before.id);
      ghost var cells := Adopt(node, model.cells);
      cells := DoInsert(node, before, cells);
      model := after;
    }

    method DoInsert(node: Node, before: Node, ghost cells: seq<M.Cell>) returns (ghost after: seq<M.Cell>)
      requires Contains(cells) && Owns(node) && Owns(before) && node != before
      requires cells[before.id].previous != Some(node.id)
      modifies node, before, before.previous, `head
      ensures var previous := cells[before.id].previous;
        var linking := cells[node.id := cells[node.id].(previous := previous, next := Some(before.id))];
        after == M.SetPrevious(M.SetNext(linking,
                                         previous, Some(node.id)), Some(before.id), Some(node.id))
      ensures Contains(after)
      ensures head == if before == old(head) then node else old(head)
    {
      Read(before, cells);
      after := SetPrevious(node, before.previous, cells);
      after := SetNext(node, before, after);
      if before.previous != null {
        after := SetNext(before.previous, node, after);
      }
      after := SetPrevious(before, node, after);
      if before == head {
        head := node;
      }
    }

    /** A node of a new age, not adopted yet. */
    ghost predicate IsNew(node: Node)
      reads this, node
    {
      && node !in nodes.Values && node.id == |model.cells| && node.previous == null && node.next == null
      && node.counter == currentCounter
    }

    /** `doAllocateNode`. */
    method Allocate(callback: M.Callback) returns (node: Node)
      requires Valid()
      modifies this, nodes.Values
      ensures Valid() && nodes == old(nodes)
      ensures model == M.NextCounter(old(model))
      ensures fresh(node) && IsNew(node) && node.callback == callback
    {
      M.NextCounterKeepsValid(model);
      var counter := GetNextCounter();
      model := M.NextCounter(model);
      node := new Node(callback, counter, |model.cells|);
    }

    /**
      An expired handle is null.  The handle of a node that was removed but is kept alive by a loop is
      not: the node is freed once more, and FreeAgainKeepsShapeIff says when that does no harm.
     */
    method Remove(handle: Node?) returns (removed: bool)
      requires Valid() && Owns(handle)
      modifies this, nodes.Values
      ensures Represents() && nodes == old(nodes)
      ensures removed <==> handle != null
      ensures handle == null || handle.id in old(model).linked || M.StillMeet(old(model), handle.id) ==> Valid()
      ensures model == if handle == null then old(model) else M.Free(old(model), handle.id)
    {
      hide M.Valid, M.Sized, M.StillMeet, M.Free, M.FreedCells;
      if handle != null {
        M.FreeAssigns(model, handle.id);
        FreeNode(handle);
      }
      removed := handle != null;
    }

    method FreeNode(node: Node)
      requires Represents() && Owns(node) && M.Sized(M.Free(model, node.id))
      requires var a := M.Free(model, node.id);
        && a.currentCounter == model.currentCounter && a.cells == M.FreedCells(model, node.id)
        && a.head == (if model.head == Some(node.id) then model.cells[node.id].next else model.head)
        && a.tail == (if model.tail == Some(node.id) then model.cells[node.id].previous else model.tail)
      modifies this, nodes.Values
      ensures Represents() && nodes == old(nodes)
      ensures model == M.Free(old(model), node.id)
    {
      hide M.Sized, M.Free, M.FreedCells;
      ghost var after := M.Free(model, node.id);
      Read(node, model.cells);
      ghost var cells := DoFreeNode(node);
      model := after;
    }

    method DoFreeNode(node: Node) returns (ghost after: seq<M.Cell>)
      requires Represents() && Owns(node)
      modifies `head, `tail, node, node.next, node.previous
      ensures after == M.FreedCells(model, node.id) && Contains(after)
      ensures node.next == old(node.next) && node.previous == old(node.previous)
      ensures Owns(head) && IdOf(head) == if model.head == Some(node.id) then model.cells[node.id].next else model.head
      ensures Owns(tail) && IdOf(tail) == if model.tail == Some(node.id) then model.cells[node.id].previous
          else model.tail
    {
      after := model.cells;
      Read(node, after);
      if node.next != null {
        after := SetPrevious(node.next, node.previous, after);
      }
      if node.previous != null {
        after := SetNext(node.previous, node.next, after);
      }
      if head == node {
        head := node.next;
      }
      if tail == node {
        tail := node.previous;
      }
      after := SetCounter(node, M.REMOVED_COUNTER, after);
    }

    method GetNextCounter() returns (result: nat)
      requires Represents() && M.Shape(model)
      modifies `currentCounter, nodes.Values
      ensures Contains(M.NextCounter(model).cells)
      ensures result == currentCounter == M.NextCounter(model).currentCounter
    {
      currentCounter := M.Increment(currentCounter);
      result := currentCounter;
      if result == 0 {
        ResetCounters();
        currentCounter := M.Increment(currentCounter);
        result := currentCounter;
      }
    }

    /** One round of the reset: the node's counter, and on to the next. */
    method ResetOne(node: Node, ghost k: nat, ghost cells: seq<M.Cell>) returns (next: Node?, ghost after: seq<M.Cell>)
      requires Contains(cells) && M.Shape(model) && k < |model.linked| && Owns(node)
      requires IdOf(node) == Some(model.linked[k])
      requires cells == M.ResetCounters(model.cells, model.linked[..k])
      modifies node`counter
      ensures Contains(after) && after == M.ResetCounters(model.cells, model.linked[..k + 1])
      ensures Owns(next) && IdOf(next) == if k + 1 < |model.linked| then Some(model.linked[k + 1]) else None
    {
      M.NextInList(model, k);
      hide M.Shape;
      M.ResetOneMore(model.cells, model.linked, k);
      Read(node, cells);
      next := node.next;
      after := SetCounter(node, 1, cells);
    }

    method ResetCounters()
      requires Contains(model.cells) && M.Shape(model)
      requires Owns(head) && IdOf(head) == model.head
      modifies nodes.Values
      ensures Contains(M.ResetCounters(model.cells, model.linked))
    {
      ghost var cells, k := model.cells, 0;
      var node := head;
      assert cells == M.ResetCounters(model.cells, model.linked[..k]);
      while node != null
        invariant 0 <= k <= |model.linked|
        invariant Owns(node) && IdOf(node) == if k < |model.linked| then Some(model.linked[k]) else None
        invariant cells == M.ResetCounters(model.cells, model.linked[..k]) && Contains(cells)
        decreases |model.linked| - k
      {
        node, cells := ResetOne(node, k, cells);
        k := k + 1;
      }
      assert model.linked[..k] == model.linked;
    }

    /** `cloneFrom` of the copy constructor: every node of the other list gets one of this list. */
    method CloneFrom(other: CallbackList)
      requires Valid() && nodes == map[] && M.IsEmpty(model) && other != this && other.Valid()
      modifies this
      ensures Valid() && fresh(nodes.Values)
      ensures model == M.Cloned(M.Callbacks(old(other.model), old(other.model).linked))
    {
      ghost var callbacks := M.Callbacks(other.model, other.model.linked);
      assert head == null && M.Increment(currentCounter) == 1;
      M.ClonedIsValid(callbacks);
      hide M.Valid, M.Shape, M.ClonedCells, M.Sized, M.IsEmpty, M.Cloned;
      CloneNodes(other, callbacks);
      Become(M.Cloned(callbacks));
    }

    /** The nodes now spell out another model. */
    ghost method Become(l: M.List)
      requires M.Valid(l) && M.Sized(l) && Contains(l.cells)
      requires Owns(head) && IdOf(head) == l.head && Owns(tail) && IdOf(tail) == l.tail
      requires currentCounter == l.currentCounter
      modifies `model
      ensures Valid() && model == l
    {
      model := l;
    }

    /** The body of `cloneFrom`. */
    method CloneNodes(other: CallbackList, ghost callbacks: seq<M.Callback>)
      requires nodes == map[] && head == null && other != this && other.Valid() && M.Increment(currentCounter) == 1
      requires callbacks == M.Callbacks(other.model, other.model.linked)
      modifies `nodes, `head, `tail, `currentCounter
      ensures Contains(M.Cloned(callbacks).cells) && fresh(nodes.Values)
      ensures Owns(tail) && IdOf(tail) == M.Cloned(callbacks).tail && Owns(head)
      ensures IdOf(head) == M.Cloned(callbacks).head
      ensures currentCounter == M.Cloned(callbacks).currentCounter
    {
      currentCounter := M.Increment(currentCounter);
      CloneBegins(other, callbacks);
      hide M.Valid, M.Shape, M.ClonedCells, Cloning;
      tail := CloneLoop(other, other.model, callbacks, other.head, currentCounter);
      ClonedAll(other, other.model, callbacks, tail);
    }

    /** The loop of `cloneFrom`; it ends with the last node. */
    method CloneLoop(other: CallbackList, ghost l: M.List, ghost callbacks: seq<M.Callback>, fromHead: Node?,
        counter: nat)
      returns (node: Node?)
      requires M.Shape(l) && callbacks == M.Callbacks(l, l.linked) && counter == 1 && other != this
      requires nodes == map[] && Cloning(other, l, callbacks, 0, fromHead, null)
      requires (fromHead == null <==> |callbacks| == 0)
      modifies `nodes, `head
      ensures Cloning(other, l, callbacks, |callbacks|, null, node) && fresh(nodes.Values)
    {
      hide M.Shape, M.ClonedCells, Cloning;
      ghost var k := 0;
      var fromNode := fromHead;
      node := null;
      while fromNode != null
        invariant 0 <= k <= |callbacks| && (fromNode == null <==> k == |callbacks|)
        invariant Cloning(other, l, callbacks, k, fromNode, node) && (node != null ==> fresh(node))
        invariant fresh(nodes.Values)
        decreases |callbacks| - k
      {
        fromNode, node := CloneNext(other, l, callbacks, k, fromNode, counter, node);
        k := k + 1;
      }
    }

    /** `k` nodes are copied, and `fromNode` is next. */
    ghost predicate Cloning(other: CallbackList, l: M.List, callbacks: seq<M.Callback>, k: nat, fromNode: Node?,
        node: Node?)
      reads this, nodes.Values, other, other.nodes.Values
    {
      && k <= |callbacks| == |l.linked| && other.Contains(l.cells)
      && other.Owns(fromNode) && IdOf(fromNode) == (if k < |l.linked| then Some(l.linked[k]) else None)
      && Contains(M.ClonedCells(callbacks[..k]))
      && Owns(node) && IdOf(node) == (if k == 0 then None else Some(k - 1))
      && Owns(head) && IdOf(head) == (if k == 0 then None else Some(0))
      && (node != null ==> node !in other.nodes.Values)
    }

    lemma CloneBegins(other: CallbackList, callbacks: seq<M.Callback>)
      requires nodes == map[] && head == null && other != this && other.Valid()
      requires callbacks == M.Callbacks(other.model, other.model.linked)
      ensures M.Shape(other.model) && Cloning(other, other.model, callbacks, 0, other.head, null)
      ensures other.head == null <==> |callbacks| == 0
    {
      hide M.ClonedCells;
      assert callbacks[..0] == [];
    }

    lemma ClonedAll(other: CallbackList, l: M.List, callbacks: seq<M.Callback>, node: Node?)
      requires Cloning(other, l, callbacks, |callbacks|, null, node)
      ensures var c := M.Cloned(callbacks);
        Contains(c.cells) && Owns(node) && IdOf(node) == c.tail && Owns(head) && IdOf(head) == c.head
    {
      hide M.ClonedCells;
      assert callbacks[..|callbacks|] == callbacks;
    }

    method CloneNext(other: CallbackList, ghost l: M.List, ghost callbacks: seq<M.Callback>, ghost k: nat,
                     fromNode: Node, counter: nat, node: Node?)
      returns (next: Node?, nextNode: Node)
      requires M.Shape(l) && callbacks == M.Callbacks(l, l.linked) && k < |callbacks| && counter == 1 && other != this
      requires Cloning(other, l, callbacks, k, fromNode, node)
      modifies `nodes, `head, node
      ensures Cloning(other, l, callbacks, k + 1, next, nextNode) && (next == null <==> k + 1 == |callbacks|)
      ensures fresh(nextNode) && nodes.Values <= old(nodes.Values) + {nextNode}
    {
      M.NextInList(l, k);
      hide M.Shape, M.ClonedCells;
      other.Read(fromNode, l.cells);
      next := fromNode.next;
      assert callbacks[..k + 1] == callbacks[..k] + [fromNode.callback];
      nextNode := CloneNode(fromNode.callback, counter, node, callbacks[..k]);
    }

    /** One round of `cloneFrom`. */
    method CloneNode(callback: M.Callback, counter: nat, node: Node?, ghost callbacks: seq<M.Callback>)
      returns (nextNode: Node)
      requires Contains(M.ClonedCells(callbacks)) && counter == 1
      requires Owns(node) && IdOf(node) == if callbacks == [] then None else Some(|callbacks| - 1)
      modifies `nodes, `head, node
      ensures Contains(M.ClonedCells(callbacks + [callback])) && Owns(nextNode) && IdOf(nextNode) == Some(|callbacks|)
      ensures fresh(nextNode) && nodes == old(nodes)[|callbacks| := nextNode]
      ensures head == if node == null then nextNode else old(head)
    {
      hide M.ClonedCells;
      ghost var cells := M.ClonedCells(callbacks);
      M.ClonedOneMore(callbacks, callback);
      nextNode := new Node(callback, counter, |callbacks|);
      cells := Adopt(nextNode, cells);
      cells := SetPrevious(nextNode, node, cells);
      if node != null {
        cells := SetNext(node, nextNode, cells);
      } else {
        head := nextNode;
      }
    }
  }

  /** The loop of `doForEachIf`, cut before each test and before each load of `next`. */
  class Traversal {
    const list: CallbackList
    var node: Node?
    var counter: nat
    ghost var cursor: R.Cursor

    ghost predicate Follows()
      reads this, list
    {
      IdOf(node) == cursor.node && list.Owns(node) && counter == cursor.counter
    }

    constructor (list: CallbackList)
      requires list.Valid()
      ensures this.list == list && Follows() && cursor == R.Start(list.model)
    {
      this.list := list;
      node := list.head;
      counter := list.currentCounter;
      cursor := R.Start(list.model);
    }

    /** The loop condition and the test of the counter; `f` is due when `invoke`. */
    method Test() returns (running: bool, invoke: bool)
      requires list.Represents() && Follows() && cursor.phase == R.Testing
      modifies this
      ensures Follows() && node == old(node) && cursor == R.TestNode(list.model, old(cursor))
      ensures running <==> cursor.phase != R.Finished
      ensures invoke <==> cursor.phase == R.Invoking
    {
      running, invoke := node != null, false;
      if node != null {
        list.Read(node, list.model.cells);
        invoke := node.counter != M.REMOVED_COUNTER && counter >= node.counter;
      }
      cursor := R.TestNode(list.model, cursor);
    }

    method Next()
      requires list.Represents() && Follows() && node != null
      modifies this
      ensures Follows() && cursor == R.LoadNext(list.model, old(cursor))
    {
      list.Read(node, list.model.cells);
      node := node.next;
      cursor := R.LoadNext(list.model, cursor);
    }
  }

  /**
    `forEachIf` with a function that leaves the list alone: it is applied to the callbacks in
    list order, up to and including the first one for which it answers false.
   */
  method ForEachIf(list: CallbackList, f: M.Callback -> bool) returns (all: bool, visited: seq<M.Callback>)
    requires list.Valid()
    ensures |visited| <= |list.model.linked|
    ensures visited == M.Callbacks(list.model, list.model.linked)[..|visited|]
    ensures forall i :: 0 <= i < |visited| ==> (f(visited[i]) <==> all || i < |visited| - 1)
    ensures all ==> |visited| == |list.model.linked|
  {
    ghost var l := list.model;
    var t := new Traversal(list);
    visited := [];
    StartsAt(l);
    while true
      invariant t.list == list && t.Follows() && At(l, t.cursor, |visited|)
      invariant visited == M.Callbacks(l, l.linked)[..|visited|]
      invariant forall i :: 0 <= i < |visited| ==> f(visited[i])
      decreases |l.linked| - |visited|
    {
      hide M.Valid, M.Shape;
      ghost var k := |visited|;
      var running, callback, goesOn := Round(t, k, f);
      if !running {
        return true, visited;
      }
      assert M.Callbacks(l, l.linked)[..k + 1] == M.Callbacks(l, l.linked)[..k] + [callback];
      visited := visited + [callback];
      if !goesOn {
        return false, visited;
      }
    }
  }

  /** A traversal of an unchanged list that is to test its `k`th node. */
  ghost predicate At(l: M.List, c: R.Cursor, k: nat)
  {
    && k <= |l.linked| && c.phase == R.Testing && c.counter == l.currentCounter
    && c.node == if k < |l.linked| then Some(l.linked[k]) else None
  }

  lemma StartsAt(l: M.List)
    requires M.Valid(l)
    ensures At(l, R.Start(l), 0) && M.Sized(l)
  {
  }

  /** One round: the test succeeds, the callback is the `k`th, and `next` leads on. */
  method Round(t: Traversal, ghost k: nat, f: M.Callback -> bool)
    returns (running: bool, callback: M.Callback, goesOn: bool)
    requires t.list.Valid() && t.Follows() && At(t.list.model, t.cursor, k)
    modifies t
    ensures t.Follows() && (running <==> k < |t.list.model.linked|)
    ensures running ==> callback == M.Callbacks(t.list.model, t.list.model.linked)[k] && goesOn == f(callback)
    ensures running && goesOn ==> At(t.list.model, t.cursor, k + 1)
  {
    var invoke;
    running, invoke := t.Test();
    callback, goesOn := 0, false;
    if running {
      M.NextInList(t.list.model, k);
      M.LinkedNodeIsCurrent(t.list.model, k);
      hide M.Valid, M.Shape;
      t.list.Read(t.node, t.list.model.cells);
      callback := t.node.callback;
      goesOn := f(callback);
      if goesOn {
        t.Next();
      }
    }
  }
}
