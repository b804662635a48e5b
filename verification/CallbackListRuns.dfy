/**
  Traversals of a callback list that is changed while they run.

  A traversal is the loop of `doForEachIf` cut at the points where listeners run or
  where the mutex is taken: it tests a node (and invokes the listener), and later it
  loads `next`.  Any operation on the list and any step of any other traversal may
  come in between, which covers listeners that add, remove and start further
  traversals to any depth.
 */
module CallbackListRuns {
  import opened Common
  import opened CallbackListModel

  datatype Phase = Testing | Invoking | Advancing | Finished | Stopped

  datatype Cursor = Cursor(
    node: Option<NodeId>,
    counter: nat,
    phase: Phase,
    // history
    start: seq<NodeId>,     // the nodes linked when the traversal began
    invoked: seq<NodeId>,   // the nodes whose listener was invoked
    dropped: set<NodeId>,   // the nodes of `start` removed before they were invoked
    limit: nat,             // `ticks` when the traversal began
    base: nat)              // `base` when the traversal began

  datatype World = World(list: List, cursors: seq<Cursor>)

  /** A handle is None when it has expired, so that `lock()` fails. */
  datatype Step =
    | Append(callback: Callback)
    | Prepend(callback: Callback)
    | Insert(callback: Callback, before: Option<NodeId>)
    | Remove(node: Option<NodeId>)
    | Begin
    | Test(c: nat)
    | Next(c: nat)
    | Stop(c: nat)

  // ---------------------------------------------------------------- steps

  function Start(l: List): Cursor {
    Cursor(l.head, l.currentCounter, Testing, l.linked, [], {}, l.ticks, l.base)
  }

  predicate Visible(l: List, c: Cursor, n: NodeId)
    requires n < |l.cells|
  {
    l.cells[n].counter != REMOVED_COUNTER && c.counter >= l.cells[n].counter
  }

  function TestNode(l: List, c: Cursor): Cursor
    requires IsNode(l, c.node)
  {
    if c.node.None? then c.(phase := Finished)
    else if Visible(l, c, c.node.value) then c.(phase := Invoking, invoked := c.invoked + [c.node.value])
    else c.(phase := Advancing)
  }

  function LoadNext(l: List, c: Cursor): Cursor
    requires c.node.Some? && IsNode(l, c.node)
  {
    c.(phase := Testing, node := l.cells[c.node.value].next)
  }

  function Drop(c: Cursor, n: NodeId): Cursor {
    if n in c.start && n !in c.invoked then c.(dropped := c.dropped + {n}) else c
  }

  function DropAll(cs: seq<Cursor>, n: NodeId): (r: seq<Cursor>)
    ensures |r| == |cs| && forall i :: 0 <= i < |cs| ==> r[i] == Drop(cs[i], n)
  {
    seq(|cs|, i requires 0 <= i < |cs| => Drop(cs[i], n))
  }

  /**
    A linked node, or one removed before that still meets its neighbours; see FreeAgainKeepsShapeIff for
    the others.
   */
  ghost predicate Removable(l: List, n: NodeId) {
    n in l.linked || (Sized(l) && n < |l.cells| && StillMeet(l, n))
  }

  ghost predicate Enabled(w: World, s: Step) {
    match s
    case Insert(_, before) => before.Some? ==> before.value in w.list.linked
    case Remove(n) => n.Some? ==> Removable(w.list, n.value)
    case Test(c) => c < |w.cursors| && w.cursors[c].phase == Testing
    case Next(c) => c < |w.cursors| && (w.cursors[c].phase == Invoking || w.cursors[c].phase == Advancing)
    case Stop(c) => c < |w.cursors| && w.cursors[c].phase == Invoking
    case _ => true
  }

  ghost function Apply(w: World, s: Step): World
    requires Valid(w.list) && AllSafe(w) && Enabled(w, s)
  {
    match s
    case Append(callback) => w.(list := CallbackListModel.Append(w.list, callback))
    case Prepend(callback) => w.(list := CallbackListModel.Prepend(w.list, callback))
    case Insert(callback, before) =>
      w.(list := if before.Some? then CallbackListModel.Insert(w.list, callback, before.value)
                 else CallbackListModel.Append(w.list, callback))
    case Remove(n) =>
      if n.None? then w
      else if n.value in w.list.linked then
        World(CallbackListModel.Remove(w.list, n.value), DropAll(w.cursors, n.value))
      else w.(list := FreeAgain(w.list, n.value))
    case Begin => w.(cursors := w.cursors + [Start(w.list)])
    case Test(c) => w.(cursors := w.cursors[c := TestNode(w.list, w.cursors[c])])
    case Next(c) => w.(cursors := w.cursors[c := LoadNext(w.list, w.cursors[c])])
    case Stop(c) => w.(cursors := w.cursors[c := w.cursors[c].(phase := Stopped)])
  }

  // ---------------------------------------------------------------- what holds of a cursor

  function Filter(s: seq<NodeId>, keep: set<NodeId>): seq<NodeId> {
    if s == [] then []
    else Filter(s[..|s| - 1], keep) + if s[|s| - 1] in keep then [s[|s| - 1]] else []
  }

  /** The cursor refers to allocated nodes only, whatever happened to the list. */
  ghost predicate Safe(l: List, c: Cursor) {
    && IsNode(l, c.node)
    && (forall i :: 0 <= i < |c.start| ==> c.start[i] < |l.cells|)
    && (c.phase == Finished ==> c.node.None?)
    && (c.phase == Invoking || c.phase == Advancing || c.phase == Stopped ==> c.node.Some?)
    && c.base <= l.base
    && c.base <= c.limit <= l.ticks && c.counter == c.limit - c.base
    && (c.counter == 0 ==> c.node.None?)
    && (c.phase == Invoking || c.phase == Stopped ==>
          c.invoked != [] && c.node == Some(c.invoked[|c.invoked| - 1]))
  }

  ghost predicate AllSafe(w: World) {
    forall i :: 0 <= i < |w.cursors| ==> Safe(w.list, w.cursors[i])
  }

  /** The cursor has gone past `x`, or has just tested it. */
  ghost predicate Behind(l: List, c: Cursor, x: NodeId)
    requires Sized(l) && Safe(l, c) && x < |l.cells|
  {
    c.node.None? || Before(l, x, c.node.value) || (c.phase != Testing && x == c.node.value)
  }

  ghost function Reached(l: List, c: Cursor): set<NodeId>
    requires Sized(l) && Safe(l, c)
  {
    set x | x in c.start && x !in c.dropped && Behind(l, c, x)
  }

  /** What holds of a cursor as long as the counter has not wrapped since the traversal began. */
  ghost predicate Tracked(l: List, c: Cursor)
    requires Sized(l) && Safe(l, c)
  {
    && (c.counter == 0 ==> c.start == [])
    && (forall i, j :: 0 <= i < j < |c.start| ==> Before(l, c.start[i], c.start[j]))
    && (forall x :: 0 <= x < |l.cells| && Live(l, x) ==> (x in c.start <==> l.stamp[x] <= c.limit))
    && (c.node.Some? && !Live(l, c.node.value) ==> c.limit <= l.removedAt[c.node.value])
    && (forall x :: x in c.dropped ==> x < |l.cells| && !Live(l, x) && x !in c.invoked)
    && (forall x :: x in c.start ==> Live(l, x) || x in c.dropped || x in c.invoked)
    && c.invoked == Filter(c.start, Reached(l, c))
  }

  ghost predicate Good(l: List, c: Cursor)
    requires Sized(l)
  {
    Safe(l, c) && (c.base == l.base ==> Tracked(l, c))
  }

  ghost predicate Inv(w: World) {
    Valid(w.list) && forall i :: 0 <= i < |w.cursors| ==> Good(w.list, w.cursors[i])
  }

  // ---------------------------------------------------------------- filters

  lemma {:induction false} FilterMembers(s: seq<NodeId>, keep: set<NodeId>, x: NodeId)
    ensures x in Filter(s, keep) <==> x in s && x in keep
  {
    if s != [] {
      FilterMembers(s[..|s| - 1], keep, x);
      assert s == s[..|s| - 1] + [s[|s| - 1]];
    }
  }

  /** On a sequence sorted by the order of nodes, keeping one more and greatest node appends it. */
  lemma {:induction false} FilterGrows(l: List, s: seq<NodeId>, keep: set<NodeId>, n: NodeId)
    requires forall i :: 0 <= i < |s| ==> s[i] < |l.rank|
    requires forall i, j :: 0 <= i < j < |s| ==> Before(l, s[i], s[j])
    requires n in s && n !in keep && n < |l.rank|
    requires forall x :: x in s && x in keep ==> Before(l, x, n)
    ensures Filter(s, keep + {n}) == Filter(s, keep) + [n]
  {
    var last := s[|s| - 1];
    var init := s[..|s| - 1];
    assert s == init + [last];
    if last == n {
      assert n !in init;
      FilterIgnores(init, keep, n);
    } else {
      assert Before(l, n, last) by {
        var i :| 0 <= i < |s| && s[i] == n;
      }
      FilterGrows(l, init, keep, n);
    }
  }

  lemma {:induction false} FilterIgnores(s: seq<NodeId>, keep: set<NodeId>, n: NodeId)
    requires n !in s
    ensures Filter(s, keep + {n}) == Filter(s, keep)
  {
    if s != [] {
      assert s[|s| - 1] in s;
      FilterIgnores(s[..|s| - 1], keep, n);
    }
  }

  lemma FilterNothing(s: seq<NodeId>)
    ensures Filter(s, {}) == []
  {
  }

  // ---------------------------------------------------------------- each step keeps the invariant

  /** A live node passes the counter test of a cursor iff it was linked when the traversal began. */
  lemma CounterTellsAge(l: List, c: Cursor, n: NodeId)
    requires Valid(l) && Safe(l, c) && c.base == l.base && Tracked(l, c) && n < |l.cells| && c.node.Some?
    ensures Visible(l, c, n) <==> Live(l, n) && n in c.start
  {
  }

  lemma StartIsGood(l: List)
    requires Valid(l)
    ensures Good(l, Start(l))
  {
    var c := Start(l);
    assert Reached(l, c) == {} by {
      forall x | x in c.start ensures !Behind(l, c, x) {
        var i := IndexOf(l.linked, x);
        assert 0 < i ==> l.rank[l.linked[0]] < l.rank[l.linked[i]];
      }
    }
    FilterNothing(c.start);
  }

  lemma TestIsGood(l: List, c: Cursor)
    requires Valid(l) && Good(l, c) && c.phase == Testing
    ensures Good(l, TestNode(l, c))
  {
    if c.base == l.base {
      if c.node.None? {
        assert Reached(l, c) == Reached(l, TestNode(l, c));
      } else {
        TestIsTracked(l, c, c.node.value);
      }
    }
  }

  lemma TestIsTracked(l: List, c: Cursor, n: NodeId)
    requires Valid(l) && Good(l, c) && c.base == l.base && c.phase == Testing && c.node == Some(n)
    ensures Tracked(l, TestNode(l, c))
  {
    var d := TestNode(l, c);
    CounterTellsAge(l, c, n);
    FilterMembers(c.start, Reached(l, c), n);
    if Visible(l, c, n) {
      assert n !in c.dropped;
      assert Reached(l, d) == Reached(l, c) + {n};
      FilterGrows(l, c.start, Reached(l, c), n);
    } else {
      assert n in c.start ==> n in c.dropped;
      assert Reached(l, d) == Reached(l, c);
    }
  }

  lemma NextIsGood(l: List, c: Cursor)
    requires Valid(l) && Good(l, c) && (c.phase == Invoking || c.phase == Advancing)
    ensures Good(l, LoadNext(l, c))
  {
    if c.base == l.base {
      var d := LoadNext(l, c);
      var n := c.node.value;
      assert StaleChain(l, n);
      assert !Live(l, n) ==> (d.node.Some? && !Live(l, d.node.value) ==> c.limit <= l.removedAt[d.node.value]);
      assert Live(l, n) && d.node.Some? ==> Live(l, d.node.value) by {
        if Live(l, n) { NextOfLinked(l, n); }
      }
      assert Reached(l, d) == Reached(l, c) by {
        forall x | x in c.start && x !in c.dropped ensures Behind(l, d, x) == Behind(l, c, x) {
          NextSkipsNothing(l, c, x);
        }
      }
    }
  }

  lemma NextOfLinked(l: List, n: NodeId)
    requires Valid(l) && n in l.linked
    ensures l.cells[n].next.Some? ==> l.cells[n].next.value in l.linked
  {
    var i := IndexOf(l.linked, n);
    if i + 1 < |l.linked| {
      assert l.cells[l.linked[i]].next == Some(l.linked[i + 1]);
    }
  }

  /** Following `next` overtakes no node that the traversal still has to invoke. */
  lemma NextSkipsNothing(l: List, c: Cursor, x: NodeId)
    requires Valid(l) && Good(l, c) && c.base == l.base && (c.phase == Invoking || c.phase == Advancing)
    requires x in c.start && x !in c.dropped
    ensures Behind(l, LoadNext(l, c), x) == Behind(l, c, x)
  {
    var n := c.node.value;
    assert l.cells[n].next.Some? ==> Before(l, n, l.cells[n].next.value);
    FilterMembers(c.start, Reached(l, c), x);
    assert x in l.linked <==> Live(l, x);
    assert StaleSkip(l, n, x);
    if Live(l, n) && Live(l, x) {
      NothingSkipped(l, IndexOf(l.linked, n), x);
    }
  }

  /** Nothing a cursor depends on changes when only younger nodes are added. */
  ghost predicate Extends(l: List, a: List)
    requires Sized(l)
  {
    && Sized(a) && |l.cells| <= |a.cells| && l.ticks <= a.ticks && l.base <= a.base
    && l.rank <= a.rank && l.stamp <= a.stamp && l.removedAt <= a.removedAt
    && (forall n :: 0 <= n < |l.cells| ==> Live(a, n) == Live(l, n))
    && (forall n :: |l.cells| <= n < |a.cells| ==> l.ticks < a.stamp[n])
  }

  lemma GrowthExtends(l: List, a: List, i: nat, callback: Callback)
    requires Valid(l) && Valid(a) && LinkedAt(NextCounter(l), a, i, callback)
    ensures Extends(l, a)
  {
    NextCounterIsCounted(l);
  }

  lemma ExtensionIsGood(l: List, a: List, c: Cursor)
    requires Sized(l) && Good(l, c) && Extends(l, a)
    ensures Good(a, c)
  {
    if c.base == a.base {
      ExtensionKeepsReached(l, a, c);
      forall x | x in c.start ensures Live(a, x) || x in c.dropped || x in c.invoked {
        assert x < |l.cells|;
      }
      forall x | 0 <= x < |a.cells| && Live(a, x) ensures x in c.start <==> a.stamp[x] <= c.limit {
        if x < |l.cells| { assert Live(l, x); }
      }
    }
  }

  lemma ExtensionKeepsReached(l: List, a: List, c: Cursor)
    requires Sized(l) && Safe(l, c) && Extends(l, a)
    ensures Safe(a, c) && Reached(a, c) == Reached(l, c)
  {
  }

  lemma GrowthIsGood(l: List, a: List, i: nat, callback: Callback, c: Cursor)
    requires Valid(l) && Valid(a) && LinkedAt(NextCounter(l), a, i, callback) && Good(l, c)
    ensures Good(a, c)
  {
    GrowthExtends(l, a, i, callback);
    ExtensionIsGood(l, a, c);
  }

  /** All that a cursor notices of the removal of `n`. */
  ghost predicate Withdraws(l: List, a: List, n: NodeId)
    requires Sized(l)
  {
    && Sized(a) && |a.cells| == |l.cells| && n < |l.cells| && Live(l, n)
    && a.rank == l.rank && a.stamp == l.stamp && a.removedAt == l.removedAt[n := l.ticks]
    && a.ticks == l.ticks && a.base == l.base
    && (forall m :: 0 <= m < |l.cells| ==> Live(a, m) == (Live(l, m) && m != n))
  }

  lemma RemoveWithdraws(l: List, n: NodeId)
    requires Valid(l) && n in l.linked
    ensures Withdraws(l, CallbackListModel.Remove(l, n), n)
  {
    RemoveUnlinks(l, n);
    UnlinkedShape(l, CallbackListModel.Remove(l, n), IndexOf(l.linked, n));
  }

  lemma WithdrawalIsGood(l: List, a: List, n: NodeId, c: Cursor)
    requires Sized(l) && Withdraws(l, a, n) && Good(l, c)
    ensures Good(a, Drop(c, n))
  {
    if c.base == a.base {
      WithdrawalKeepsReached(l, a, n, c);
    }
  }

  lemma WithdrawalKeepsReached(l: List, a: List, n: NodeId, c: Cursor)
    requires Sized(l) && Withdraws(l, a, n) && Safe(l, c) && Tracked(l, c)
    ensures Safe(a, Drop(c, n)) && Reached(a, Drop(c, n)) == Reached(l, c)
  {
    FilterMembers(c.start, Reached(l, c), n);
  }

  lemma StepKeepsInv(w: World, s: Step)
    requires Inv(w) && Enabled(w, s)
    ensures Inv(Apply(w, s))
  {
    var w' := Apply(w, s);
    forall i | 0 <= i < |w'.cursors| ensures Valid(w'.list) && Good(w'.list, w'.cursors[i]) {
      StepIsGood(w, s, i);
    }
    StepIsValid(w, s);
  }

  lemma StepIsValid(w: World, s: Step)
    requires Inv(w) && Enabled(w, s)
    ensures Valid(Apply(w, s).list)
  {
    match s
    case Append(callback) => AppendLinks(w.list, callback);
    case Prepend(callback) => PrependLinks(w.list, callback);
    case Insert(callback, before) =>
      if before.Some? { InsertLinks(w.list, callback, before.value); } else { AppendLinks(w.list, callback); }
    case Remove(n) => if n.Some? { FreeAssigns(w.list, n.value); }
    case _ =>
  }

  lemma AppendIsGood(l: List, callback: Callback, c: Cursor)
    requires Valid(l) && Good(l, c)
    ensures Valid(CallbackListModel.Append(l, callback)) && Good(CallbackListModel.Append(l, callback), c)
  {
    AppendLinks(l, callback);
    GrowthIsGood(l, CallbackListModel.Append(l, callback), |l.linked|, callback, c);
  }

  lemma PrependIsGood(l: List, callback: Callback, c: Cursor)
    requires Valid(l) && Good(l, c)
    ensures Valid(CallbackListModel.Prepend(l, callback)) && Good(CallbackListModel.Prepend(l, callback), c)
  {
    PrependLinks(l, callback);
    GrowthIsGood(l, CallbackListModel.Prepend(l, callback), 0, callback, c);
  }

  lemma InsertIsGood(l: List, callback: Callback, before: NodeId, c: Cursor)
    requires Valid(l) && before in l.linked && Good(l, c)
    ensures Valid(CallbackListModel.Insert(l, callback, before))
    ensures Good(CallbackListModel.Insert(l, callback, before), c)
  {
    InsertLinks(l, callback, before);
    GrowthIsGood(l, CallbackListModel.Insert(l, callback, before), IndexOf(l.linked, before), callback, c);
  }

  lemma RemovalIsGood(l: List, n: NodeId, c: Cursor)
    requires Valid(l) && n in l.linked && Good(l, c)
    ensures Valid(CallbackListModel.Remove(l, n)) && Good(CallbackListModel.Remove(l, n), Drop(c, n))
  {
    RemoveKeepsValid(l, n);
    RemoveWithdraws(l, n);
    WithdrawalIsGood(l, CallbackListModel.Remove(l, n), n, c);
  }

  lemma StopIsGood(l: List, c: Cursor)
    requires Valid(l) && Good(l, c) && c.phase == Invoking
    ensures Good(l, c.(phase := Stopped))
  {
    if c.base == l.base {
      assert Reached(l, c.(phase := Stopped)) == Reached(l, c);
    }
  }

  lemma StepIsGood(w: World, s: Step, i: nat)
    requires Inv(w) && Enabled(w, s) && i < |Apply(w, s).cursors|
    ensures Valid(Apply(w, s).list) && Good(Apply(w, s).list, Apply(w, s).cursors[i])
  {
    StepIsValid(w, s);
    match s
    case Append(callback) => AppendIsGood(w.list, callback, w.cursors[i]);
    case Prepend(callback) => PrependIsGood(w.list, callback, w.cursors[i]);
    case Insert(callback, before) =>
      if before.Some? { InsertIsGood(w.list, callback, before.value, w.cursors[i]); }
      else { AppendIsGood(w.list, callback, w.cursors[i]); }
    case Remove(n) =>
      if n.Some? {
        if n.value in w.list.linked { RemovalIsGood(w.list, n.value, w.cursors[i]); }
        else { FreeAgainIsNothingIff(w.list, n.value); }
      }
    case Begin => if i == |w.cursors| { StartIsGood(w.list); }
    case Test(c) => if i == c { TestIsGood(w.list, w.cursors[c]); }
    case Next(c) => if i == c { NextIsGood(w.list, w.cursors[c]); }
    case Stop(c) => if i == c { StopIsGood(w.list, w.cursors[c]); }
  }

  // ---------------------------------------------------------------- runs

  predicate IsInitial(w: World) {
    IsEmpty(w.list) && w.cursors == []
  }

  lemma InitialInv(w: World)
    requires IsInitial(w)
    ensures Inv(w)
  {
    EmptyIsValid(w.list);
  }

  /** `s` can be run from `w`, and every step finds its precondition. */
  ghost predicate Runs(w: World, s: seq<Step>)
    requires Inv(w)
    decreases |s|
  {
    s == [] || (Enabled(w, s[0]) && (StepKeepsInv(w, s[0]); Runs(Apply(w, s[0]), s[1..])))
  }

  ghost function Run(w: World, s: seq<Step>): (r: World)
    requires Inv(w) && Runs(w, s)
    ensures Inv(r)
    decreases |s|
  {
    if s == [] then w else
      StepKeepsInv(w, s[0]);
      Run(Apply(w, s[0]), s[1..])
  }

  /** The order in which nodes were delivered, with the nodes dropped from the start left out. */
  function Survivors(s: seq<NodeId>, dropped: set<NodeId>): seq<NodeId> {
    if s == [] then []
    else Survivors(s[..|s| - 1], dropped) + if s[|s| - 1] !in dropped then [s[|s| - 1]] else []
  }

  lemma {:induction false} FilterIsSurvivors(s: seq<NodeId>, keep: set<NodeId>, dropped: set<NodeId>)
    requires forall x :: x in s ==> (x in keep <==> x !in dropped)
    ensures Filter(s, keep) == Survivors(s, dropped)
  {
    if s != [] {
      var last := s[|s| - 1];
      assert last in s && forall x :: x in s[..|s| - 1] ==> x in s;
      FilterIsSurvivors(s[..|s| - 1], keep, dropped);
    }
  }

  /**
    Snapshot iteration: in every run, a traversal that has come to the end without the
    counter wrapping meanwhile has invoked, once each and in list order, exactly the nodes
    linked at its start that were not removed before their turn.
   */
  lemma SnapshotIteration(w: World, s: seq<Step>, c: nat)
    requires IsInitial(w)
    ensures Inv(w)
    ensures Runs(w, s) && c < |Run(w, s).cursors| ==>
      var l, t := Run(w, s).list, Run(w, s).cursors[c];
      t.phase == Finished && t.base == l.base ==> t.invoked == Survivors(t.start, t.dropped)
  {
    InitialInv(w);
    if Runs(w, s) && c < |Run(w, s).cursors| {
      var l, t := Run(w, s).list, Run(w, s).cursors[c];
      assert Good(l, t);
      if t.phase == Finished && t.base == l.base {
        FilterIsSurvivors(t.start, Reached(l, t), t.dropped);
      }
    }
  }

  lemma {:induction false} FilterOfPrefix(s: seq<NodeId>, keep: set<NodeId>, k: nat)
    requires k <= |s| && forall i :: k <= i < |s| ==> s[i] !in keep
    ensures Filter(s, keep) == Filter(s[..k], keep)
    decreases |s|
  {
    if k == |s| {
      assert s[..k] == s;
    } else {
      FilterOfPrefix(s[..|s| - 1], keep, k);
      assert s[..|s| - 1][..k] == s[..k];
    }
  }

  /** How many nodes of the start the cursor has gone past. */
  ghost predicate HasPassed(l: List, c: Cursor, k: nat)
    requires Sized(l) && Safe(l, c)
  {
    k <= |c.start| && forall i :: 0 <= i < |c.start| ==> (Behind(l, c, c.start[i]) <==> i < k)
  }

  /** The nodes behind a cursor come first in its start, which is in the order of nodes. */
  lemma {:induction false} PassedFrom(l: List, c: Cursor, n: nat) returns (k: nat)
    requires Sized(l) && Safe(l, c) && n <= |c.start|
    requires forall i, j :: 0 <= i < j < |c.start| ==> Before(l, c.start[i], c.start[j])
    requires forall i :: n <= i < |c.start| ==> !Behind(l, c, c.start[i])
    ensures HasPassed(l, c, k)
    decreases n
  {
    if n == 0 {
      k := 0;
    } else if Behind(l, c, c.start[n - 1]) {
      k := n;
    } else {
      k := PassedFrom(l, c, n - 1);
    }
  }

  /** What holds of a traversal at every moment, if the counter has not wrapped since it began. */
  ghost predicate SoFar(l: List, t: Cursor, k: nat)
    requires Sized(l) && Safe(l, t)
  {
    && HasPassed(l, t, k)
    && t.invoked == Survivors(t.start[..k], t.dropped)
    && (t.phase == Finished ==> k == |t.start|)
    && (t.phase == Invoking || t.phase == Stopped
        ==> 0 < k && t.node == Some(t.start[k - 1]) && t.start[k - 1] in t.invoked)
  }

  lemma TrackedSoFar(l: List, t: Cursor) returns (k: nat)
    requires Valid(l) && Safe(l, t) && Tracked(l, t)
    ensures SoFar(l, t, k)
  {
    hide Mirrors, Sorted, Counted, Forward, StaleLinks;
    k := PassedFrom(l, t, |t.start|);
    FilterOfPrefix(t.start, Reached(l, t), k);
    assert forall i :: 0 <= i < k ==> t.start[..k][i] == t.start[i];
    FilterIsSurvivors(t.start[..k], Reached(l, t), t.dropped);
    if t.phase == Invoking || t.phase == Stopped {
      StoppedAt(l, t, k);
    }
  }

  lemma StoppedAt(l: List, t: Cursor, k: nat)
    requires Valid(l) && Safe(l, t) && Tracked(l, t) && HasPassed(l, t, k)
    requires t.phase == Invoking || t.phase == Stopped
    ensures 0 < k && t.node == Some(t.start[k - 1]) && t.start[k - 1] in t.invoked
  {
    hide Mirrors, Sorted, Counted, Forward, StaleLinks;
    var n := t.node.value;
    FilterMembers(t.start, Reached(l, t), n);
    var i := IndexOf(t.start, n);
    assert Behind(l, t, t.start[i]);
    if i + 1 < |t.start| {
      assert Before(l, n, t.start[i + 1]) && !Behind(l, t, t.start[i + 1]);
    }
  }

  /**
    At every moment of every run, a traversal without a wrap has gone past some first part of the nodes
    linked at its start, and has invoked, once each and in order, exactly those of them that were not
    removed before their turn.  A traversal that a listener stopped has invoked the node it stopped at
    last, and no other after it.
   */
  lemma SnapshotSoFar(w: World, s: seq<Step>, c: nat) returns (k: nat)
    requires IsInitial(w)
    ensures Inv(w)
    ensures Runs(w, s) && c < |Run(w, s).cursors| ==>
      var l, t := Run(w, s).list, Run(w, s).cursors[c];
      Sized(l) && Safe(l, t) && (t.base == l.base ==> SoFar(l, t, k))
  {
    hide SoFar, Tracked;
    InitialInv(w);
    k := 0;
    if Runs(w, s) && c < |Run(w, s).cursors| {
      var l, t := Run(w, s).list, Run(w, s).cursors[c];
      assert Good(l, t);
      if t.base == l.base {
        k := TrackedSoFar(l, t);
      }
    }
  }

  // ---------------------------------------------------------------- the counter, and termination

  /**
    In every reachable world, wraps during the traversal included, a live node passes the counter
    test of a traversal if and only if it was added at most `c.counter` counters after the last wrap.
   */
  lemma VisibleIffWithinCounter(l: List, c: Cursor, x: NodeId)
    requires Valid(l) && Good(l, c) && c.node.Some? && x < |l.cells| && Live(l, x)
    ensures Visible(l, c, x) <==> l.stamp[x] <= l.base + c.counter
  {
  }

  /**
    So a node added during the traversal passes it if and only if the counter has wrapped since the
    traversal began, and came no further before the node was added than it had come for the traversal.
   */
  lemma LateNodeIsVisibleIff(l: List, c: Cursor, x: NodeId)
    requires Valid(l) && Good(l, c) && c.node.Some? && x < |l.cells| && Live(l, x) && c.limit < l.stamp[x]
    ensures Visible(l, c, x) <==> c.base < l.base && l.stamp[x] <= l.base + c.counter
  {
  }

  /** At the moment it is added, in a traversal without a wrap so far: exactly if adding it wrapped the counter. */
  lemma NewNodeIsVisibleIffWrapped(l: List, a: List, i: nat, callback: Callback, c: Cursor)
    requires Valid(l) && Good(l, c) && c.base == l.base && c.node.Some?
    requires LinkedAt(NextCounter(l), a, i, callback)
    ensures Visible(a, c, |l.cells|) <==> l.currentCounter == COUNTER_RANGE - 1
  {
  }

  // A run in which that happens: one node, 2^32 - 2 additions and removals of another, a traversal, one more addition.

  lemma RunsNext(w: World, step: Step, s: seq<Step>)
    requires Inv(w) && Enabled(w, step)
    ensures Inv(Apply(w, step))
    ensures Runs(w, [step] + s) <==> Runs(Apply(w, step), s)
    ensures Runs(w, [step] + s) ==> Run(w, [step] + s) == Run(Apply(w, step), s)
  {
    StepKeepsInv(w, step);
    assert ([step] + s)[0] == step && ([step] + s)[1..] == s;
  }

  /** One linked node, the counter at `k`, no wrap yet. */
  ghost predicate Quiet(l: List, k: nat) {
    Valid(l) && l.linked == [0] && l.currentCounter == k && l.base == 0 && l.ticks == k
  }

  lemma FirstIsQuiet(l: List)
    requires IsEmpty(l)
    ensures Valid(l) && Quiet(CallbackListModel.Append(l, 0), 1)
  {
    EmptyIsValid(l);
    AppendLinks(l, 0);
  }

  lemma AppendedAndRemoved(l: List, k: nat)
    requires Quiet(l, k) && k + 1 < COUNTER_RANGE
    ensures var a := CallbackListModel.Append(l, 0);
      Valid(a) && |l.cells| in a.linked && Quiet(CallbackListModel.Remove(a, |l.cells|), k + 1)
  {
    AppendLinks(l, 0);
    var a, id := CallbackListModel.Append(l, 0), |l.cells|;
    assert LinkedAt(NextCounter(l), a, 1, 0) && a.linked == [0, id];
    assert a.linked[1] == id && 0 < id;
    RemoveKeepsValid(a, id);
    RemoveUnlinks(a, id);
    assert IndexOf(a.linked, id) == 1;
  }

  lemma {:induction false} Churn(w: World, k: nat, n: nat) returns (s: seq<Step>)
    requires Inv(w) && w.cursors == [] && Quiet(w.list, k) && k + n < COUNTER_RANGE
    ensures Runs(w, s) && Run(w, s).cursors == [] && Quiet(Run(w, s).list, k + n)
    decreases n
  {
    hide Valid;
    if n == 0 {
      s := [];
    } else {
      var id := |w.list.cells|;
      AppendedAndRemoved(w.list, k);
      StepKeepsInv(w, Append(0));
      var v := Apply(w, Append(0));
      StepKeepsInv(v, Remove(Some(id)));
      var u := Apply(v, Remove(Some(id)));
      assert DropAll([], id) == [];
      s := Churn(u, k + 1, n - 1);
      RunsNext(v, Remove(Some(id)), s);
      RunsNext(w, Append(0), [Remove(Some(id))] + s);
      s := [Append(0)] + ([Remove(Some(id))] + s);
    }
  }

  /**
    The counter is about to wrap: a traversal invokes the one node, a node is added, and the traversal
    invokes it too.
   */
  lemma WrapIsVisited(l: List)
    requires Quiet(l, COUNTER_RANGE - 1)
    ensures var c, a := TestNode(l, Start(l)), CallbackListModel.Append(l, 1);
      && c.phase == Invoking && c.start == c.invoked == [0] && c.node == Some(0)
      && Valid(a) && |a.cells| == |l.cells| + 1
      && LoadNext(a, c).node == Some(|l.cells|) && |l.cells| > 0
      && TestNode(a, LoadNext(a, c)).invoked == [0, |l.cells|]
  {
    var c, a, id := TestNode(l, Start(l)), CallbackListModel.Append(l, 1), |l.cells|;
    assert c.phase == Invoking && c.start == c.invoked == [0] && c.node == Some(0) by {
      assert l.linked[0] == 0 && Live(l, 0);
      assert [] + [0] == [0];
    }
    WrappingAppend(l);
    hide Valid, Quiet;
    assert [0] + [id] == [0, id];
  }

  lemma WrappingAppend(l: List)
    requires Quiet(l, COUNTER_RANGE - 1)
    ensures var a, id := CallbackListModel.Append(l, 1), |l.cells|;
      && Valid(a) && |a.cells| == id + 1 && id > 0
      && a.cells[0].next == Some(id) && a.cells[id].counter == 1 && l.currentCounter == COUNTER_RANGE - 1
  {
    AppendLinks(l, 1);
    var b := NextCounter(l);
    assert b.linked == [0] && b.linked[0] == 0 && b.currentCounter == 1;
    assert LinkedAt(b, CallbackListModel.Append(l, 1), 1, 1);
  }

  lemma OneTest(w: World, c: Cursor)
    requires Inv(w) && w.cursors == [c] && c.phase == Testing
    ensures Enabled(w, Test(0)) && Apply(w, Test(0)) == World(w.list, [TestNode(w.list, c)]) && Inv(Apply(w, Test(0)))
  {
    hide Valid, Good, TestNode;
    StepKeepsInv(w, Test(0));
  }

  lemma OneNext(w: World, c: Cursor)
    requires Inv(w) && w.cursors == [c] && c.phase == Invoking
    ensures Enabled(w, Next(0)) && Apply(w, Next(0)) == World(w.list, [LoadNext(w.list, c)]) && Inv(Apply(w, Next(0)))
  {
    hide Valid, Good, LoadNext;
    StepKeepsInv(w, Next(0));
  }

  lemma OneBegin(w: World)
    requires Inv(w) && w.cursors == []
    ensures Enabled(w, Begin) && Apply(w, Begin) == World(w.list, [Start(w.list)]) && Inv(Apply(w, Begin))
  {
    hide Valid, Good, Start;
    StepKeepsInv(w, Begin);
  }

  lemma OneAppend(w: World, callback: Callback)
    requires Inv(w)
    ensures Enabled(w, Append(callback)) && Inv(Apply(w, Append(callback)))
    ensures Apply(w, Append(callback)) == World(CallbackListModel.Append(w.list, callback), w.cursors)
  {
    hide Valid, Good;
    StepKeepsInv(w, Append(callback));
  }

  lemma VisitAfterWrap(w: World) returns (s: seq<Step>)
    requires Inv(w) && w.cursors == [] && Quiet(w.list, COUNTER_RANGE - 1)
    ensures Runs(w, s) && |Run(w, s).cursors| == 1
    ensures var t := Run(w, s).cursors[0]; t.start == [0] && t.invoked == [0, |w.list.cells|] && |w.list.cells| != 0
  {
    var l := w.list;
    WrapIsVisited(l);
    StartsTesting(l);
    OneBegin(w);
    var w1 := Apply(w, Begin);
    OneTest(w1, Start(l));
    var w2, c := Apply(w1, Test(0)), TestNode(l, Start(l));
    OneAppend(w2, 1);
    var w3, a := Apply(w2, Append(1)), CallbackListModel.Append(l, 1);
    OneNext(w3, c);
    LoadStartsTesting(a, c);
    var w4 := Apply(w3, Next(0));
    OneTest(w4, LoadNext(a, c));
    TestKeepsStart(a, LoadNext(a, c));
    var w5 := Apply(w4, Test(0));
    hide Inv, Apply, Enabled, Start, TestNode, LoadNext, Quiet;
    RunsNothing(w5);
    RunsNext(w4, Test(0), []);
    RunsNext(w3, Next(0), [Test(0)] + []);
    RunsNext(w2, Append(1), [Next(0)] + ([Test(0)] + []));
    RunsNext(w1, Test(0), [Append(1)] + ([Next(0)] + ([Test(0)] + [])));
    RunsNext(w, Begin, [Test(0)] + ([Append(1)] + ([Next(0)] + ([Test(0)] + []))));
    s := [Begin] + ([Test(0)] + ([Append(1)] + ([Next(0)] + ([Test(0)] + []))));
  }

  lemma InvIsSafe(w: World)
    requires Inv(w)
    ensures Valid(w.list) && AllSafe(w)
  {
  }

  lemma RunsNothing(w: World)
    requires Inv(w)
    ensures Runs(w, []) && Run(w, []) == w
  {
  }

  lemma StartsTesting(l: List)
    ensures Start(l).phase == Testing
  {
  }

  lemma LoadStartsTesting(l: List, c: Cursor)
    requires c.node.Some? && IsNode(l, c.node)
    ensures LoadNext(l, c).phase == Testing && LoadNext(l, c).start == c.start
  {
  }

  lemma TestKeepsStart(l: List, c: Cursor)
    requires IsNode(l, c.node)
    ensures TestNode(l, c).start == c.start
  {
  }

  /** The guarantee does fail: a run from the empty list in which a traversal invokes a node added after it began. */
  lemma WrapShowsLateNode(w: World) returns (s: seq<Step>, x: NodeId)
    requires IsInitial(w)
    ensures Inv(w) && Runs(w, s) && |Run(w, s).cursors| == 1
    ensures var t := Run(w, s).cursors[0]; x !in t.start && x in t.invoked
  {
    InitialInv(w);
    FirstIsQuiet(w.list);
    StepKeepsInv(w, Append(0));
    var v := Apply(w, Append(0));
    var middle := Churn(v, 1, COUNTER_RANGE - 2);
    var u := Run(v, middle);
    var end := VisitAfterWrap(u);
    RunsInTurn(v, middle, end);
    RunsNext(w, Append(0), middle + end);
    s, x := [Append(0)] + (middle + end), |u.list.cells|;
    assert Run(w, s).cursors[0].invoked[1] == x;
  }

  lemma {:induction false} RunsInTurn(w: World, first: seq<Step>, second: seq<Step>)
    requires Inv(w) && Runs(w, first) && Runs(Run(w, first), second)
    ensures Runs(w, first + second) && Run(w, first + second) == Run(Run(w, first), second)
    decreases |first|
  {
    hide Inv, Enabled, Apply, Valid, AllSafe;
    if first == [] {
      assert first + second == second;
    } else {
      InvIsSafe(w);
      StepKeepsInv(w, first[0]);
      RunsInTurn(Apply(w, first[0]), first[1..], second);
      RunsNext(w, first[0], first[1..] + second);
      assert first + second == [first[0]] + (first[1..] + second);
    }
  }

  // ---------------------------------------------------------------- a node inserted before a removed one

  /**
    A traversal that starts after a node was inserted before a removed one would invoke it, and comes
    past it if and only if the removed one names a linked node before it.
   */
  lemma InsertedBeforeRemovedIsInvokedIff(l: List, callback: Callback, before: NodeId)
    requires Valid(l) && before < |l.cells| && before !in l.linked
    ensures Sized(NextCounter(l)) && |NextCounter(l).cells| == |l.cells|
    ensures var a := LinkBeforeUnlinked(NextCounter(l), callback, before);
      && |a.cells| == |l.cells| + 1 && Visible(a, Start(a), |l.cells|)
      && (Reaches(a, |l.cells|) <==> IsLive(l, l.cells[before].previous))
  {
    NextCounterKeepsValid(l);
    NextCounterKeepsLinks(l);
    NextCounterIsCounted(l);
    hide Mirrors, Sorted, Forward, StaleLinks, NextCounter, Reaches;
    InsertBeforeUnlinkedIsReachedIff(NextCounter(l), callback, before);
  }

  // ---------------------------------------------------------------- walks

  ghost function After(l: List, n: Option<NodeId>): set<NodeId>
    requires Sized(l) && IsNode(l, n)
  {
    if n.None? then {} else set x | 0 <= x < |l.cells| && (x == n.value || Before(l, n.value, x))
  }

  /** `next`, stale or not, strictly shrinks what may still be visited: a walk ends. */
  lemma NextShrinksAfter(l: List, n: NodeId)
    requires Valid(l) && n < |l.cells|
    ensures After(l, l.cells[n].next) < After(l, Some(n))
  {
    var next := l.cells[n].next;
    if next.Some? {
      assert Before(l, n, next.value);
    }
    assert n in After(l, Some(n)) && n !in After(l, next);
  }

  /** At every moment a listener may change the list at any place, and start, continue or stop a traversal. */
  lemma AlwaysAllowed(w: World, callback: Callback, n: NodeId, c: nat)
    requires Inv(w)
    ensures Enabled(w, Append(callback)) && Enabled(w, Prepend(callback)) && Enabled(w, Begin)
    ensures Enabled(w, Insert(callback, None)) && Enabled(w, Remove(None))
    ensures n in w.list.linked ==> Enabled(w, Insert(callback, Some(n))) && Enabled(w, Remove(Some(n)))
    ensures c < |w.cursors| && w.cursors[c].phase != Finished && w.cursors[c].phase != Stopped ==>
      && (Enabled(w, Test(c)) || Enabled(w, Next(c)))
      && (w.cursors[c].phase == Invoking ==> Enabled(w, Stop(c)))
  {
  }

  /** What the test of a node leads to. */
  lemma TestDecides(l: List, c: Cursor)
    requires IsNode(l, c.node)
    ensures var d := TestNode(l, c);
      && (d.phase == Finished <==> c.node.None?)
      && (d.phase == Invoking <==> c.node.Some? && Visible(l, c, c.node.value))
      && (d.phase == Advancing <==> c.node.Some? && !Visible(l, c, c.node.value))
      && d.node == c.node
  {
  }

  /**
    A traversal comes to its end whenever it is left alone with the list, wherever it stands and
    whatever was removed.
   */
  lemma {:induction false} TraversalFinishes(w: World, c: nat) returns (s: seq<Step>)
    requires Inv(w) && c < |w.cursors| && w.cursors[c].phase == Testing
    ensures Runs(w, s) && c < |Run(w, s).cursors| && Run(w, s).cursors[c].phase == Finished
    ensures Run(w, s).list == w.list
    decreases After(w.list, w.cursors[c].node)
  {
    hide Valid, Good, TestNode, LoadNext, After;
    var l, t := w.list, w.cursors[c];
    NodeOfCursor(w, c);
    StepKeepsInv(w, Test(c));
    TestDecides(l, t);
    var v := Apply(w, Test(c));
    if t.node.None? {
      RunsNothing(v);
      RunsNext(w, Test(c), []);
      s := [Test(c)] + [];
    } else {
      NodeOfCursor(v, c);
      StepKeepsInv(v, Next(c));
      var u := Apply(v, Next(c));
      LoadStartsTesting(l, v.cursors[c]);
      LoadsNext(l, v.cursors[c]);
      NextShrinksAfter(l, t.node.value);
      var rest := TraversalFinishes(u, c);
      RunsNext(v, Next(c), rest);
      RunsNext(w, Test(c), [Next(c)] + rest);
      s := [Test(c)] + ([Next(c)] + rest);
    }
  }

  lemma NodeOfCursor(w: World, c: nat)
    requires Inv(w) && c < |w.cursors|
    ensures Valid(w.list) && Sized(w.list) && AllSafe(w) && IsNode(w.list, w.cursors[c].node)
  {
  }

  lemma LoadsNext(l: List, c: Cursor)
    requires c.node.Some? && IsNode(l, c.node)
    ensures LoadNext(l, c).node == l.cells[c.node.value].next
  {
  }

  /** The nodes a traversal passes from `n` on while the list is left alone. */
  ghost function Walk(l: List, n: Option<NodeId>): seq<NodeId>
    requires Valid(l) && IsNode(l, n)
    decreases After(l, n)
  {
    if n.None? then [] else
      NextShrinksAfter(l, n.value);
      [n.value] + Walk(l, l.cells[n.value].next)
  }

  /** From a linked node the walk is the rest of the list. */
  lemma {:induction false} WalkOfLinked(l: List, i: nat)
    requires Valid(l) && i <= |l.linked|
    ensures i < |l.linked| ==> Walk(l, Some(l.linked[i])) == l.linked[i..]
    decreases |l.linked| - i
  {
    if i < |l.linked| {
      WalkOfLinked(l, i + 1);
      assert l.linked[i..] == [l.linked[i]] + l.linked[i + 1..];
      assert i + 1 < |l.linked| ==> l.cells[l.linked[i]].next == Some(l.linked[i + 1]);
    }
  }

  /** From any node, removed or not, the walk still meets every linked node that is older than the removal. */
  lemma {:induction false} WalkMissesNothing(l: List, n: NodeId, x: NodeId)
    requires Valid(l) && n < |l.cells| && x in l.linked && (x == n || Before(l, n, x))
    requires !Live(l, n) ==> l.stamp[x] <= l.removedAt[n]
    ensures x in Walk(l, Some(n))
    decreases After(l, Some(n))
  {
    NextShrinksAfter(l, n);
    var next := l.cells[n].next;
    assert StaleSkip(l, n, x) && StaleChain(l, n);
    if x != n {
      if Live(l, n) {
        NothingSkipped(l, IndexOf(l.linked, n), x);
        NextOfLinked(l, n);
      }
      WalkMissesNothing(l, next.value, x);
    }
  }
}
