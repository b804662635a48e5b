/**
  The handlers of the filterkeydom example as objects: the document with its stack
  (`GenericDocument` of document.h) and the filter in front of it (`FilterKeyHandler` of
  filterkeydom.cpp), updated in place event by event.
 */
module FilterKeyHandlers {
  import opened Common
  import opened JsonDom
  import F = FilterKey

  class GenericDocument {
    var stack: seq<Value>
    var root: Value

    constructor ()
      ensures stack == [] && root == Null
    {
      stack := [];
      root := Null;
    }

    /** The event methods that push one value: Null, Bool, Int, ... , String, Key. */
    method Push(e: Event) returns (ok: bool)
      requires Representable(e)
      requires !e.StartObject? && !e.EndObject? && !e.StartArray? && !e.EndArray?
      modifies `stack
      ensures ok && Handle(old(stack), e) == Some(stack)
    {
      var value := match e
        case NullEvent => Null
        case BoolEvent(b) => Bool(b)
        case IntEvent(i) => FromInt(i)
        case UintEvent(u) => FromUint(u)
        case Int64Event(i) => FromInt64(i)
        case Uint64Event(u) => FromUint64(u)
        case DoubleEvent(bits) => FromDouble(bits)
        case RawNumberEvent(str, copy) => FromString(str, copy)
        case StringEvent(str, copy) => FromString(str, copy)
        case Key(str, copy) => FromString(str, copy)
        case _ => Null;
      stack := stack + [value];
      ok := true;
    }

    method StartObject() returns (ok: bool)
      modifies `stack
      ensures ok && Handle(old(stack), Event.StartObject) == Some(stack)
    {
      stack := stack + [Object([])];
      ok := true;
    }

    method EndObject(memberCount: nat) returns (ok: bool)
      requires memberCount < TWO_32 && 2 * memberCount < |stack|
      modifies `stack
      ensures ok && Handle(old(stack), Event.EndObject(memberCount)) == Some(stack)
    {
      var members := Pop(2 * memberCount);
      assert stack[..|stack| - 1] == old(stack)[..|old(stack)| - 2 * memberCount - 1];
      SetTop(Object(Pairs(members)));
      ok := true;
    }

    method StartArray() returns (ok: bool)
      modifies `stack
      ensures ok && Handle(old(stack), Event.StartArray) == Some(stack)
    {
      stack := stack + [Array([])];
      ok := true;
    }

    method EndArray(elementCount: nat) returns (ok: bool)
      requires elementCount < TWO_32 && elementCount < |stack|
      modifies `stack
      ensures ok && Handle(old(stack), Event.EndArray(elementCount)) == Some(stack)
    {
      var elements := Pop(elementCount);
      assert stack[..|stack| - 1] == old(stack)[..|old(stack)| - elementCount - 1];
      SetTop(Array(elements));
      ok := true;
    }

    method Pop(count: nat) returns (values: seq<Value>)
      requires count <= |stack|
      modifies `stack
      ensures stack == old(stack)[..|old(stack)| - count] && values == old(stack)[|old(stack)| - count..]
    {
      values := stack[|stack| - count..];
      stack := stack[..|stack| - count];
    }

    method Dispatch(e: Event) returns (ok: bool)
      requires Representable(e) && Handle(stack, e).Some?
      modifies `stack
      ensures ok && Handle(old(stack), e) == Some(stack)
    {
      match e
      case StartObject => ok := StartObject();
      case EndObject(n) => ok := EndObject(n);
      case StartArray => ok := StartArray();
      case EndArray(n) => ok := EndArray(n);
      case _ => ok := Push(e);
    }

    /** `v.Accept(*this)`. */
    method Feed(events: seq<Event>) returns (ok: bool)
      requires AllRepresentable(events) && HandleAll(stack, events).Some?
      modifies `stack
      ensures ok && HandleAll(old(stack), events) == Some(stack)
    {
      var i := 0;
      ok := true;
      while i < |events| && ok
        invariant 0 <= i <= |events| && ok
        invariant HandleAll(stack, events[i..]) == HandleAll(old(stack), events)
      {
        assert events[i..][0] == events[i] && events[i..][1..] == events[i + 1..];
        ok := Dispatch(events[i]);
        i := i + 1;
      }
    }

    method SetTop(value: Value)
      requires stack != []
      modifies `stack
      ensures stack == old(stack)[..|old(stack)| - 1] + [value]
    {
      stack := stack[|stack| - 1 := value];
    }
  }

  class FilterKeyHandler {
    const outputHandler: GenericDocument
    const keyString: Chars
    var filterValueDepth: nat
    var filteredKeyCount: seq<nat>

    function State(): F.Filter
      reads this, outputHandler
    {
      F.Filter(filterValueDepth, filteredKeyCount, outputHandler.stack)
    }

    /** No assertion of the stacks fails when `e` is handled next. */
    predicate Ready(e: Event)
      requires Representable(e)
      reads this, outputHandler
    {
      F.Step(keyString, State(), e).Some?
    }

    constructor (outputHandler: GenericDocument, keyString: Chars)
      ensures this.outputHandler == outputHandler && this.keyString == keyString
      ensures State() == F.Filter(0, [], outputHandler.stack)
    {
      this.outputHandler, this.keyString := outputHandler, keyString;
      filterValueDepth, filteredKeyCount := 0, [];
    }

    /** Null, Bool, the number events and String. */
    method Scalar(e: Event) returns (ok: bool)
      requires Representable(e) && Ready(e)
      requires !e.StartObject? && !e.EndObject? && !e.StartArray? && !e.EndArray? && !e.Key?
      modifies this, outputHandler
      ensures ok && F.Step(keyString, old(State()), e) == Some(State())
    {
      if filterValueDepth > 0 {
        ok := EndValue();
      } else {
        ok := outputHandler.Push(e);
        if ok { ok := EndValue(); }
      }
    }

    method StartObject() returns (ok: bool)
      modifies this, outputHandler
      ensures ok && F.Step(keyString, old(State()), Event.StartObject) == Some(State())
    {
      if filterValueDepth > 0 {
        filterValueDepth := F.Successor(filterValueDepth);
        ok := true;
      } else {
        filteredKeyCount := filteredKeyCount + [0];
        ok := outputHandler.StartObject();
      }
    }

    method Key(str: Chars, copy: bool) returns (ok: bool)
      requires Ready(Event.Key(str, copy))
      modifies this, outputHandler
      ensures ok && F.Step(keyString, old(State()), Event.Key(str, copy)) == Some(State())
    {
      if filterValueDepth > 0 {
        ok := true;
      } else if str == keyString {
        filterValueDepth := 1;
        ok := true;
      } else {
        var top := |filteredKeyCount| - 1;
        filteredKeyCount := filteredKeyCount[top := F.Successor(filteredKeyCount[top])];
        ok := outputHandler.Push(Event.Key(str, copy));
      }
    }

    method EndObject(memberCount: nat) returns (ok: bool)
      requires memberCount < TWO_32 && Ready(Event.EndObject(memberCount))
      modifies this, outputHandler
      ensures ok && F.Step(keyString, old(State()), Event.EndObject(memberCount)) == Some(State())
    {
      if filterValueDepth > 0 {
        filterValueDepth := F.Predecessor(filterValueDepth);
        ok := EndValue();
      } else {
        var count := filteredKeyCount[|filteredKeyCount| - 1];
        filteredKeyCount := filteredKeyCount[..|filteredKeyCount| - 1];
        ok := outputHandler.EndObject(count);
        if ok { ok := EndValue(); }
      }
    }

    method StartArray() returns (ok: bool)
      modifies this, outputHandler
      ensures ok && F.Step(keyString, old(State()), Event.StartArray) == Some(State())
    {
      if filterValueDepth > 0 {
        filterValueDepth := F.Successor(filterValueDepth);
        ok := true;
      } else {
        ok := outputHandler.StartArray();
      }
    }

    method EndArray(elementCount: nat) returns (ok: bool)
      requires elementCount < TWO_32 && Ready(Event.EndArray(elementCount))
      modifies this, outputHandler
      ensures ok && F.Step(keyString, old(State()), Event.EndArray(elementCount)) == Some(State())
    {
      if filterValueDepth > 0 {
        filterValueDepth := F.Predecessor(filterValueDepth);
        ok := EndValue();
      } else {
        ok := outputHandler.EndArray(elementCount);
        if ok { ok := EndValue(); }
      }
    }

    method EndValue() returns (ok: bool)
      modifies `filterValueDepth
      ensures ok && State() == F.EndValue(old(State()))
    {
      if filterValueDepth == 1 {
        filterValueDepth := 0;
      }
      ok := true;
    }

    method Dispatch(e: Event) returns (ok: bool)
      requires Representable(e) && Ready(e)
      modifies this, outputHandler
      ensures ok && F.Step(keyString, old(State()), e) == Some(State())
    {
      match e
      case StartObject => ok := StartObject();
      case Key(str, copy) => ok := Key(str, copy);
      case EndObject(n) => ok := EndObject(n);
      case StartArray => ok := StartArray();
      case EndArray(n) => ok := EndArray(n);
      case _ => ok := Scalar(e);
    }

    /** The reader sends the events of a document one after the other. */
    method Feed(events: seq<Event>) returns (ok: bool)
      requires AllRepresentable(events) && F.StepAll(keyString, State(), events).Some?
      modifies this, outputHandler
      ensures ok && F.StepAll(keyString, old(State()), events) == Some(State())
    {
      var i := 0;
      ok := true;
      while i < |events| && ok
        invariant 0 <= i <= |events| && ok
        invariant F.StepAll(keyString, State(), events[i..]) == F.StepAll(keyString, old(State()), events)
      {
        assert events[i..][0] == events[i] && events[i..][1..] == events[i + 1..];
        ok := Dispatch(events[i]);
        i := i + 1;
      }
    }
  }

  /** `Document::Populate` with a `FilterKeyReader` that reads the text of `v`. */
  method PopulateFiltered(document: GenericDocument, v: Value, key: Chars) returns (ok: bool)
    requires Typed(v) && F.Nesting(v) < TWO_32 && document.stack == []
    modifies document
    ensures ok && document.stack == [] && document.root == F.Without(v, key)
  {
    hide F.StepAll, F.Step, F.Without, F.Nesting, Events, Typed, AllRepresentable;
    var filter := new FilterKeyHandler(document, key);
    F.FilterPushesWithout(key, filter.State(), v);
    ok := filter.Feed(Events(v));
    assert document.stack == [F.Without(v, key)];
    if ok {
      var popped := document.Pop(1);
      document.root := popped[0];
    }
    document.stack := [];
  }

  /** The copy constructor: the value's events build it anew in a document, which gives it up. */
  method DeepCopy(v: Value) returns (copy: Value)
    requires Typed(v)
    ensures copy == v
  {
    hide HandleAll, Events, Typed, AllRepresentable;
    var d := new GenericDocument();
    AcceptPushesValue(v, []);
    var _ := d.Feed(Events(v));
    assert d.stack == [v];
    var popped := d.Pop(1);
    copy := popped[0];
  }
}
