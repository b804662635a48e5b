/**
  Values and the document builder of rapidjson (include/rapidjson/document.h):
  `GenericValue::Accept` turns a value into events, `GenericDocument` turns events back
  into a value with a stack.
 */
module JsonDom {
  import opened Common

  // Ranges of `int`, `unsigned`, `int64_t`, `uint64_t`, and of `SizeType`.
  const TWO_31: int := 0x8000_0000
  const TWO_32: int := 0x1_0000_0000
  const TWO_63: int := 0x8000_0000_0000_0000
  const TWO_64: int := 0x1_0000_0000_0000_0000

  // The longest string kept inside a value (64-bit pointers).
  const SHORT_STRING_MAX: nat := 21

  type Chars = seq<char>

  /** The flags that tell which types can hold a number. */
  datatype Flag = INT | UINT | INT64 | UINT64 | DOUBLE

  // In the source a set of flags is a word of 16 bits, beside the bits of `kNumberType | kNumberFlag`.

  const NUMBER_BITS: bv16 := 0x0016

  function Mask(flag: Flag): bv16 {
    match flag
    case INT => 0x0020
    case UINT => 0x0040
    case INT64 => 0x0080
    case UINT64 => 0x0100
    case DOUBLE => 0x0200
  }

  /** Setting a flag by a bitwise or, and testing for one by a mask, is adding to a set and asking for a member. */
  lemma MasksAreASet(word: bv16, flag: Flag, tested: Flag)
    ensures (word | Mask(flag)) & Mask(tested) != 0 <==> tested == flag || word & Mask(tested) != 0
    ensures NUMBER_BITS & Mask(tested) == 0
  {
  }

  datatype StringKind = Const | Copy | Short

  datatype Member = Member(name: Value, value: Value)

  /** The payload of a number is its 64-bit pattern. */
  datatype Value =
    | Null
    | Bool(b: bool)
    | Number(flags: set<Flag>, bits: nat)
    | String(kind: StringKind, chars: Chars)
    | Array(elements: seq<Value>)
    | Object(members: seq<Member>)

  datatype Event =
    | NullEvent
    | BoolEvent(b: bool)
    | IntEvent(i: int)
    | UintEvent(u: int)
    | Int64Event(i: int)
    | Uint64Event(u: int)
    | DoubleEvent(bits: nat)
    | RawNumberEvent(str: Chars, copy: bool)
    | StringEvent(str: Chars, copy: bool)
    | StartObject
    | Key(str: Chars, copy: bool)
    | EndObject(memberCount: nat)
    | StartArray
    | EndArray(elementCount: nat)

  // ---------------------------------------------------------------- constructors

  function Pattern(x: int): nat {
    if x < 0 then (x + TWO_64) % TWO_64 else x % TWO_64
  }

  function FromInt(i: int): (n: Value)
    requires -TWO_31 <= i < TWO_31
    ensures Denotes(n, i)
  {
    Number(if i >= 0 then {INT, INT64, UINT, UINT64} else {INT, INT64}, Pattern(i))
  }

  /** The mask test `u & 0x80000000` of a 32-bit number asks whether it is at least 2^31; likewise below. */
  function FromUint(u: int): (n: Value)
    requires 0 <= u < TWO_32
    ensures Denotes(n, u)
  {
    Number(if u >= TWO_31 then {UINT, UINT64, INT64} else {UINT, UINT64, INT64, INT}, Pattern(u))
  }

  function FromInt64(i: int): (n: Value)
    requires -TWO_63 <= i < TWO_63
    ensures Denotes(n, i)
  {
    var flags := {INT64};
    Number(
      if i >= 0 then
        var flags := flags + {UINT64};
        var flags := if Pattern(i) < TWO_32 then flags + {UINT} else flags;
        if Pattern(i) < TWO_31 then flags + {INT} else flags
      else if i >= -TWO_31 then flags + {INT}
      else flags,
      Pattern(i))
  }

  function FromUint64(u: int): (n: Value)
    requires 0 <= u < TWO_64
    ensures Denotes(n, u)
  {
    var flags := {UINT64};
    var flags := if u < TWO_63 then flags + {INT64} else flags;
    var flags := if u < TWO_32 then flags + {UINT} else flags;
    var flags := if u < TWO_31 then flags + {INT} else flags;
    Number(flags, Pattern(u))
  }

  function FromDouble(bits: nat): Value {
    Number({DOUBLE}, bits)
  }

  function FromString(chars: Chars, copy: bool): Value {
    String(if !copy then Const else if |chars| <= SHORT_STRING_MAX then Short else Copy, chars)
  }

  predicate Has(flags: set<Flag>, flag: Flag) {
    flag in flags
  }

  // ---------------------------------------------------------------- what the flags mean

  predicate InRange(x: int) {
    -TWO_63 <= x < TWO_64
  }

  /** `n` is the integer `x`, with exactly the flags of the integer types that can hold `x`. */
  predicate Denotes(n: Value, x: int) {
    && n.Number? && InRange(x) && n.bits == Pattern(x)
    && (Has(n.flags, INT) <==> -TWO_31 <= x < TWO_31)
    && (Has(n.flags, UINT) <==> 0 <= x < TWO_32)
    && (Has(n.flags, INT64) <==> -TWO_63 <= x < TWO_63)
    && (Has(n.flags, UINT64) <==> 0 <= x < TWO_64)
    && !Has(n.flags, DOUBLE)
  }

  /** A number is determined by the integer it denotes. */
  lemma DenotationIsUnique(m: Value, n: Value, x: int)
    requires Denotes(m, x) && Denotes(n, x)
    ensures m == n
  {
    forall flag ensures flag in m.flags <==> flag in n.flags {
      match flag
      case INT =>
      case UINT =>
      case INT64 =>
      case UINT64 =>
      case DOUBLE =>
    }
  }

  // ---------------------------------------------------------------- values built by the typed constructors

  function Signed32(pattern: nat): int {
    var low := pattern % TWO_32;
    if low < TWO_31 then low else low - TWO_32
  }

  function Signed64(pattern: nat): int {
    if pattern < TWO_63 then pattern else pattern - TWO_64
  }

  /** The integer a number built by an integer constructor stands for. */
  function IntegerOf(n: Value): int
    requires n.Number?
  {
    if Has(n.flags, UINT64) then n.bits else Signed64(n.bits)
  }

  predicate TypedNumber(n: Value)
    requires n.Number?
  {
    n.flags == {DOUBLE} || Denotes(n, IntegerOf(n))
  }

  lemma IntegerOfDenotation(n: Value, x: int)
    requires Denotes(n, x)
    ensures IntegerOf(n) == x && TypedNumber(n)
  {
  }

  /** The number an integer constructor builds for `x`, with whichever of the types that hold `x` it is called. */
  function FromInteger(x: int): Value
    requires InRange(x)
  {
    if x < TWO_63 then FromInt64(x) else FromUint64(x)
  }

  /** The typed numbers are exactly those built by the constructors from an integer or a double. */
  lemma TypedIffConstructed(n: Value)
    requires n.Number?
    ensures TypedNumber(n) <==> n == FromDouble(n.bits) || exists x :: InRange(x) && n == FromInteger(x)
    ensures forall x :: -TWO_31 <= x < TWO_31 ==> FromInt(x) == FromInteger(x)
    ensures forall x :: 0 <= x < TWO_32 ==> FromUint(x) == FromInteger(x)
    ensures forall x :: 0 <= x < TWO_63 ==> FromUint64(x) == FromInteger(x)
  {
    hide Denotes;
    if n.flags != {DOUBLE} && TypedNumber(n) {
      DenotedIsInRange(n, IntegerOf(n));
      DenotationIsUnique(n, FromInteger(IntegerOf(n)), IntegerOf(n));
    }
    forall x | InRange(x) && n == FromInteger(x) ensures TypedNumber(n) {
      IntegerOfDenotation(n, x);
    }
    forall x | -TWO_31 <= x < TWO_31 ensures FromInt(x) == FromInteger(x) {
      DenotationIsUnique(FromInt(x), FromInteger(x), x);
    }
    forall x | 0 <= x < TWO_32 ensures FromUint(x) == FromInteger(x) {
      DenotationIsUnique(FromUint(x), FromInteger(x), x);
    }
    forall x | 0 <= x < TWO_63 ensures FromUint64(x) == FromInteger(x) {
      DenotationIsUnique(FromUint64(x), FromInteger(x), x);
    }
  }

  lemma DenotedIsInRange(n: Value, x: int)
    requires Denotes(n, x)
    ensures InRange(x)
  {
  }

  predicate TypedString(s: Value)
    requires s.String?
  {
    s.kind == Const || (s.kind == Short <==> |s.chars| <= SHORT_STRING_MAX)
  }

  /** `v` was built from the typed constructors; `SizeType` bounds every size. */
  predicate Typed(v: Value) {
    match v
    case Null => true
    case Bool(_) => true
    case Number(_, _) => TypedNumber(v)
    case String(_, _) => TypedString(v)
    case Array(elements) => |elements| < TWO_32 && forall i :: 0 <= i < |elements| ==> Typed(elements[i])
    case Object(members) => |members| < TWO_32 && forall i :: 0 <= i < |members| ==> TypedMember(members[i])
  }

  predicate TypedMember(m: Member) {
    m.name.String? && TypedString(m.name) && Typed(m.value)
  }

  // ---------------------------------------------------------------- Accept

  function Events(v: Value): seq<Event>
    requires Typed(v)
    decreases v, 1
  {
    match v
    case Null => [NullEvent]
    case Bool(b) => [BoolEvent(b)]
    case Number(_, _) => [NumberEvent(v)]
    case String(kind, chars) => [StringEvent(chars, kind != Const)]
    case Array(elements) => [StartArray] + ElementEvents(elements) + [EndArray(|elements|)]
    case Object(members) => [StartObject] + MemberEvents(members) + [EndObject(|members|)]
  }

  function NumberEvent(n: Value): Event
    requires n.Number?
  {
    if Has(n.flags, DOUBLE) then DoubleEvent(n.bits)
    else if Has(n.flags, INT) then IntEvent(Signed32(n.bits))
    else if Has(n.flags, UINT) then UintEvent(n.bits % TWO_32)
    else if Has(n.flags, INT64) then Int64Event(Signed64(n.bits))
    else Uint64Event(n.bits)
  }

  /** An integer is announced with the first of the four types that holds it, and with its value. */
  lemma IntegerIsAnnounced(n: Value, x: int)
    requires Denotes(n, x)
    ensures NumberEvent(n) ==
      if -0x8000_0000 <= x < 0x8000_0000 then IntEvent(x)
      else if 0 <= x < 0x1_0000_0000 then UintEvent(x)
      else if x < 0x8000_0000_0000_0000 then Int64Event(x)
      else Uint64Event(x)
  {
  }

  function ElementEvents(elements: seq<Value>): seq<Event>
    requires forall i :: 0 <= i < |elements| ==> Typed(elements[i])
    decreases elements, 0
  {
    if elements == [] then [] else Events(elements[0]) + ElementEvents(elements[1..])
  }

  function MemberEvents(members: seq<Member>): seq<Event>
    requires forall i :: 0 <= i < |members| ==> TypedMember(members[i])
    decreases members, 0
  {
    if members == [] then [] else
      assert TypedMember(members[0]);
      EventsOfMember(members[0]) + MemberEvents(members[1..])
  }

  function EventsOfMember(m: Member): seq<Event>
    requires TypedMember(m)
    decreases m, 2
  {
    [Key(m.name.chars, m.name.kind != Const)] + Events(m.value)
  }

  // ---------------------------------------------------------------- the document as a handler

  /** The range of each event's argument in the handler's signature. */
  predicate Representable(e: Event) {
    match e
    case IntEvent(i) => -TWO_31 <= i < TWO_31
    case UintEvent(u) => 0 <= u < TWO_32
    case Int64Event(i) => -TWO_63 <= i < TWO_63
    case Uint64Event(u) => 0 <= u < TWO_64
    case EndObject(n) => n < TWO_32
    case EndArray(n) => n < TWO_32
    case _ => true
  }

  predicate AllRepresentable(events: seq<Event>) {
    forall i :: 0 <= i < |events| ==> Representable(events[i])
  }

  /** The stack after an event, or None when an assertion of the stack fails. */
  function Handle(stack: seq<Value>, e: Event): Option<seq<Value>>
    requires Representable(e)
  {
    match e
    case NullEvent => Some(stack + [Null])
    case BoolEvent(b) => Some(stack + [Bool(b)])
    case IntEvent(i) => Some(stack + [FromInt(i)])
    case UintEvent(u) => Some(stack + [FromUint(u)])
    case Int64Event(i) => Some(stack + [FromInt64(i)])
    case Uint64Event(u) => Some(stack + [FromUint64(u)])
    case DoubleEvent(bits) => Some(stack + [FromDouble(bits)])
    case RawNumberEvent(str, copy) => Some(stack + [FromString(str, copy)])
    case StringEvent(str, copy) => Some(stack + [FromString(str, copy)])
    case Key(str, copy) => Some(stack + [FromString(str, copy)])
    case StartObject => Some(stack + [Object([])])
    case StartArray => Some(stack + [Array([])])
    case EndObject(n) =>
      if |stack| < 2 * n + 1 then None
      else Some(stack[..|stack| - 2 * n - 1] + [Object(Pairs(stack[|stack| - 2 * n..]))])
    case EndArray(n) =>
      if |stack| < n + 1 then None
      else Some(stack[..|stack| - n - 1] + [Array(stack[|stack| - n..])])
  }

  /** A `Member` is two values side by side. */
  function Pairs(values: seq<Value>): seq<Member> {
    if |values| < 2 then [] else [Member(values[0], values[1])] + Pairs(values[2..])
  }

  function Flat(members: seq<Member>): (values: seq<Value>)
    ensures |values| == 2 * |members|
  {
    if members == [] then [] else [members[0].name, members[0].value] + Flat(members[1..])
  }

  lemma {:induction false} PairsOfFlat(members: seq<Member>)
    ensures Pairs(Flat(members)) == members
  {
    if members != [] {
      PairsOfFlat(members[1..]);
      assert Flat(members)[2..] == Flat(members[1..]);
    }
  }

  function HandleAll(stack: seq<Value>, events: seq<Event>): Option<seq<Value>>
    requires AllRepresentable(events)
    decreases |events|
  {
    if events == [] then Some(stack) else
      match Handle(stack, events[0])
      case None => None
      case Some(next) => HandleAll(next, events[1..])
  }

  lemma {:induction false} HandleInTurn(stack: seq<Value>, first: seq<Event>, second: seq<Event>)
    requires AllRepresentable(first) && AllRepresentable(second)
    ensures HandleAll(stack, first + second) ==
            match HandleAll(stack, first) { case None => None case Some(next) => HandleAll(next, second) }
    decreases |first|
  {
    if first == [] {
      assert first + second == second;
    } else {
      assert (first + second)[1..] == first[1..] + second;
      match Handle(stack, first[0])
      case None =>
      case Some(next) => HandleInTurn(next, first[1..], second);
    }
  }

  // ---------------------------------------------------------------- deep copy

  lemma NumberEventRebuilds(n: Value, stack: seq<Value>)
    requires n.Number? && TypedNumber(n)
    ensures Representable(NumberEvent(n)) && Handle(stack, NumberEvent(n)) == Some(stack + [n])
  {
    if n.flags != {DOUBLE} {
      var x := IntegerOf(n);
      var e := NumberEvent(n);
      assert e == IntEvent(x) || e == UintEvent(x) || e == Int64Event(x) || e == Uint64Event(x);
      DenotationIsUnique(n, Handle(stack, e).value[|stack|], x);
    }
  }

  lemma {:induction false} EventsRepresentable(v: Value)
    requires Typed(v)
    ensures AllRepresentable(Events(v))
    decreases v, 1
  {
    match v
    case Number(_, _) => NumberEventRebuilds(v, []);
    case Array(elements) => ElementEventsRepresentable(elements);
    case Object(members) => MemberEventsRepresentable(members);
    case _ =>
  }

  lemma {:induction false} ElementEventsRepresentable(elements: seq<Value>)
    requires forall i :: 0 <= i < |elements| ==> Typed(elements[i])
    ensures AllRepresentable(ElementEvents(elements))
    decreases elements, 0
  {
    if elements != [] {
      EventsRepresentable(elements[0]);
      ElementEventsRepresentable(elements[1..]);
    }
  }

  lemma {:induction false} MemberEventsRepresentable(members: seq<Member>)
    requires forall i :: 0 <= i < |members| ==> TypedMember(members[i])
    ensures AllRepresentable(MemberEvents(members))
    decreases members, 0
  {
    if members != [] {
      assert TypedMember(members[0]);
      EventsOfMemberRepresentable(members[0]);
      MemberEventsRepresentable(members[1..]);
    }
  }

  lemma {:induction false} EventsOfMemberRepresentable(m: Member)
    requires TypedMember(m)
    ensures AllRepresentable(EventsOfMember(m))
    decreases m, 2
  {
    EventsRepresentable(m.value);
  }

  /**
    Deep copy: the events of a value, handled by a document, push exactly that value,
    whatever is on the stack below.
   */
  lemma {:induction false} AcceptPushesValue(v: Value, stack: seq<Value>)
    requires Typed(v)
    ensures AllRepresentable(Events(v)) && HandleAll(stack, Events(v)) == Some(stack + [v])
    decreases v, 1
  {
    EventsRepresentable(v);
    match v
    case Null =>
    case Bool(_) =>
    case Number(_, _) => NumberEventRebuilds(v, stack);
    case String(_, _) =>
    case Array(elements) => ArrayIsPushed(elements, stack);
    case Object(members) => ObjectIsPushed(members, stack);
  }

  lemma {:induction false} ArrayIsPushed(elements: seq<Value>, stack: seq<Value>)
    requires Typed(Array(elements))
    ensures AllRepresentable(Events(Array(elements)))
    ensures HandleAll(stack, Events(Array(elements))) == Some(stack + [Array(elements)])
    decreases elements, 1
  {
    EventsRepresentable(Array(elements));
    var started, e := stack + [Array([])], EndArray(|elements|);
    ElementsArePushed(elements, started);
    HandleInTurn(started, ElementEvents(elements), [e]);
    HandleOne(started + elements, e);
    assert Events(Array(elements)) == [StartArray] + (ElementEvents(elements) + [e]);
    assert (started + elements)[|stack| + 1..] == elements && (started + elements)[..|stack|] == stack;
  }

  lemma {:induction false} ObjectIsPushed(members: seq<Member>, stack: seq<Value>)
    requires Typed(Object(members))
    ensures AllRepresentable(Events(Object(members)))
    ensures HandleAll(stack, Events(Object(members))) == Some(stack + [Object(members)])
    decreases members, 1
  {
    EventsRepresentable(Object(members));
    var started, e := stack + [Object([])], EndObject(|members|);
    MembersArePushed(members, started);
    HandleInTurn(started, MemberEvents(members), [e]);
    HandleOne(started + Flat(members), e);
    EndObjectPops(stack, members);
    assert Events(Object(members)) == [StartObject] + (MemberEvents(members) + [e]);
  }

  /** `EndObject` takes off the members it is told of and leaves the object in place. */
  lemma EndObjectPops(stack: seq<Value>, members: seq<Member>)
    requires |members| < TWO_32
    ensures Handle(stack + [Object([])] + Flat(members), EndObject(|members|)) == Some(stack + [Object(members)])
  {
    EndObjectTakes(stack, Flat(members), |members|);
    PairsOfFlat(members);
  }

  lemma EndObjectTakes(stack: seq<Value>, values: seq<Value>, n: nat)
    requires n < TWO_32 && |values| == 2 * n
    ensures Handle(stack + [Object([])] + values, EndObject(n)) == Some(stack + [Object(Pairs(values))])
  {
    var all := stack + [Object([])] + values;
    assert all[|all| - 2 * n..] == values;
    assert all[..|all| - 2 * n - 1] == stack;
  }

  lemma HandleOne(stack: seq<Value>, e: Event)
    requires Representable(e)
    ensures HandleAll(stack, [e]) == Handle(stack, e)
  {
    if Handle(stack, e).Some? {
      assert HandleAll(Handle(stack, e).value, []) == Handle(stack, e);
    }
  }

  lemma {:induction false} ElementsArePushed(elements: seq<Value>, stack: seq<Value>)
    requires forall i :: 0 <= i < |elements| ==> Typed(elements[i])
    ensures AllRepresentable(ElementEvents(elements))
    ensures HandleAll(stack, ElementEvents(elements)) == Some(stack + elements)
    decreases elements, 0
  {
    ElementEventsRepresentable(elements);
    if elements == [] {
      assert stack + elements == stack;
    } else {
      AcceptPushesValue(elements[0], stack);
      ElementsArePushed(elements[1..], stack + [elements[0]]);
      HandleInTurn(stack, Events(elements[0]), ElementEvents(elements[1..]));
      assert stack + [elements[0]] + elements[1..] == stack + elements;
    }
  }

  lemma {:induction false} MembersArePushed(members: seq<Member>, stack: seq<Value>)
    requires forall i :: 0 <= i < |members| ==> TypedMember(members[i])
    ensures AllRepresentable(MemberEvents(members))
    ensures HandleAll(stack, MemberEvents(members)) == Some(stack + Flat(members))
    decreases members, 0
  {
    MemberEventsRepresentable(members);
    if members == [] {
      assert stack + Flat(members) == stack;
    } else {
      assert TypedMember(members[0]);
      var pushed := stack + [members[0].name, members[0].value];
      MemberIsPushed(members[0], stack);
      MembersArePushed(members[1..], pushed);
      HandleInTurn(stack, EventsOfMember(members[0]), MemberEvents(members[1..]));
      assert pushed + Flat(members[1..]) == stack + Flat(members);
    }
  }

  lemma {:induction false} MemberIsPushed(m: Member, stack: seq<Value>)
    requires TypedMember(m)
    ensures AllRepresentable(EventsOfMember(m))
    ensures HandleAll(stack, EventsOfMember(m)) == Some(stack + [m.name, m.value])
    decreases m, 2
  {
    EventsOfMemberRepresentable(m);
    AcceptPushesValue(m.value, stack + [m.name]);
    assert EventsOfMember(m)[1..] == Events(m.value);
    assert stack + [m.name] + [m.value] == stack + [m.name, m.value];
  }
}
