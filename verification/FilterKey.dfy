/**
  The key filter of rapidjson's example filterkeydom.cpp, and what it makes of the events
  of a value when a document handles its output.
 */
module FilterKey {
  import opened Common
  import opened JsonDom

  /** `filterValueDepth_` is an `unsigned`, `filteredKeyCount_` a stack of `SizeType`. */
  datatype Filter = Filter(depth: nat, counts: seq<nat>, output: seq<Value>)

  function Successor(n: nat): nat {
    if n + 1 < TWO_32 then n + 1 else 0
  }

  function Predecessor(n: nat): nat {
    if n == 0 then TWO_32 - 1 else n - 1
  }

  /** The counters count modulo 2^32. */
  lemma CountersWrap(n: nat)
    requires n < 0x1_0000_0000
    ensures Successor(n) == (n + 1) % 0x1_0000_0000
    ensures Predecessor(n) == (n + 0x1_0000_0000 - 1) % 0x1_0000_0000
  {
  }

  function EndValue(f: Filter): Filter {
    if f.depth == 1 then f.(depth := 0) else f
  }

  function Emit(f: Filter, e: Event): Option<Filter>
    requires Representable(e)
  {
    match Handle(f.output, e)
    case None => None
    case Some(output) => Some(f.(output := output))
  }

  function EmitValue(f: Filter, e: Event): Option<Filter>
    requires Representable(e)
  {
    match Emit(f, e)
    case None => None
    case Some(g) => Some(EndValue(g))
  }

  /** One event; None when a stack assertion fails or `filteredKeyCount_` is empty. */
  function Step(key: Chars, f: Filter, e: Event): Option<Filter>
    requires Representable(e)
  {
    match e
    case StartObject =>
      if f.depth > 0 then Some(f.(depth := Successor(f.depth)))
      else Emit(f.(counts := f.counts + [0]), StartObject)
    case Key(str, copy) =>
      if f.depth > 0 then Some(f)
      else if str == key then Some(f.(depth := 1))
      else if f.counts == [] then None
      else Emit(f.(counts := f.counts[|f.counts| - 1 := Successor(f.counts[|f.counts| - 1])]), e)
    case EndObject(_) =>
      if f.depth > 0 then Some(EndValue(f.(depth := Predecessor(f.depth))))
      else if f.counts == [] || f.counts[|f.counts| - 1] >= TWO_32 then None
      else EmitValue(f.(counts := f.counts[..|f.counts| - 1]), EndObject(f.counts[|f.counts| - 1]))
    case StartArray =>
      if f.depth > 0 then Some(f.(depth := Successor(f.depth)))
      else Emit(f, StartArray)
    case EndArray(_) =>
      if f.depth > 0 then Some(EndValue(f.(depth := Predecessor(f.depth))))
      else EmitValue(f, e)
    case _ =>
      if f.depth > 0 then Some(EndValue(f))
      else EmitValue(f, e)
  }

  function StepAll(key: Chars, f: Filter, events: seq<Event>): Option<Filter>
    requires AllRepresentable(events)
    decreases |events|
  {
    if events == [] then Some(f) else
      match Step(key, f, events[0])
      case None => None
      case Some(g) => StepAll(key, g, events[1..])
  }

  lemma {:induction false} StepInTurn(key: Chars, f: Filter, first: seq<Event>, second: seq<Event>)
    requires AllRepresentable(first) && AllRepresentable(second)
    ensures StepAll(key, f, first + second) ==
            match StepAll(key, f, first) { case None => None case Some(g) => StepAll(key, g, second) }
    decreases |first|
  {
    if first == [] {
      assert first + second == second;
    } else {
      assert (first + second)[1..] == first[1..] + second;
      match Step(key, f, first[0])
      case None =>
      case Some(g) => StepInTurn(key, g, first[1..], second);
    }
  }

  lemma StepOne(key: Chars, f: Filter, e: Event)
    requires Representable(e)
    ensures StepAll(key, f, [e]) == Step(key, f, e)
  {
    if Step(key, f, e).Some? {
      assert StepAll(key, Step(key, f, e).value, []) == Step(key, f, e);
    }
  }

  // ---------------------------------------------------------------- what the filter is for

  /** `v` without the members named `key`, at every level. */
  function Without(v: Value, key: Chars): Value
    decreases v, 1
  {
    match v
    case Array(elements) => Array(ElementsWithout(elements, key))
    case Object(members) => Object(MembersWithout(members, key))
    case _ => v
  }

  function ElementsWithout(elements: seq<Value>, key: Chars): (r: seq<Value>)
    ensures |r| == |elements|
    decreases elements, 0
  {
    if elements == [] then [] else [Without(elements[0], key)] + ElementsWithout(elements[1..], key)
  }

  function MembersWithout(members: seq<Member>, key: Chars): (r: seq<Member>)
    ensures |r| <= |members|
    decreases members, 0
  {
    if members == [] then []
    else KeptMember(members[0], key) + MembersWithout(members[1..], key)
  }

  function KeptMember(m: Member, key: Chars): (r: seq<Member>)
    ensures |r| <= 1
    decreases m, 2
  {
    if m.name.String? && m.name.chars == key then [] else [Member(m.name, Without(m.value, key))]
  }

  /** No object at any level of `v` has a member named `key`. */
  predicate Lacks(v: Value, key: Chars) {
    match v
    case Array(elements) => forall i :: 0 <= i < |elements| ==> Lacks(elements[i], key)
    case Object(members) =>
      forall i :: 0 <= i < |members| ==>
        !(members[i].name.String? && members[i].name.chars == key) && Lacks(members[i].value, key)
    case _ => true
  }

  /** What is left lacks the key, and a value that lacks the key already is left as it is. */
  lemma {:induction false} WithoutLacks(v: Value, key: Chars)
    ensures Lacks(Without(v, key), key)
    ensures Lacks(v, key) <==> Without(v, key) == v
    decreases v, 1
  {
    match v
    case Array(elements) => ElementsWithoutLack(elements, key);
    case Object(members) => MembersWithoutLack(members, key);
    case _ =>
  }

  lemma {:induction false} ElementsWithoutLack(elements: seq<Value>, key: Chars)
    ensures Lacks(Array(ElementsWithout(elements, key)), key)
    ensures Lacks(Array(elements), key) <==> ElementsWithout(elements, key) == elements
    decreases elements, 0
  {
    if elements != [] {
      WithoutLacks(elements[0], key);
      ElementsWithoutLack(elements[1..], key);
      assert elements == [elements[0]] + elements[1..];
      assert Lacks(Array(elements), key) <==> Lacks(elements[0], key) && Lacks(Array(elements[1..]), key);
    }
  }

  lemma {:induction false} MembersWithoutLack(members: seq<Member>, key: Chars)
    ensures Lacks(Object(MembersWithout(members, key)), key)
    ensures Lacks(Object(members), key) <==> MembersWithout(members, key) == members
    decreases members, 0
  {
    if members != [] {
      MemberWithoutLacks(members[0], key);
      MembersWithoutLack(members[1..], key);
      assert members == [members[0]] + members[1..];
      assert Lacks(Object(members), key) <==> Lacks(Object([members[0]]), key) && Lacks(Object(members[1..]), key);
      var kept, rest := KeptMember(members[0], key), MembersWithout(members[1..], key);
      assert kept == [] ==> |MembersWithout(members, key)| < |members|;
      assert kept != [] ==> MembersWithout(members, key)[0] == kept[0] && MembersWithout(members, key)[1..] == rest;
    }
  }

  lemma {:induction false} MemberWithoutLacks(m: Member, key: Chars)
    ensures Lacks(Object(KeptMember(m, key)), key)
    ensures Lacks(Object([m]), key) <==> KeptMember(m, key) == [m]
    decreases m, 2
  {
    WithoutLacks(m.value, key);
    assert [m][0] == m;
    assert Lacks(Object([m]), key) <==> !(m.name.String? && m.name.chars == key) && Lacks(m.value, key);
  }

  /** How deep arrays and objects nest in `v`. */
  function Nesting(v: Value): nat
    decreases v, 1
  {
    match v
    case Array(elements) => 1 + ElementNesting(elements)
    case Object(members) => 1 + MemberNesting(members)
    case _ => 0
  }

  function Max(a: nat, b: nat): nat {
    if a < b then b else a
  }

  function ElementNesting(elements: seq<Value>): nat
    decreases elements, 0
  {
    if elements == [] then 0 else Max(Nesting(elements[0]), ElementNesting(elements[1..]))
  }

  function MemberNesting(members: seq<Member>): nat
    decreases members, 0
  {
    if members == [] then 0 else Max(ValueNesting(members[0]), MemberNesting(members[1..]))
  }

  function ValueNesting(m: Member): nat
    decreases m, 2
  {
    Nesting(m.value)
  }

  // ---------------------------------------------------------------- inside a filtered value

  /** Nothing of a value below a filtered key is let through, and the depth returns to where it was. */
  lemma {:induction false} FilteredValueIsSilent(key: Chars, f: Filter, v: Value)
    requires Typed(v) && 0 < f.depth && f.depth + Nesting(v) < TWO_32
    ensures AllRepresentable(Events(v)) && StepAll(key, f, Events(v)) == Some(EndValue(f))
    decreases v, 1
  {
    EventsRepresentable(v);
    match v
    case Null =>
    case Bool(_) =>
    case Number(_, _) =>
    case String(_, _) =>
    case Array(elements) =>
      var g, e := f.(depth := f.depth + 1), EndArray(|elements|);
      FilteredElementsAreSilent(key, g, elements);
      StepInTurn(key, g, ElementEvents(elements), [e]);
      StepOne(key, g, e);
      assert Events(v) == [StartArray] + (ElementEvents(elements) + [e]);
    case Object(members) =>
      var g, e := f.(depth := f.depth + 1), EndObject(|members|);
      FilteredMembersAreSilent(key, g, members);
      StepInTurn(key, g, MemberEvents(members), [e]);
      StepOne(key, g, e);
      assert Events(v) == [StartObject] + (MemberEvents(members) + [e]);
  }

  lemma {:induction false} FilteredElementsAreSilent(key: Chars, f: Filter, elements: seq<Value>)
    requires forall i :: 0 <= i < |elements| ==> Typed(elements[i])
    requires 1 < f.depth && f.depth + ElementNesting(elements) < TWO_32
    ensures AllRepresentable(ElementEvents(elements)) && StepAll(key, f, ElementEvents(elements)) == Some(f)
    decreases elements, 0
  {
    ElementEventsRepresentable(elements);
    if elements != [] {
      FilteredValueIsSilent(key, f, elements[0]);
      FilteredElementsAreSilent(key, f, elements[1..]);
      StepInTurn(key, f, Events(elements[0]), ElementEvents(elements[1..]));
    }
  }

  lemma {:induction false} FilteredMembersAreSilent(key: Chars, f: Filter, members: seq<Member>)
    requires forall i :: 0 <= i < |members| ==> TypedMember(members[i])
    requires 1 < f.depth && f.depth + MemberNesting(members) < TWO_32
    ensures AllRepresentable(MemberEvents(members)) && StepAll(key, f, MemberEvents(members)) == Some(f)
    decreases members, 0
  {
    MemberEventsRepresentable(members);
    if members != [] {
      assert TypedMember(members[0]);
      FilteredMemberIsSilent(key, f, members[0]);
      FilteredMembersAreSilent(key, f, members[1..]);
      StepInTurn(key, f, EventsOfMember(members[0]), MemberEvents(members[1..]));
    }
  }

  lemma {:induction false} FilteredMemberIsSilent(key: Chars, f: Filter, m: Member)
    requires TypedMember(m) && 1 < f.depth && f.depth + ValueNesting(m) < TWO_32
    ensures AllRepresentable(EventsOfMember(m)) && StepAll(key, f, EventsOfMember(m)) == Some(f)
    decreases m, 2
  {
    EventsOfMemberRepresentable(m);
    FilteredValueIsSilent(key, f, m.value);
    assert EventsOfMember(m)[1..] == Events(m.value);
  }

  // ---------------------------------------------------------------- outside

  /**
    Filter correctness: the events of a value, sent through the filter into a document, push
    exactly the value without the members named `key`.  The nesting bound is the range of the
    depth counter.
   */
  lemma {:induction false} FilterPushesWithout(key: Chars, f: Filter, v: Value)
    requires Typed(v) && f.depth == 0 && Nesting(v) < TWO_32
    ensures AllRepresentable(Events(v))
    ensures StepAll(key, f, Events(v)) == Some(f.(output := f.output + [Without(v, key)]))
    decreases v, 1
  {
    EventsRepresentable(v);
    match v
    case Null =>
    case Bool(_) =>
    case Number(_, _) => NumberEventRebuilds(v, f.output);
    case String(_, _) =>
    case Array(elements) => FilterPushesArray(key, f, elements);
    case Object(members) => FilterPushesObject(key, f, members);
  }

  lemma {:induction false} FilterPushesArray(key: Chars, f: Filter, elements: seq<Value>)
    requires Typed(Array(elements)) && f.depth == 0 && 1 + ElementNesting(elements) < TWO_32
    ensures AllRepresentable(Events(Array(elements)))
    ensures StepAll(key, f, Events(Array(elements)))
        == Some(f.(output := f.output + [Array(ElementsWithout(elements, key))]))
    decreases elements, 1
  {
    EventsRepresentable(Array(elements));
    var g, e, kept := f.(output := f.output + [Array([])]), EndArray(|elements|), ElementsWithout(elements, key);
    FilterPushesElements(key, g, elements);
    var h := g.(output := g.output + kept);
    StepInTurn(key, g, ElementEvents(elements), [e]);
    StepOne(key, h, e);
    assert Events(Array(elements)) == [StartArray] + (ElementEvents(elements) + [e]);
    assert h.output[|f.output| + 1..] == kept && h.output[..|f.output|] == f.output;
  }

  lemma {:induction false} FilterPushesObject(key: Chars, f: Filter, members: seq<Member>)
    requires Typed(Object(members)) && f.depth == 0 && 1 + MemberNesting(members) < TWO_32
    ensures AllRepresentable(Events(Object(members)))
    ensures StepAll(key, f, Events(Object(members)))
        == Some(f.(output := f.output + [Object(MembersWithout(members, key))]))
    decreases members, 1
  {
    EventsRepresentable(Object(members));
    var g := f.(counts := f.counts + [0], output := f.output + [Object([])]);
    var e, kept := EndObject(|members|), MembersWithout(members, key);
    var h := f.(counts := f.counts + [|kept|], output := g.output + Flat(kept));
    FilterPushesMembers(key, g, members);
    assert Counting(g, kept) == h by {
      assert g.counts[..|f.counts|] == f.counts;
    }
    StepInTurn(key, g, MemberEvents(members), [e]);
    FilterEndsObject(key, f, kept, |members|);
    assert Events(Object(members)) == [StartObject] + (MemberEvents(members) + [e]);
    assert StepAll(key, f, Events(Object(members))) == StepAll(key, g, MemberEvents(members) + [e]);
  }

  /** At the end of an object the counter holds the number of members let through. */
  lemma FilterEndsObject(key: Chars, f: Filter, kept: seq<Member>, memberCount: nat)
    requires f.depth == 0 && |kept| < TWO_32 && memberCount < TWO_32
    ensures StepAll(key, f.(counts := f.counts + [|kept|], output := f.output + [Object([])] + Flat(kept)),
        [EndObject(memberCount)])
         == Some(f.(output := f.output + [Object(kept)]))
  {
    var h := f.(counts := f.counts + [|kept|], output := f.output + [Object([])] + Flat(kept));
    assert h.counts[..|f.counts|] == f.counts;
    EndObjectPops(f.output, kept);
    StepOne(key, h, EndObject(memberCount));
  }

  lemma {:induction false} FilterPushesElements(key: Chars, f: Filter, elements: seq<Value>)
    requires forall i :: 0 <= i < |elements| ==> Typed(elements[i])
    requires f.depth == 0 && ElementNesting(elements) < TWO_32
    ensures AllRepresentable(ElementEvents(elements))
    ensures StepAll(key, f, ElementEvents(elements)) == Some(f.(output := f.output + ElementsWithout(elements, key)))
    decreases elements, 0
  {
    ElementEventsRepresentable(elements);
    if elements == [] {
      assert f.output + [] == f.output;
    } else {
      var g := f.(output := f.output + [Without(elements[0], key)]);
      FilterPushesWithout(key, f, elements[0]);
      FilterPushesElements(key, g, elements[1..]);
      StepInTurn(key, f, Events(elements[0]), ElementEvents(elements[1..]));
      assert g.output + ElementsWithout(elements[1..], key) == f.output + ElementsWithout(elements, key);
    }
  }

  /** The filter with `n` more members counted and their values on the output stack. */
  function Counting(f: Filter, kept: seq<Member>): Filter
    requires f.counts != []
  {
    f.(counts := f.counts[..|f.counts| - 1] + [f.counts[|f.counts| - 1] + |kept|], output := f.output + Flat(kept))
  }

  lemma {:induction false} FilterPushesMembers(key: Chars, f: Filter, members: seq<Member>)
    requires forall i :: 0 <= i < |members| ==> TypedMember(members[i])
    requires f.depth == 0 && MemberNesting(members) + 1 < TWO_32
    requires f.counts != [] && f.counts[|f.counts| - 1] + |members| < TWO_32
    ensures AllRepresentable(MemberEvents(members))
    ensures StepAll(key, f, MemberEvents(members)) == Some(Counting(f, MembersWithout(members, key)))
    decreases members, 0
  {
    MemberEventsRepresentable(members);
    if members == [] {
      assert Counting(f, []) == f;
    } else {
      assert TypedMember(members[0]);
      var g := Counting(f, KeptMember(members[0], key));
      FilterPushesMember(key, f, members[0]);
      FilterPushesMembers(key, g, members[1..]);
      StepInTurn(key, f, EventsOfMember(members[0]), MemberEvents(members[1..]));
      CountingAdds(f, KeptMember(members[0], key), MembersWithout(members[1..], key));
    }
  }

  lemma {:induction false} FilterPushesMember(key: Chars, f: Filter, m: Member)
    requires TypedMember(m) && f.depth == 0 && ValueNesting(m) + 1 < TWO_32
    requires f.counts != [] && f.counts[|f.counts| - 1] + 1 < TWO_32
    ensures AllRepresentable(EventsOfMember(m))
    ensures StepAll(key, f, EventsOfMember(m)) == Some(Counting(f, KeptMember(m, key)))
    decreases m, 2
  {
    EventsOfMemberRepresentable(m);
    assert EventsOfMember(m)[1..] == Events(m.value);
    if m.name.chars == key {
      FilteredValueIsSilent(key, f.(depth := 1), m.value);
      assert Counting(f, []) == f;
    } else {
      var c := |f.counts| - 1;
      var g := f.(counts := f.counts[c := f.counts[c] + 1], output := f.output + [m.name]);
      FilterPushesWithout(key, g, m.value);
      var kept := KeptMember(m, key);
      assert Flat(kept) == [m.name, Without(m.value, key)] + Flat(kept[1..]);
      assert Flat(kept[1..]) == [];
      assert g.output + [Without(m.value, key)] == f.output + Flat(kept);
      assert g.counts == Counting(f, kept).counts;
    }
  }

  lemma CountingAdds(f: Filter, a: seq<Member>, b: seq<Member>)
    requires f.counts != []
    ensures Counting(Counting(f, a), b) == Counting(f, a + b)
  {
    FlatAdds(a, b);
    assert f.output + Flat(a) + Flat(b) == f.output + Flat(a + b);
    var c := |f.counts| - 1;
    assert (f.counts[..c] + [f.counts[c] + |a|])[..c] == f.counts[..c];
  }

  lemma {:induction false} FlatAdds(a: seq<Member>, b: seq<Member>)
    ensures Flat(a + b) == Flat(a) + Flat(b)
  {
    if a == [] {
      assert a + b == b;
    } else {
      assert (a + b)[1..] == a[1..] + b;
      FlatAdds(a[1..], b);
    }
  }
}
