/** What the converters of linenoise/src/ConvertUTF.cpp promise together. */
module UtfTheorems {
  import opened Common
  import opened UtfCodec
  import opened UtfConvert

  // ---------------------------------------------------------------- resuming after a full target

  /** The converters whose output never raises the result while they go on. */
  predicate IsResumable(c: Converter) {
    c == From8To16 || c == From8To32 || c == From16To8 || c == From16To32
  }

  /** Code units of the source in their machine range. */
  predicate InRange(c: Converter, s: seq<nat>) {
    (c == From16To8 || c == From16To32) ==> forall i :: 0 <= i < |s| ==> s[i] < 0x1_0000
  }

  /** In the four resumable converters the branches that flag a value out of range are dead. */
  lemma NothingIsFlagged(c: Converter, mode: Mode, s: seq<nat>)
    requires IsResumable(c) && InRange(c, s) && s != [] && TakeBy(c, mode, s).Char?
    ensures var u := PutBy(c, mode, TakeBy(c, mode, s).ch);
      u.Units? ==> !u.flagged && 1 <= |u.units| <= 4
  {
    if c == From8To16 || c == From8To32 {
      AcceptedDecodesToScalar(s, TrailingBytes(s[0]) + 1);
    }
  }

  /** Room enough for whatever `s` becomes. */
  predicate Ample(s: seq<nat>, room: nat) {
    4 * |s| <= room
  }

  /** Where a call with room enough stops, every call stops, and not for room. */
  lemma HaltsAlike(c: Converter, mode: Mode, s: seq<nat>, room: nat, big: nat)
    requires IsResumable(c) && InRange(c, s) && Ample(s, big) && (s != [] ==> Halt(c, mode, s, big).Some?)
    ensures s != [] ==> Halt(c, mode, s, room) == Halt(c, mode, s, big) != Some(TargetExhausted)
  {
    if s != [] && TakeBy(c, mode, s).Char? {
      NothingIsFlagged(c, mode, s);
      if c == From8To16 || c == From8To32 {
        AcceptedDecodesToScalar(s, TrailingBytes(s[0]) + 1);
      }
    }
  }

  lemma HaltsForRoom(c: Converter, mode: Mode, s: seq<nat>, room: nat)
    requires s != [] && TakeBy(c, mode, s).Char? && PutBy(c, mode, TakeBy(c, mode, s).ch).Units?
    requires PutBy(c, mode, TakeBy(c, mode, s).ch).units != []
    ensures Halt(c, mode, s, room) ==
            if room < |PutBy(c, mode, TakeBy(c, mode, s).ch).units| then Some(TargetExhausted) else None
  {
    hide TakeBy, PutBy;
  }

  /**
    A call that stops with a full target has converted the part of the source it consumed as a
    call with room enough would have, and the rest can be converted by a further call; a call that
    stops for any other reason has done what a call with room enough does.
   */
  lemma {:induction false} Resume(c: Converter, mode: Mode, s: seq<nat>, room: nat, big: nat)
    requires IsResumable(c) && InRange(c, s) && Ample(s, big)
    ensures var o, whole := Convert(c, mode, s, room, ConversionOK), Convert(c, mode, s, big, ConversionOK);
      && whole.result != TargetExhausted && |o.written| <= 4 * o.consumed
      && whole == if o.result != TargetExhausted then o
                  else Prepend(o.consumed, o.written,
                      Convert(c, mode, s[o.consumed..], big - |o.written|, ConversionOK))
    decreases |s|, 1
  {
    hide Convert, Halt;
    if s == [] || Halt(c, mode, s, big).Some? {
      HaltsAlike(c, mode, s, room, big);
      ConvertStops(c, mode, s, room, ConversionOK);
      ConvertStops(c, mode, s, big, ConversionOK);
    } else {
      NotHalted(c, mode, s, big);
      NothingIsFlagged(c, mode, s);
      hide TakeBy, PutBy;
      var n, units := TakeBy(c, mode, s).n, PutBy(c, mode, TakeBy(c, mode, s).ch).units;
      ConvertRound(c, mode, s, big, ConversionOK, n, units, false);
      HaltsForRoom(c, mode, s, room);
      if |units| <= room {
        ConvertRound(c, mode, s, room, ConversionOK, n, units, false);
        ResumeAfter(c, mode, s, room, big, n, units);
      } else {
        ConvertStops(c, mode, s, room, ConversionOK);
        ResumeAfter(c, mode, s, big, big, n, units);
        PrependNothing(Convert(c, mode, s, big, ConversionOK));
      }
    }
  }

  lemma PrependNothing(o: Out)
    ensures Prepend(0, [], o) == o
  {
    assert [] + o.written == o.written;
  }

  lemma {:induction false} ResumeAfter(c: Converter, mode: Mode, s: seq<nat>, room: nat, big: nat, n: nat,
      units: seq<nat>)
    requires IsResumable(c) && InRange(c, s) && Ample(s, big) && 0 < n <= |s| && |units| <= 4 && |units| <= room
    ensures Ample(s[n..], big - |units|)
    ensures var o := Prepend(n, units, Convert(c, mode, s[n..], room - |units|, ConversionOK));
      var whole := Prepend(n, units, Convert(c, mode, s[n..], big - |units|, ConversionOK));
      && whole.result != TargetExhausted && |o.written| <= 4 * o.consumed
      && whole == if o.result != TargetExhausted then o
                  else Prepend(o.consumed, o.written,
                      Convert(c, mode, s[o.consumed..], big - |o.written|, ConversionOK))
    decreases |s|, 0
  {
    hide TakeBy, PutBy, Convert;
    Resume(c, mode, s[n..], room - |units|, big - |units|);
    var rest := Convert(c, mode, s[n..], room - |units|, ConversionOK);
    assert s[n..][rest.consumed..] == s[n + rest.consumed..];
    PrependTwice(n, units, rest.consumed, rest.written,
                 Convert(c, mode, s[n + rest.consumed..], big - |units| - |rest.written|, ConversionOK));
  }

  /** Calls one after the other, each with a fresh target, for as long as the target is what stops them. */
  function CallInTurn(c: Converter, mode: Mode, s: seq<nat>, rooms: seq<nat>): Out
    decreases |rooms|
  {
    if rooms == [] then Out(TargetExhausted, 0, [])
    else
      var o := Convert(c, mode, s, rooms[0], ConversionOK);
      if o.result != TargetExhausted then o
      else Prepend(o.consumed, o.written, CallInTurn(c, mode, s[o.consumed..], rooms[1..]))
  }

  /** However the targets cut the output, the pieces are those of one call with room enough. */
  lemma {:induction false} CallsMakeOneCall(c: Converter, mode: Mode, s: seq<nat>, rooms: seq<nat>, big: nat)
    requires IsResumable(c) && InRange(c, s) && Ample(s, big)
    requires CallInTurn(c, mode, s, rooms).result != TargetExhausted
    ensures CallInTurn(c, mode, s, rooms) == Convert(c, mode, s, big, ConversionOK)
    decreases |rooms|
  {
    hide Convert;
    Resume(c, mode, s, rooms[0], big);
    var o := Convert(c, mode, s, rooms[0], ConversionOK);
    if o.result == TargetExhausted {
      CallsMakeOneCall(c, mode, s[o.consumed..], rooms[1..], big - |o.written|);
    }
  }

  /** The one place where a converter must look past a character: a high surrogate it lets through on its own. */
  predicate OnBoundary(c: Converter, s: seq<nat>, k: nat)
    requires k <= |s|
  {
    (c == From16To8 || c == From16To32) && 0 < k ==> !IsHigh(s[k - 1])
  }

  /**
    Whatever stops a call, what was written is the conversion of what was consumed, and of nothing more,
    exactly if the consumed part does not end in a high surrogate.
   */
  lemma {:induction false} WrittenIsConsumed(c: Converter, mode: Mode, s: seq<nat>, room: nat, big: nat)
    requires IsResumable(c) && InRange(c, s) && Ample(s, big)
    ensures var o := Convert(c, mode, s, room, ConversionOK);
      (Convert(c, mode, s[..o.consumed], big, ConversionOK) == Out(ConversionOK, o.consumed, o.written)
       <==> OnBoundary(c, s, o.consumed))
    decreases |s|
  {
    hide Convert, Halt, TakeBy, PutBy;
    if s == [] || Halt(c, mode, s, room).Some? {
      ConvertStops(c, mode, s, room, ConversionOK);
      ConvertStops(c, mode, [], big, ConversionOK);
    } else {
      NotHalted(c, mode, s, room);
      NothingIsFlagged(c, mode, s);
      var n, units := TakeBy(c, mode, s).n, PutBy(c, mode, TakeBy(c, mode, s).ch).units;
      ConvertRound(c, mode, s, room, ConversionOK, n, units, false);
      WrittenIsConsumed(c, mode, s[n..], room - |units|, big - |units|);
      var o := Convert(c, mode, s[n..], room - |units|, ConversionOK);
      OneMoreConsumed(c, mode, s, n, units, o, big);
    }
  }

  /**
    In strict mode no call stops behind a lone high surrogate, so there what was written always is what
    was consumed.
   */
  lemma {:induction false} StrictIsOnBoundary(c: Converter, s: seq<nat>, room: nat)
    requires IsResumable(c) && InRange(c, s)
    ensures OnBoundary(c, s, Convert(c, Strict, s, room, ConversionOK).consumed)
    decreases |s|
  {
    hide Convert, Halt;
    if s == [] || Halt(c, Strict, s, room).Some? {
      ConvertStops(c, Strict, s, room, ConversionOK);
    } else {
      NotHalted(c, Strict, s, room);
      NothingIsFlagged(c, Strict, s);
      hide PutBy;
      var n, units := TakeBy(c, Strict, s).n, PutBy(c, Strict, TakeBy(c, Strict, s).ch).units;
      ConvertRound(c, Strict, s, room, ConversionOK, n, units, false);
      StrictIsOnBoundary(c, s[n..], room - |units|);
    }
  }

  /** In lenient mode one does: with room for one unit, a lone high surrogate in front of a letter. */
  lemma LenientStopsInside()
    ensures var s, o := [0xD800, 0x41], Convert(From16To32, Lenient, [0xD800, 0x41], 1, ConversionOK);
      && o == Out(TargetExhausted, 1, [0xD800]) && !OnBoundary(From16To32, s, o.consumed)
      && Convert(From16To32, Lenient, s[..1], 8, ConversionOK) == Out(SourceExhausted, 0, [])
  {
    var s := [0xD800, 0x41];
    assert s[1..] == [0x41] && s[..1] == [0xD800];
    ConvertRound(From16To32, Lenient, s, 1, ConversionOK, 1, [0xD800], false);
    ConvertStops(From16To32, Lenient, [0x41], 0, ConversionOK);
    ConvertStops(From16To32, Lenient, [0xD800], 8, ConversionOK);
    assert [0xD800] + [] == [0xD800];
  }

  /**
    At `i` stands a high surrogate without its partner, and a call could stop right behind it: there is
    a further unit, which is not itself a high surrogate at the end.
   */
  predicate LoneAt(s: seq<nat>, i: nat) {
    && i + 1 < |s| && IsHigh(s[i]) && !IsLow(s[i + 1])
    && (IsHigh(s[i + 1]) ==> i + 2 < |s|)
  }

  predicate HasLone(s: seq<nat>) {
    exists i :: 0 <= i < |s| && LoneAt(s, i)
  }

  lemma LoneFurtherOn(s: seq<nat>, n: nat, i: nat)
    requires n <= i < |s|
    ensures LoneAt(s[n..], i - n) <==> LoneAt(s, i)
  {
    assert |s[n..]| == |s| - n && s[n..][i - n] == s[i];
    assert i + 1 < |s| ==> s[n..][i - n + 1] == s[i + 1];
  }

  lemma NoLoneFurtherOn(s: seq<nat>, n: nat)
    requires n <= |s| && !HasLone(s)
    ensures !HasLone(s[n..])
  {
    forall i | 0 <= i < |s[n..]| ensures !LoneAt(s[n..], i) {
      LoneFurtherOn(s, n, i + n);
    }
  }

  predicate ReadsUtf16(c: Converter) {
    c == From16To8 || c == From16To32
  }

  /** What a lenient reader of UTF-16 does in front of `s`. */
  lemma LenientTakes(c: Converter, s: seq<nat>)
    requires ReadsUtf16(c) && InRange(c, s) && s != []
    ensures var t := TakeBy(c, Lenient, s);
      if |s| == 1 && IsHigh(s[0]) then t.Exhausted?
      else t.Char? && t.n == (if |s| > 1 && IsHigh(s[0]) && IsLow(s[1]) then 2 else 1)
           && PutBy(c, Lenient, t.ch).Units? && !PutBy(c, Lenient, t.ch).flagged
           && 1 <= |PutBy(c, Lenient, t.ch).units|
    ensures IsHigh(s[0]) ==> !IsLow(s[0])
  {
  }

  /** A call stops in front of `s` for want of room exactly if there is none for the character it reads. */
  lemma StopsForRoom(c: Converter, s: seq<nat>, room: nat)
    requires ReadsUtf16(c) && InRange(c, s)
    ensures s == [] || Halt(c, Lenient, s, room).Some? ==>
      (Convert(c, Lenient, s, room, ConversionOK).result == TargetExhausted ==> s != [] && TakeBy(c, Lenient, s).Char?)
    ensures s != [] && TakeBy(c, Lenient, s).Char?
        ==> Convert(c, Lenient, s, 0, ConversionOK) == Out(TargetExhausted, 0, [])
  {
    hide Convert;
    if s != [] {
      LenientTakes(c, s);
    }
    hide TakeBy, PutBy;
    ConvertStopsWithoutRoom(c, s);
    if s == [] || Halt(c, Lenient, s, room).Some? {
      ConvertStops(c, Lenient, s, room, ConversionOK);
    }
  }

  lemma ConvertStopsWithoutRoom(c: Converter, s: seq<nat>)
    requires s != [] && TakeBy(c, Lenient, s).Char? ==> PutBy(c, Lenient, TakeBy(c, Lenient, s).ch).Units?
    ensures s != [] && TakeBy(c, Lenient, s).Char?
        ==> Convert(c, Lenient, s, 0, ConversionOK) == Out(TargetExhausted, 0, [])
  {
    hide TakeBy, PutBy, Convert;
    if s != [] && TakeBy(c, Lenient, s).Char? {
      ConvertStops(c, Lenient, s, 0, ConversionOK);
    }
  }

  /** Without such a surrogate every call stops on a boundary. */
  lemma {:induction false} LenientIsOnBoundary(c: Converter, s: seq<nat>, room: nat)
    requires ReadsUtf16(c) && InRange(c, s) && !HasLone(s)
    ensures var o := Convert(c, Lenient, s, room, ConversionOK);
      o.result == TargetExhausted ==> OnBoundary(c, s, o.consumed)
    decreases |s|
  {
    hide Convert, Halt, TakeBy, PutBy, HasLone;
    if s == [] || Halt(c, Lenient, s, room).Some? {
      ConvertStops(c, Lenient, s, room, ConversionOK);
    } else {
      NotHalted(c, Lenient, s, room);
      LenientTakes(c, s);
      var n, units := TakeBy(c, Lenient, s).n, PutBy(c, Lenient, TakeBy(c, Lenient, s).ch).units;
      ConvertRound(c, Lenient, s, room, ConversionOK, n, units, false);
      NoLoneFurtherOn(s, n);
      LenientIsOnBoundary(c, s[n..], room - |units|);
      BoundaryGoesOn(c, s, n, room - |units|);
    }
  }

  lemma BoundaryGoesOn(c: Converter, s: seq<nat>, n: nat, room: nat)
    requires ReadsUtf16(c) && InRange(c, s) && !HasLone(s) && s != []
    requires TakeBy(c, Lenient, s).Char? && n == TakeBy(c, Lenient, s).n
    requires var o := Convert(c, Lenient, s[n..], room, ConversionOK);
      o.result == TargetExhausted ==> OnBoundary(c, s[n..], o.consumed)
    ensures var o := Convert(c, Lenient, s[n..], room, ConversionOK);
      o.result == TargetExhausted ==> OnBoundary(c, s, n + o.consumed)
  {
    hide Convert, Halt, PutBy;
    var o := Convert(c, Lenient, s[n..], room, ConversionOK);
    LenientTakes(c, s);
    assert !LoneAt(s, 0);
    hide TakeBy;
    if o.consumed > 0 {
      assert s[n..][o.consumed - 1] == s[n + o.consumed - 1];
    } else {
      ConsumedNothing(c, s[n..], room);
      StopsForRoom(c, s[n..], room);
      if n < |s| {
        assert s[n..][0] == s[n];
        LenientTakes(c, s[n..]);
      }
    }
  }

  lemma ConsumedNothing(c: Converter, s: seq<nat>, room: nat)
    requires ReadsUtf16(c) && InRange(c, s) && Convert(c, Lenient, s, room, ConversionOK).consumed == 0
    ensures s == [] || Halt(c, Lenient, s, room).Some?
  {
    hide Convert, Halt, TakeBy, PutBy;
    if s != [] && Halt(c, Lenient, s, room).None? {
      NotHalted(c, Lenient, s, room);
      ConvertRound(c, Lenient, s, room, ConversionOK, TakeBy(c, Lenient, s).n,
                   PutBy(c, Lenient, TakeBy(c, Lenient, s).ch).units,
                       PutBy(c, Lenient, TakeBy(c, Lenient, s).ch).flagged);
    }
  }

  /** With one, some target makes a call stop right behind it. */
  lemma {:induction false} LoneIsStoppedBehind(c: Converter, s: seq<nat>, i: nat) returns (room: nat)
    requires ReadsUtf16(c) && InRange(c, s) && LoneAt(s, i)
    ensures var o := Convert(c, Lenient, s, room, ConversionOK);
      o.result == TargetExhausted && o.consumed == i + 1 && !OnBoundary(c, s, o.consumed)
    decreases |s|
  {
    hide Convert, Halt, TakeBy, PutBy;
    LenientTakes(c, s);
    var n, units := TakeBy(c, Lenient, s).n, PutBy(c, Lenient, TakeBy(c, Lenient, s).ch).units;
    if i == 0 {
      room := |units|;
      LenientTakes(c, s[1..]);
      StopsForRoom(c, s[1..], 0);
    } else {
      LoneFurtherOn(s, n, i);
      var rest := LoneIsStoppedBehind(c, s[n..], i - n);
      room := |units| + rest;
    }
    RoomGoesRound(c, s, room);
    ConvertRound(c, Lenient, s, room, ConversionOK, n, units, false);
  }

  lemma RoomGoesRound(c: Converter, s: seq<nat>, room: nat)
    requires s != [] && TakeBy(c, Lenient, s).Char? && PutBy(c, Lenient, TakeBy(c, Lenient, s).ch).Units?
    requires 1 <= |PutBy(c, Lenient, TakeBy(c, Lenient, s).ch).units| <= room
    ensures Halt(c, Lenient, s, room).None?
  {
    hide TakeBy, PutBy;
  }

  /** If a full target stops the call, what was written is the conversion of what was consumed. */
  predicate CutsCleanly(c: Converter, mode: Mode, s: seq<nat>, room: nat, big: nat) {
    var o := Convert(c, mode, s, room, ConversionOK);
    o.result == TargetExhausted ==>
      Convert(c, mode, s[..o.consumed], big, ConversionOK) == Out(ConversionOK, o.consumed, o.written)
  }

  /** In strict mode, and from UTF-8, that holds for every target, and also of a call that meets an error. */
  lemma StrictCutsCleanly(c: Converter, mode: Mode, s: seq<nat>, room: nat, big: nat)
    requires IsResumable(c) && InRange(c, s) && Ample(s, big) && (ReadsUtf16(c) ==> mode == Strict)
    ensures CutsCleanly(c, mode, s, room, big)
    ensures var o := Convert(c, mode, s, room, ConversionOK);
      Convert(c, mode, s[..o.consumed], big, ConversionOK) == Out(ConversionOK, o.consumed, o.written)
  {
    hide Convert;
    WrittenIsConsumed(c, mode, s, room, big);
    if ReadsUtf16(c) {
      StrictIsOnBoundary(c, s, room);
    }
  }

  /** In lenient mode, from UTF-16, it holds for every target if and only if no such surrogate is in the source. */
  lemma LenientCutsCleanlyIff(c: Converter, s: seq<nat>, big: nat)
    requires ReadsUtf16(c) && InRange(c, s) && Ample(s, big)
    ensures (forall room: nat :: CutsCleanly(c, Lenient, s, room, big)) <==> !HasLone(s)
  {
    hide Convert, OnBoundary, LoneAt;
    if HasLone(s) {
      var i :| 0 <= i < |s| && LoneAt(s, i);
      var room := LoneIsStoppedBehind(c, s, i);
      WrittenIsConsumed(c, Lenient, s, room, big);
      assert !CutsCleanly(c, Lenient, s, room, big);
    } else {
      forall room: nat ensures CutsCleanly(c, Lenient, s, room, big) {
        LenientIsOnBoundary(c, s, room);
        WrittenIsConsumed(c, Lenient, s, room, big);
      }
    }
  }

  /** The whole of `s` is converted, into `written`. */
  predicate Gives(c: Converter, mode: Mode, s: seq<nat>, room: nat, written: seq<nat>) {
    Convert(c, mode, s, room, ConversionOK) == Out(ConversionOK, |s|, written)
  }

  lemma OneMoreConsumed(c: Converter, mode: Mode, s: seq<nat>, n: nat, units: seq<nat>, o: Out, big: nat)
    requires IsResumable(c) && InRange(c, s) && Ample(s, big) && s != []
    requires TakeBy(c, mode, s).Char? && n == TakeBy(c, mode, s).n
    requires PutBy(c, mode, TakeBy(c, mode, s).ch) == Units(units, false) && |units| <= 4 && 1 <= |units|
    requires n + o.consumed <= |s|
    requires Gives(c, mode, s[n..][..o.consumed], big - |units|, o.written) <==> OnBoundary(c, s[n..], o.consumed)
    ensures Gives(c, mode, s[..n + o.consumed], big, units + o.written) <==> OnBoundary(c, s, n + o.consumed)
  {
    hide Convert;
    if n + o.consumed == 1 && IsHigh(s[0]) && (c == From16To8 || c == From16To32) {
      ConvertStops(c, mode, s[..1], big, ConversionOK);
    } else {
      BoundaryMoves(c, mode, s, n, o.consumed);
      TakeIsLocal(c, mode, s, n + o.consumed);
      ConvertPrefix(c, mode, s, n, units, o, big);
    }
  }

  lemma ConvertPrefix(c: Converter, mode: Mode, s: seq<nat>, n: nat, units: seq<nat>, o: Out, big: nat)
    requires s != [] && 1 <= |units| <= big && 0 < n && n + o.consumed <= |s|
    requires TakeBy(c, mode, s[..n + o.consumed]).Char? && TakeBy(c, mode, s[..n + o.consumed]).n == n
    requires PutBy(c, mode, TakeBy(c, mode, s[..n + o.consumed]).ch) == Units(units, false)
    ensures Gives(c, mode, s[..n + o.consumed], big, units + o.written)
       <==> Gives(c, mode, s[n..][..o.consumed], big - |units|, o.written)
  {
    hide Convert, TakeBy, PutBy, Prepend;
    var t := s[..n + o.consumed];
    assert t[n..] == s[n..][..o.consumed];
    ConvertRound(c, mode, t, big, ConversionOK, n, units, false);
    PrependCancels(n, units, Convert(c, mode, t[n..], big - |units|, ConversionOK), o);
  }

  lemma PrependCancels(n: nat, units: seq<nat>, rest: Out, o: Out)
    ensures Prepend(n, units, rest) == Out(ConversionOK, n + o.consumed, units + o.written)
            <==> rest == Out(ConversionOK, o.consumed, o.written)
  {
    assert (units + rest.written)[|units|..] == rest.written && (units + o.written)[|units|..] == o.written;
  }

  lemma BoundaryMoves(c: Converter, mode: Mode, s: seq<nat>, n: nat, k: nat)
    requires IsResumable(c) && s != [] && TakeBy(c, mode, s).Char? && n == TakeBy(c, mode, s).n && n + k <= |s|
    requires (c == From16To8 || c == From16To32) ==> n + k > 1 || !IsHigh(s[0])
    ensures OnBoundary(c, s, n + k) <==> OnBoundary(c, s[n..], k)
  {
    if 0 < k {
      assert s[n..][k - 1] == s[n + k - 1];
    }
  }

  /** A character is read from its own units, but for the look behind a lone high surrogate. */
  lemma TakeIsLocal(c: Converter, mode: Mode, s: seq<nat>, k: nat)
    requires IsResumable(c) && s != [] && TakeBy(c, mode, s).Char? && TakeBy(c, mode, s).n <= k <= |s|
    requires (c == From16To8 || c == From16To32) ==> k > 1 || !IsHigh(s[0])
    ensures TakeBy(c, mode, s[..k]) == TakeBy(c, mode, s)
  {
  }

  // ---------------------------------------------------------------- round trips

  predicate AllScalar(s: seq<nat>) {
    forall i :: 0 <= i < |s| ==> IsScalar(s[i])
  }

  /** The UTF-8 of a sequence of scalar values. */
  function EncodeAll(s: seq<nat>): seq<nat>
    requires AllScalar(s)
  {
    if s == [] then [] else Bytes(s[0]) + EncodeAll(s[1..])
  }

  lemma TakesItsBytes(ch: nat, rest: seq<nat>)
    requires IsScalar(ch)
    ensures Take8(Bytes(ch) + rest) == Char(ch, |Bytes(ch)|)
  {
    EncodeThenDecode(ch);
    hide Bytes;
    TakeOfPrefix(Bytes(ch), rest);
  }

  lemma TakeOfPrefix(s: seq<nat>, rest: seq<nat>)
    requires s != [] && TrailingBytes(s[0]) + 1 == |s| && IsLegal(s, |s|)
    ensures Take8(s + rest) == Char(Decode8(s, |s|), |s|)
  {
    assert IsLegal(s + rest, |s|) && Decode8(s + rest, |s|) == Decode8(s, |s|);
  }

  lemma {:induction false} ConvertEncodes(mode: Mode, s: seq<nat>, room: nat)
    requires AllScalar(s) && |EncodeAll(s)| <= room
    ensures Convert(From32To8, mode, s, room, ConversionOK) == Out(ConversionOK, |s|, EncodeAll(s))
    decreases |s|
  {
    if s == [] {
    } else {
      hide Convert, Bytes;
      ConvertRound(From32To8, mode, s, room, ConversionOK, 1, Bytes(s[0]), false);
      ConvertEncodes(mode, s[1..], room - |Bytes(s[0])|);
    }
  }

  lemma NothingDecodes(mode: Mode, room: nat)
    ensures EncodeAll([]) == []
    ensures Convert(From8To32, mode, [], room, ConversionOK) == Out(ConversionOK, 0, [])
  {
  }

  lemma {:induction false} ConvertDecodes(mode: Mode, s: seq<nat>, room: nat)
    requires AllScalar(s) && |s| <= room
    ensures Convert(From8To32, mode, EncodeAll(s), room, ConversionOK) == Out(ConversionOK, |EncodeAll(s)|, s)
    decreases |s|
  {
    hide Convert, Bytes, EncodeAll, Prepend, IsScalar;
    if s == [] {
      NothingDecodes(mode, room);
    } else {
      OneEncoded(s);
      DecodeRound(mode, s[0], EncodeAll(s[1..]), room);
      ConvertDecodes(mode, s[1..], room - 1);
    }
  }

  lemma OneEncoded(s: seq<nat>)
    requires AllScalar(s) && s != []
    ensures EncodeAll(s) == Bytes(s[0]) + EncodeAll(s[1..])
    ensures Prepend(|Bytes(s[0])|, [s[0]], Out(ConversionOK, |EncodeAll(s[1..])|, s[1..]))
        == Out(ConversionOK, |EncodeAll(s)|, s)
  {
    hide Bytes;
    assert [s[0]] + s[1..] == s;
  }

  lemma DecodeRound(mode: Mode, ch: nat, rest: seq<nat>, room: nat)
    requires IsScalar(ch) && 1 <= room
    ensures Convert(From8To32, mode, Bytes(ch) + rest, room, ConversionOK) ==
            Prepend(|Bytes(ch)|, [ch], Convert(From8To32, mode, rest, room - 1, ConversionOK))
  {
    hide Convert, Bytes, Take8;
    TakesItsBytes(ch, rest);
    ConvertRound(From8To32, mode, Bytes(ch) + rest, room, ConversionOK, |Bytes(ch)|, [ch], false);
    assert (Bytes(ch) + rest)[|Bytes(ch)|..] == rest;
  }

  /** UTF-32 to UTF-8 and back is the identity on every sequence of scalar values, given room. */
  lemma ScalarsReturn(mode: Mode, back: Mode, s: seq<nat>, room8: nat, room32: nat)
    requires AllScalar(s) && |EncodeAll(s)| <= room8 && |s| <= room32
    ensures var o := Convert(From32To8, mode, s, room8, ConversionOK);
      && o.result == ConversionOK && o.consumed == |s|
      && Convert(From8To32, back, o.written, room32, ConversionOK) == Out(ConversionOK, |o.written|, s)
  {
    hide Convert;
    ConvertEncodes(mode, s, room8);
    ConvertDecodes(back, s, room32);
  }

  /** A text of well-formed characters. */
  predicate WellFormedText(b: seq<nat>)
    decreases |b|
  {
    b == [] ||
    var n := TrailingBytes(b[0]) + 1;
    n <= |b| && WellFormed(b[..n]) && WellFormedText(b[n..])
  }

  /** One round of `ConvertUTF8toUTF32` on an accepted character. */
  lemma Round8To32(mode: Mode, b: seq<nat>, room: nat, n: nat, ch: nat)
    requires b != [] && Take8(b) == Char(ch, n) && 1 <= room
    ensures n == TrailingBytes(b[0]) + 1 <= |b| && IsScalar(ch) && |Bytes(ch)| == n
    ensures Bytes(ch) == b[..n] <==> WellFormed(b[..n])
    ensures Convert(From8To32, mode, b, room, ConversionOK) ==
            Prepend(n, [ch], Convert(From8To32, mode, b[n..], room - 1, ConversionOK))
  {
    hide Convert;
    CharacterReturns(b, n);
    ConvertRound(From8To32, mode, b, room, ConversionOK, n, [ch], false);
  }

  /** The outcome `o` of decoding `b` accepts what is well-formed, and returns it when encoded. */
  predicate ReturnsIffWellFormed(b: seq<nat>, o: Out) {
    && AllScalar(o.written)
    && (WellFormedText(b) ==> o.result == ConversionOK)
    && (o.result == ConversionOK ==> o.consumed == |b| && (EncodeAll(o.written) == b <==> WellFormedText(b)))
  }

  lemma {:induction false} DecodedReturnsIffWellFormed(mode: Mode, b: seq<nat>, room: nat)
    requires |b| <= room
    ensures ReturnsIffWellFormed(b, Convert(From8To32, mode, b, room, ConversionOK))
    decreases |b|
  {
    hide Convert, Take8, Bytes, WellFormed, EncodeAll, ReturnsIffWellFormed;
    if b == [] || !Take8(b).Char? {
      StoppedReturns(mode, b, room);
    } else {
      var n, ch := Take8(b).n, Take8(b).ch;
      Round8To32(mode, b, room, n, ch);
      DecodedReturnsIffWellFormed(mode, b[n..], room - 1);
      TextGoesOn(b, n, ch, Convert(From8To32, mode, b[n..], room - 1, ConversionOK));
    }
  }

  lemma {:induction false} FourBytesEach(s: seq<nat>)
    requires AllScalar(s)
    ensures |EncodeAll(s)| <= 4 * |s|
    decreases |s|
  {
    hide Bytes;
    if s != [] {
      FourBytesEach(s[1..]);
    }
  }

  /**
    UTF-8 to UTF-32 and back: every well-formed text is accepted, and an accepted text comes back
    from the second converter, whole and without error, if and only if it is well-formed.
   */
  lemma TextReturnsIffWellFormed(mode: Mode, back: Mode, b: seq<nat>, room32: nat, room8: nat)
    requires |b| <= room32 && 4 * |Convert(From8To32, mode, b, room32, ConversionOK).written| <= room8
    ensures var o := Convert(From8To32, mode, b, room32, ConversionOK);
      var r := Convert(From32To8, back, o.written, room8, ConversionOK);
      && (WellFormedText(b) ==> o.result == ConversionOK)
      && (o.result == ConversionOK ==>
            && o.consumed == |b| && r.result == ConversionOK && r.consumed == |o.written|
            && (r.written == b <==> WellFormedText(b)))
  {
    hide Convert, EncodeAll;
    DecodedReturnsIffWellFormed(mode, b, room32);
    var o := Convert(From8To32, mode, b, room32, ConversionOK);
    FourBytesEach(o.written);
    ConvertEncodes(back, o.written, room8);
  }

  lemma TextGoesOn(b: seq<nat>, n: nat, ch: nat, o: Out)
    requires b != [] && n == TrailingBytes(b[0]) + 1 <= |b| && IsScalar(ch)
    requires |Bytes(ch)| == n && (Bytes(ch) == b[..n] <==> WellFormed(b[..n]))
    requires ReturnsIffWellFormed(b[n..], o)
    ensures ReturnsIffWellFormed(b, Prepend(n, [ch], o))
  {
    hide Bytes, WellFormed;
    if o.result == ConversionOK {
      EncodeAllOfPrepended(b, n, ch, o.written);
    }
  }

  lemma StoppedReturns(mode: Mode, b: seq<nat>, room: nat)
    requires |b| <= room && (b == [] || !Take8(b).Char?)
    ensures ReturnsIffWellFormed(b, Convert(From8To32, mode, b, room, ConversionOK))
  {
    hide Convert, Take8, Bytes, WellFormed;
    TextStops(mode, b, room);
  }

  lemma TextStops(mode: Mode, b: seq<nat>, room: nat)
    requires |b| <= room && (b == [] || !Take8(b).Char?)
    ensures var o := Convert(From8To32, mode, b, room, ConversionOK);
      o.consumed == 0 && o.written == [] && (o.result == ConversionOK <==> b == []) && (WellFormedText(b) <==> b == [])
  {
    ConvertStops(From8To32, mode, b, room, ConversionOK);
    if b != [] {
      HaltIsNotWellFormed(mode, b, room);
    }
  }

  lemma HaltIsNotWellFormed(mode: Mode, b: seq<nat>, room: nat)
    requires b != [] && |b| <= room && Halt(From8To32, mode, b, room).Some?
    ensures !WellFormedText(b) && Halt(From8To32, mode, b, room) != Some(ConversionOK)
  {
    var n := TrailingBytes(b[0]) + 1;
    if n <= |b| && IsLegal(b, n) {
      AcceptedDecodesToScalar(b, n);
    } else if n <= |b| {
      LegalIsAlmostWellFormed(b[..n]);
    }
  }

  /** `DecodeThenEncode` for a character that has a text behind it. */
  lemma CharacterReturns(b: seq<nat>, n: nat)
    requires b != [] && n == TrailingBytes(b[0]) + 1 <= |b| && IsLegal(b, n)
    ensures IsScalar(Decode8(b, n)) && |Bytes(Decode8(b, n))| == n
    ensures Bytes(Decode8(b, n)) == b[..n] <==> WellFormed(b[..n])
  {
    AcceptedDecodesToScalar(b, n);
    assert IsLegal(b[..n], n) && Decode8(b[..n], n) == Decode8(b, n);
    DecodeThenEncode(b[..n]);
  }

  lemma EncodeAllOfPrepended(b: seq<nat>, n: nat, ch: nat, rest: seq<nat>)
    requires b != [] && n == TrailingBytes(b[0]) + 1 <= |b| && IsScalar(ch) && AllScalar(rest)
    requires |Bytes(ch)| == n && (Bytes(ch) == b[..n] <==> WellFormed(b[..n]))
    requires EncodeAll(rest) == b[n..] <==> WellFormedText(b[n..])
    ensures AllScalar([ch] + rest) && (EncodeAll([ch] + rest) == b <==> WellFormedText(b))
  {
    hide Bytes, WellFormed;
    assert ([ch] + rest)[1..] == rest;
    var all := Bytes(ch) + EncodeAll(rest);
    assert all[..n] == Bytes(ch) && all[n..] == EncodeAll(rest);
    assert b == b[..n] + b[n..];
  }

  // ---------------------------------------------------------------- factoring

  /** The UTF-16 of a scalar value. */
  function Units16(ch: nat): (units: seq<nat>)
    requires IsScalar(ch)
    ensures 1 <= |units| <= 2 && |units| <= Length8(ch)
    ensures forall mode :: Put16(mode, ch) == Units(units, false) && Put16From32(mode, ch) == Units(units, false)
  {
    if ch <= MAX_BMP then [ch] else Halves(ch)
  }

  /**
    On every byte sequence, malformed ones included, and with room enough, `ConvertUTF8toUTF16`
    does what `ConvertUTF8toUTF32` followed by `ConvertUTF32toUTF16` does.
   */
  lemma {:induction false} Factoring(mode: Mode, b: seq<nat>, room16: nat, room32: nat, room: nat)
    requires |b| <= room16 && |b| <= room32 && 2 * |b| <= room
    ensures var o16, o32 := Convert(From8To16, mode, b, room16, ConversionOK),
        Convert(From8To32, mode, b, room32, ConversionOK);
      && o16.result == o32.result && o16.consumed == o32.consumed && |o32.written| <= |b| && AllScalar(o32.written)
      && Convert(From32To16, mode, o32.written, room, ConversionOK) == Out(ConversionOK, |o32.written|, o16.written)
    decreases |b|
  {
    hide Convert;
    if b == [] || !Take8(b).Char? {
      ConvertStops(From8To16, mode, b, room16, ConversionOK);
      ConvertStops(From8To32, mode, b, room32, ConversionOK);
      ConvertStops(From32To16, mode, [], room, ConversionOK);
    } else {
      hide Take8, Units16, Bytes, WellFormed;
      var n, ch := Take8(b).n, Take8(b).ch;
      Round8To32(mode, b, room32, n, ch);
      var units := Units16(ch);
      Round8To16(mode, b, room16, n, ch);
      Factoring(mode, b[n..], room16 - |units|, room32 - 1, room - |units|);
      Round32To16(mode, ch, Convert(From8To32, mode, b[n..], room32 - 1, ConversionOK).written, room);
    }
  }

  lemma Round8To16(mode: Mode, b: seq<nat>, room: nat, n: nat, ch: nat)
    requires b != [] && Take8(b) == Char(ch, n) && |b| <= room && IsScalar(ch)
    ensures n <= |b| && |Units16(ch)| <= n
    ensures Convert(From8To16, mode, b, room, ConversionOK) ==
            Prepend(n, Units16(ch), Convert(From8To16, mode, b[n..], room - |Units16(ch)|, ConversionOK))
  {
    hide Convert;
    AcceptedDecodesToScalar(b, n);
    ConvertRound(From8To16, mode, b, room, ConversionOK, n, Units16(ch), false);
  }

  lemma Round32To16(mode: Mode, ch: nat, rest: seq<nat>, room: nat)
    requires IsScalar(ch) && 2 <= room
    ensures Convert(From32To16, mode, [ch] + rest, room, ConversionOK) ==
            Prepend(1, Units16(ch), Convert(From32To16, mode, rest, room - |Units16(ch)|, ConversionOK))
  {
    hide Convert;
    assert ([ch] + rest)[1..] == rest;
    ConvertRound(From32To16, mode, [ch] + rest, room, ConversionOK, 1, Units16(ch), false);
  }
}
