/**
  The conversion loops of linenoise/src/ConvertUTF.cpp.  `Convert` says once what a loop does
  with a source buffer and a bounded target, whatever the two encoding forms are; each of the
  six converters is a method proved to do that for its own forms.
 */
module UtfConvert {
  import opened Common
  import opened UtfCodec

  datatype Result = ConversionOK | SourceExhausted | TargetExhausted | SourceIllegal

  datatype Converter = From8To16 | From8To32 | From16To8 | From16To32 | From32To8 | From32To16

  function TakeBy(c: Converter, mode: Mode, s: seq<nat>): (t: Take)
    ensures t.Char? ==> 0 < t.n <= |s|
  {
    match c
    case From8To16 => Take8(s)
    case From8To32 => Take8(s)
    case From16To8 => Take16(mode, s)
    case From16To32 => Take16(mode, s)
    case From32To8 => Take32To8(mode, s)
    case From32To16 => Take32(s)
  }

  function PutBy(c: Converter, mode: Mode, ch: nat): Put {
    match c
    case From8To16 => Put16(mode, ch)
    case From8To32 => Put32(mode, ch)
    case From16To8 => Put8(ch)
    case From16To32 => Put32From16(ch)
    case From32To8 => Put8(ch)
    case From32To16 => Put16From32(mode, ch)
  }

  datatype Out = Out(result: Result, consumed: nat, written: seq<nat>)

  function Prepend(n: nat, units: seq<nat>, o: Out): Out {
    Out(o.result, n + o.consumed, units + o.written)
  }

  /** The room a character needs: the loops ask for one unit even where nothing is written. */
  function Need(units: seq<nat>): nat {
    if units == [] then 1 else |units|
  }

  function Flag(flagged: bool, sofar: Result): Result {
    if flagged then SourceIllegal else sofar
  }

  /** What a loop does that stands in front of `s` with `room` left and the result `sofar`. */
  function Convert(c: Converter, mode: Mode, s: seq<nat>, room: nat, sofar: Result): (o: Out)
    ensures o.consumed <= |s| && |o.written| <= room
    decreases |s|
  {
    if s == [] then Out(sofar, 0, [])
    else match TakeBy(c, mode, s)
      case Exhausted => Out(SourceExhausted, 0, [])
      case Illegal => Out(SourceIllegal, 0, [])
      case Char(ch, n) =>
        match PutBy(c, mode, ch)
        case Refused => Out(if room == 0 then TargetExhausted else SourceIllegal, 0, [])
        case Units(units, flagged) =>
          if room < Need(units) then Out(TargetExhausted, 0, [])
          else Prepend(n, units, Convert(c, mode, s[n..], room - |units|, Flag(flagged, sofar)))
  }

  /** Why a loop stops in front of `s` with `room` left, if it does. */
  function Halt(c: Converter, mode: Mode, s: seq<nat>, room: nat): Option<Result>
    requires s != []
  {
    match TakeBy(c, mode, s)
    case Exhausted => Some(SourceExhausted)
    case Illegal => Some(SourceIllegal)
    case Char(ch, _) =>
      match PutBy(c, mode, ch)
      case Refused => Some(if room == 0 then TargetExhausted else SourceIllegal)
      case Units(units, _) => if room < Need(units) then Some(TargetExhausted) else None
  }

  // ---------------------------------------------------------------- rounds

  /** One round of a converter's loop: it stops the loop, or it reads `n` units as `ch` and writes `m`. */
  datatype Round = Halted(result: Result) | Took(ch: nat, n: nat, m: nat, flagged: bool)

  predicate SameOutside<T(==)>(before: seq<T>, after: seq<T>, start: nat, end: nat) {
    |before| == |after| && forall i :: 0 <= i < |before| && !(start <= i < end) ==> before[i] == after[i]
  }

  /** The round does to the target what the converter's forms say of the source `s`. */
  predicate RoundIs(c: Converter, mode: Mode, s: seq<nat>, room: nat, r: Round, before: seq<nat>, after: seq<nat>,
      t: nat)
    requires s != []
  {
    match r
    case Halted(result) => Halt(c, mode, s, room) == Some(result) && after == before
    case Took(ch, n, m, flagged) =>
      && m <= room && t + m <= |after| && n <= |s|
      && TakeBy(c, mode, s) == Char(ch, n)
      && PutBy(c, mode, ch) == Units(after[t..t + m], flagged) && Need(after[t..t + m]) <= room
      && SameOutside(before, after, t, t + m)
  }

  /** How a loop ends that has read `p` units, written `written` and stands in front of `s`. */
  function Finish(c: Converter, mode: Mode, s: seq<nat>, room: nat, sofar: Result, p: nat, written: seq<nat>): Out
    decreases |s|
  {
    if s == [] then Out(sofar, p, written)
    else match TakeBy(c, mode, s)
      case Exhausted => Out(SourceExhausted, p, written)
      case Illegal => Out(SourceIllegal, p, written)
      case Char(ch, n) =>
        match PutBy(c, mode, ch)
        case Refused => Out(if room == 0 then TargetExhausted else SourceIllegal, p, written)
        case Units(units, flagged) =>
          if room < Need(units) then Out(TargetExhausted, p, written)
          else Finish(c, mode, s[n..], room - |units|, Flag(flagged, sofar), p + n, written + units)
  }

  // One round of `Convert` and of `Finish`.

  lemma NotHalted(c: Converter, mode: Mode, s: seq<nat>, room: nat)
    requires s != [] && Halt(c, mode, s, room).None?
    ensures TakeBy(c, mode, s).Char? && PutBy(c, mode, TakeBy(c, mode, s).ch).Units?
  {
    hide TakeBy, PutBy;
  }

  lemma ConvertRound(c: Converter, mode: Mode, s: seq<nat>, room: nat, sofar: Result, n: nat, units: seq<nat>,
      flagged: bool)
    requires s != [] && Halt(c, mode, s, room).None? && n == TakeBy(c, mode, s).n
    requires PutBy(c, mode, TakeBy(c, mode, s).ch) == Units(units, flagged)
    ensures n <= |s| && |units| <= room
    ensures Convert(c, mode, s, room, sofar)
        == Prepend(n, units, Convert(c, mode, s[n..], room - |units|, Flag(flagged, sofar)))
  {
    hide TakeBy, PutBy;
  }

  lemma ConvertStops(c: Converter, mode: Mode, s: seq<nat>, room: nat, sofar: Result)
    requires s == [] || Halt(c, mode, s, room).Some?
    ensures Convert(c, mode, s, room, sofar) == Out(if s == [] then sofar else Halt(c, mode, s, room).value, 0, [])
  {
    hide TakeBy, PutBy;
  }

  lemma FinishRound(c: Converter, mode: Mode, s: seq<nat>, room: nat, sofar: Result, p: nat, written: seq<nat>,
                    n: nat, units: seq<nat>, flagged: bool)
    requires s != [] && Halt(c, mode, s, room).None? && n == TakeBy(c, mode, s).n
    requires PutBy(c, mode, TakeBy(c, mode, s).ch) == Units(units, flagged)
    ensures n <= |s| && |units| <= room
    ensures Finish(c, mode, s, room, sofar, p, written) ==
            Finish(c, mode, s[n..], room - |units|, Flag(flagged, sofar), p + n, written + units)
  {
    hide TakeBy, PutBy;
  }

  lemma BothStop(c: Converter, mode: Mode, s: seq<nat>, room: nat, sofar: Result, p: nat, written: seq<nat>)
    requires s == [] || Halt(c, mode, s, room).Some?
    ensures Finish(c, mode, s, room, sofar, p, written) == Prepend(p, written, Convert(c, mode, s, room, sofar))
  {
    hide TakeBy, PutBy;
    assert written + [] == written;
  }

  lemma {:induction false} FinishIsConvert(c: Converter, mode: Mode, s: seq<nat>, room: nat, sofar: Result, p: nat,
      written: seq<nat>)
    ensures Finish(c, mode, s, room, sofar, p, written) == Prepend(p, written, Convert(c, mode, s, room, sofar))
    decreases |s|
  {
    hide TakeBy, PutBy, Convert, Finish, Prepend, Halt;
    if s == [] || Halt(c, mode, s, room).Some? {
      BothStop(c, mode, s, room, sofar, p, written);
    } else {
      NotHalted(c, mode, s, room);
      var n, u := TakeBy(c, mode, s).n, PutBy(c, mode, TakeBy(c, mode, s).ch);
      ConvertRound(c, mode, s, room, sofar, n, u.units, u.flagged);
      FinishRound(c, mode, s, room, sofar, p, written, n, u.units, u.flagged);
      FinishIsConvert(c, mode, s[n..], room - |u.units|, Flag(u.flagged, sofar), p + n, written + u.units);
      PrependTwice(p, written, n, u.units, Convert(c, mode, s[n..], room - |u.units|, Flag(u.flagged, sofar)));
    }
  }

  lemma PrependTwice(p: nat, written: seq<nat>, n: nat, units: seq<nat>, rest: Out)
    ensures Prepend(p, written, Prepend(n, units, rest)) == Prepend(p + n, written + units, rest)
  {
    assert written + (units + rest.written) == written + units + rest.written;
  }

  lemma Outcome(c: Converter, mode: Mode, source: seq<nat>, room: nat) returns (whole: Out)
    ensures whole == Convert(c, mode, source, room, ConversionOK)
    ensures Finish(c, mode, source, room, ConversionOK, 0, []) == whole
  {
    whole := Convert(c, mode, source, room, ConversionOK);
    FinishIsConvert(c, mode, source, room, ConversionOK, 0, []);
    assert [] + whole.written == whole.written;
  }

  /** The state of a loop on its way to the outcome `whole`. */
  predicate Underway(c: Converter, mode: Mode, whole: Out, source: seq<nat>, p: nat, start: seq<nat>, now: seq<nat>,
                     targetStart: nat, t: nat, targetEnd: nat, sofar: Result)
  {
    && p <= |source| && targetStart <= t <= targetEnd <= |now|
    && SameOutside(start, now, targetStart, t)
    && Finish(c, mode, source[p..], targetEnd - t, sofar, p, now[targetStart..t]) == whole
  }

  lemma RoundGoesOn(c: Converter, mode: Mode, whole: Out, source: seq<nat>, p: nat, start: seq<nat>,
      before: seq<nat>, after: seq<nat>,
                    targetStart: nat, t: nat, targetEnd: nat, sofar: Result, r: Round)
    requires Underway(c, mode, whole, source, p, start, before, targetStart, t, targetEnd, sofar)
    requires p < |source| && r.Took? && RoundIs(c, mode, source[p..], targetEnd - t, r, before, after, t)
    ensures Underway(c, mode, whole, source, p + r.n, start, after, targetStart, t + r.m, targetEnd,
        Flag(r.flagged, sofar))
  {
    assert after[targetStart..t + r.m] == before[targetStart..t] + after[t..t + r.m];
    assert source[p..][r.n..] == source[p + r.n..];
  }

  lemma RoundStops(c: Converter, mode: Mode, whole: Out, source: seq<nat>, p: nat, start: seq<nat>, now: seq<nat>,
                   targetStart: nat, t: nat, targetEnd: nat, sofar: Result, result: Result)
    requires Underway(c, mode, whole, source, p, start, now, targetStart, t, targetEnd, sofar)
    requires if p == |source| then result == sofar else Halt(c, mode, source[p..], targetEnd - t) == Some(result)
    ensures whole == Out(result, p, now[targetStart..t])
  {
  }

  // ---------------------------------------------------------------- the six loops

  /** The part that both readers of UTF-8 share: one character, by the length its first byte announces. */
  method Read8(source: seq<UTF8>, p: nat) returns (r: Take)
    requires p < |source|
    ensures r == Take8(source[p..])
  {
    var extra := TrailingBytes(source[p]);
    assert source[p] == source[p..][0];
    if p + extra >= |source| {
      return Exhausted;
    }
    if !IsLegal(source[p..], extra + 1) {
      return Illegal;
    }
    var ch: int, q := 0, p;
    if extra >= 3 { ch := (ch + source[q]) * 0x40; q := q + 1; }
    if extra >= 2 { ch := (ch + source[q]) * 0x40; q := q + 1; }
    if extra >= 1 { ch := (ch + source[q]) * 0x40; q := q + 1; }
    ch := ch + source[q] - Offset(extra);
    assert ch == Decode8(source[p..], extra + 1);
    AcceptedDecodesToScalar(source[p..], extra + 1);
    return Char(ch, extra + 1);
  }

  /** The part that both readers of UTF-16 share: one character or surrogate pair. */
  method Read16(source: seq<UTF16>, p: nat, mode: Mode) returns (r: Take)
    requires p < |source|
    ensures r == Take16(mode, source[p..])
  {
    var ch: int := source[p];
    var n := 1;
    if IsHigh(ch) {
      if p + 1 < |source| {
        var ch2: int := source[p + 1];
        if IsLow(ch2) {
          ch := (ch - 0xD800) * 0x400 + (ch2 - 0xDC00) + 0x10000;
          n := n + 1;
        } else if mode == Strict {
          return Illegal;
        }
      } else {
        return Exhausted;
      }
    } else if mode == Strict {
      if IsLow(ch) {
        return Illegal;
      }
    }
    return Char(ch, n);
  }

  /** The part that both writers of UTF-8 share: the bytes of `ch` from the last to the first. */
  method Write8(target: array<UTF8>, t: nat, character: UTF32)
    requires character <= MAX_LEGAL_UTF32 && t + Length8(character) <= target.Length
    modifies target
    ensures target[t..t + Length8(character)] == Bytes(character)
    ensures SameOutside(old(target[..]), target[..], t, t + Length8(character))
  {
    var bytesToWrite := Length8(character);
    var ch, q := character, t + bytesToWrite;
    if bytesToWrite >= 4 { q := q - 1; target[q] := TailByte(ch); ch := ch / 0x40; }
    if bytesToWrite >= 3 { q := q - 1; target[q] := TailByte(ch); ch := ch / 0x40; }
    if bytesToWrite >= 2 { q := q - 1; target[q] := TailByte(ch); ch := ch / 0x40; }
    q := q - 1;
    target[q] := ch + FirstByteMark(bytesToWrite);
  }

  method Round8to32(source: seq<UTF8>, p: nat, target: array<UTF32>, t: nat, targetEnd: nat, mode: Mode)
    returns (r: Round)
    requires p < |source| && t <= targetEnd <= target.Length
    modifies target
    ensures RoundIs(From8To32, mode, source[p..], targetEnd - t, r, old(target[..]), target[..], t)
  {
    var c := Read8(source, p);
    if !c.Char? {
      return Halted(if c.Illegal? then SourceIllegal else SourceExhausted);
    }
    if t >= targetEnd {
      return Halted(TargetExhausted);
    }
    var flagged := false;
    if c.ch <= MAX_LEGAL_UTF32 {
      if IsSurrogate(c.ch) {
        if mode == Strict {
          return Halted(SourceIllegal);
        }
        target[t] := REPLACEMENT_CHAR;
      } else {
        target[t] := c.ch;
      }
    } else {
      flagged := true;
      target[t] := REPLACEMENT_CHAR;
    }
    assert target[t..t + 1] == [target[t]];
    return Took(c.ch, c.n, 1, flagged);
  }

  method ConvertUTF8toUTF32(source: seq<UTF8>, target: array<UTF32>, targetStart: nat, targetEnd: nat, mode: Mode)
    returns (result: Result, p: nat, t: nat)
    requires targetStart <= targetEnd <= target.Length
    modifies target
    ensures targetStart <= t <= targetEnd && SameOutside(old(target[..]), target[..], targetStart, t)
    ensures Convert(From8To32, mode, source, targetEnd - targetStart, ConversionOK)
        == Out(result, p, target[targetStart..t])
  {
    hide TakeBy, PutBy, Finish, Convert;
    result, p, t := ConversionOK, 0, targetStart;
    ghost var whole := Outcome(From8To32, mode, source, targetEnd - targetStart);
    ghost var sofar := result;
    assert target[..][targetStart..targetStart] == [];
    while p < |source|
      invariant p <= |source| && sofar == result
      invariant Underway(From8To32, mode, whole, source, p, old(target[..]), target[..], targetStart, t, targetEnd,
          sofar)
    {
      ghost var before := target[..];
      var r := Round8to32(source, p, target, t, targetEnd, mode);
      if r.Halted? {
        result := r.result;
        break;
      }
      RoundGoesOn(From8To32, mode, whole, source, p, old(target[..]), before, target[..], targetStart, t, targetEnd,
          sofar, r);
      if r.flagged {
        result := SourceIllegal;
      }
      p, t, sofar := p + r.n, t + r.m, Flag(r.flagged, sofar);
    }
    RoundStops(From8To32, mode, whole, source, p, old(target[..]), target[..], targetStart, t, targetEnd, sofar,
        result);
    assert target[..][targetStart..t] == target[targetStart..t];
  }

  method Round8to16(source: seq<UTF8>, p: nat, target: array<UTF16>, t: nat, targetEnd: nat, mode: Mode)
    returns (r: Round)
    requires p < |source| && t <= targetEnd <= target.Length
    modifies target
    ensures RoundIs(From8To16, mode, source[p..], targetEnd - t, r, old(target[..]), target[..], t)
  {
    var c := Read8(source, p);
    if !c.Char? {
      return Halted(if c.Illegal? then SourceIllegal else SourceExhausted);
    }
    if t >= targetEnd {
      return Halted(TargetExhausted);
    }
    if c.ch <= MAX_BMP {
      if IsSurrogate(c.ch) {
        if mode == Strict {
          return Halted(SourceIllegal);
        }
        target[t] := REPLACEMENT_CHAR;
      } else {
        target[t] := c.ch;
      }
    } else if c.ch > MAX_LEGAL_UTF32 {
      if mode == Strict {
        return Halted(SourceIllegal);
      }
      target[t] := REPLACEMENT_CHAR;
    } else {
      if t + 1 >= targetEnd {
        return Halted(TargetExhausted);
      }
      target[t] := (c.ch - 0x10000) / 0x400 + 0xD800;
      target[t + 1] := (c.ch - 0x10000) % 0x400 + 0xDC00;
      assert target[t..t + 2] == Halves(c.ch);
      return Took(c.ch, c.n, 2, false);
    }
    assert target[t..t + 1] == [target[t]];
    return Took(c.ch, c.n, 1, false);
  }

  method ConvertUTF8toUTF16(source: seq<UTF8>, target: array<UTF16>, targetStart: nat, targetEnd: nat, mode: Mode)
    returns (result: Result, p: nat, t: nat)
    requires targetStart <= targetEnd <= target.Length
    modifies target
    ensures targetStart <= t <= targetEnd && SameOutside(old(target[..]), target[..], targetStart, t)
    ensures Convert(From8To16, mode, source, targetEnd - targetStart, ConversionOK)
        == Out(result, p, target[targetStart..t])
  {
    hide TakeBy, PutBy, Finish, Convert;
    result, p, t := ConversionOK, 0, targetStart;
    ghost var whole := Outcome(From8To16, mode, source, targetEnd - targetStart);
    ghost var sofar := result;
    assert target[..][targetStart..targetStart] == [];
    while p < |source|
      invariant p <= |source| && sofar == result
      invariant Underway(From8To16, mode, whole, source, p, old(target[..]), target[..], targetStart, t, targetEnd,
          sofar)
    {
      ghost var before := target[..];
      var r := Round8to16(source, p, target, t, targetEnd, mode);
      if r.Halted? {
        result := r.result;
        break;
      }
      RoundGoesOn(From8To16, mode, whole, source, p, old(target[..]), before, target[..], targetStart, t, targetEnd,
          sofar, r);
      if r.flagged {
        result := SourceIllegal;
      }
      p, t, sofar := p + r.n, t + r.m, Flag(r.flagged, sofar);
    }
    RoundStops(From8To16, mode, whole, source, p, old(target[..]), target[..], targetStart, t, targetEnd, sofar,
        result);
    assert target[..][targetStart..t] == target[targetStart..t];
  }

  method Round16to32(source: seq<UTF16>, p: nat, target: array<UTF32>, t: nat, targetEnd: nat, mode: Mode)
    returns (r: Round)
    requires p < |source| && t <= targetEnd <= target.Length
    modifies target
    ensures RoundIs(From16To32, mode, source[p..], targetEnd - t, r, old(target[..]), target[..], t)
  {
    var c := Read16(source, p, mode);
    if !c.Char? {
      return Halted(if c.Illegal? then SourceIllegal else SourceExhausted);
    }
    if t >= targetEnd {
      return Halted(TargetExhausted);
    }
    target[t] := c.ch;
    assert target[t..t + 1] == [c.ch];
    return Took(c.ch, c.n, 1, false);
  }

  method ConvertUTF16toUTF32(source: seq<UTF16>, target: array<UTF32>, targetStart: nat, targetEnd: nat, mode: Mode)
    returns (result: Result, p: nat, t: nat)
    requires targetStart <= targetEnd <= target.Length
    modifies target
    ensures targetStart <= t <= targetEnd && SameOutside(old(target[..]), target[..], targetStart, t)
    ensures Convert(From16To32, mode, source, targetEnd - targetStart, ConversionOK)
        == Out(result, p, target[targetStart..t])
  {
    hide TakeBy, PutBy, Finish, Convert;
    result, p, t := ConversionOK, 0, targetStart;
    ghost var whole := Outcome(From16To32, mode, source, targetEnd - targetStart);
    ghost var sofar := result;
    assert target[..][targetStart..targetStart] == [];
    while p < |source|
      invariant p <= |source| && sofar == result
      invariant Underway(From16To32, mode, whole, source, p, old(target[..]), target[..], targetStart, t, targetEnd,
          sofar)
    {
      ghost var before := target[..];
      var r := Round16to32(source, p, target, t, targetEnd, mode);
      if r.Halted? {
        result := r.result;
        break;
      }
      RoundGoesOn(From16To32, mode, whole, source, p, old(target[..]), before, target[..], targetStart, t, targetEnd,
          sofar, r);
      if r.flagged {
        result := SourceIllegal;
      }
      p, t, sofar := p + r.n, t + r.m, Flag(r.flagged, sofar);
    }
    RoundStops(From16To32, mode, whole, source, p, old(target[..]), target[..], targetStart, t, targetEnd, sofar,
        result);
    assert target[..][targetStart..t] == target[targetStart..t];
  }

  method Round16to8(source: seq<UTF16>, p: nat, target: array<UTF8>, t: nat, targetEnd: nat, mode: Mode)
    returns (r: Round)
    requires p < |source| && t <= targetEnd <= target.Length
    modifies target
    ensures RoundIs(From16To8, mode, source[p..], targetEnd - t, r, old(target[..]), target[..], t)
  {
    var c := Read16(source, p, mode);
    if !c.Char? {
      return Halted(if c.Illegal? then SourceIllegal else SourceExhausted);
    }
    var bytesToWrite := Length8(c.ch);
    if t + bytesToWrite > targetEnd {
      return Halted(TargetExhausted);
    }
    Write8(target, t, c.ch);
    return Took(c.ch, c.n, bytesToWrite, false);
  }

  method ConvertUTF16toUTF8(source: seq<UTF16>, target: array<UTF8>, targetStart: nat, targetEnd: nat, mode: Mode)
    returns (result: Result, p: nat, t: nat)
    requires targetStart <= targetEnd <= target.Length
    modifies target
    ensures targetStart <= t <= targetEnd && SameOutside(old(target[..]), target[..], targetStart, t)
    ensures Convert(From16To8, mode, source, targetEnd - targetStart, ConversionOK)
        == Out(result, p, target[targetStart..t])
  {
    hide TakeBy, PutBy, Finish, Convert;
    result, p, t := ConversionOK, 0, targetStart;
    ghost var whole := Outcome(From16To8, mode, source, targetEnd - targetStart);
    ghost var sofar := result;
    assert target[..][targetStart..targetStart] == [];
    while p < |source|
      invariant p <= |source| && sofar == result
      invariant Underway(From16To8, mode, whole, source, p, old(target[..]), target[..], targetStart, t, targetEnd,
          sofar)
    {
      ghost var before := target[..];
      var r := Round16to8(source, p, target, t, targetEnd, mode);
      if r.Halted? {
        result := r.result;
        break;
      }
      RoundGoesOn(From16To8, mode, whole, source, p, old(target[..]), before, target[..], targetStart, t, targetEnd,
          sofar, r);
      if r.flagged {
        result := SourceIllegal;
      }
      p, t, sofar := p + r.n, t + r.m, Flag(r.flagged, sofar);
    }
    RoundStops(From16To8, mode, whole, source, p, old(target[..]), target[..], targetStart, t, targetEnd, sofar,
        result);
    assert target[..][targetStart..t] == target[targetStart..t];
  }

  method Round32to16(source: seq<UTF32>, p: nat, target: array<UTF16>, t: nat, targetEnd: nat, mode: Mode)
    returns (r: Round)
    requires p < |source| && t <= targetEnd <= target.Length
    modifies target
    ensures RoundIs(From32To16, mode, source[p..], targetEnd - t, r, old(target[..]), target[..], t)
  {
    if t >= targetEnd {
      return Halted(TargetExhausted);
    }
    var ch := source[p];
    if ch <= MAX_BMP {
      if IsSurrogate(ch) {
        if mode == Strict {
          return Halted(SourceIllegal);
        }
        target[t] := REPLACEMENT_CHAR;
      } else {
        target[t] := ch;
      }
    } else if ch > MAX_LEGAL_UTF32 {
      if mode == Strict {
        return Took(ch, 1, 0, true);
      }
      target[t] := REPLACEMENT_CHAR;
    } else {
      if t + 1 >= targetEnd {
        return Halted(TargetExhausted);
      }
      target[t] := (ch - 0x10000) / 0x400 + 0xD800;
      target[t + 1] := (ch - 0x10000) % 0x400 + 0xDC00;
      assert target[t..t + 2] == Halves(ch);
      return Took(ch, 1, 2, false);
    }
    assert target[t..t + 1] == [target[t]];
    return Took(ch, 1, 1, false);
  }

  method ConvertUTF32toUTF16(source: seq<UTF32>, target: array<UTF16>, targetStart: nat, targetEnd: nat, mode: Mode)
    returns (result: Result, p: nat, t: nat)
    requires targetStart <= targetEnd <= target.Length
    modifies target
    ensures targetStart <= t <= targetEnd && SameOutside(old(target[..]), target[..], targetStart, t)
    ensures Convert(From32To16, mode, source, targetEnd - targetStart, ConversionOK)
        == Out(result, p, target[targetStart..t])
  {
    hide TakeBy, PutBy, Finish, Convert;
    result, p, t := ConversionOK, 0, targetStart;
    ghost var whole := Outcome(From32To16, mode, source, targetEnd - targetStart);
    ghost var sofar := result;
    assert target[..][targetStart..targetStart] == [];
    while p < |source|
      invariant p <= |source| && sofar == result
      invariant Underway(From32To16, mode, whole, source, p, old(target[..]), target[..], targetStart, t, targetEnd,
          sofar)
    {
      ghost var before := target[..];
      var r := Round32to16(source, p, target, t, targetEnd, mode);
      if r.Halted? {
        result := r.result;
        break;
      }
      RoundGoesOn(From32To16, mode, whole, source, p, old(target[..]), before, target[..], targetStart, t, targetEnd,
          sofar, r);
      if r.flagged {
        result := SourceIllegal;
      }
      p, t, sofar := p + r.n, t + r.m, Flag(r.flagged, sofar);
    }
    RoundStops(From32To16, mode, whole, source, p, old(target[..]), target[..], targetStart, t, targetEnd, sofar,
        result);
    assert target[..][targetStart..t] == target[targetStart..t];
  }

  method Round32to8(source: seq<UTF32>, p: nat, target: array<UTF8>, t: nat, targetEnd: nat, mode: Mode)
    returns (r: Round)
    requires p < |source| && t <= targetEnd <= target.Length
    modifies target
    ensures RoundIs(From32To8, mode, source[p..], targetEnd - t, r, old(target[..]), target[..], t)
  {
    var ch, flagged := source[p], false;
    if mode == Strict {
      if IsSurrogate(ch) {
        return Halted(SourceIllegal);
      }
    }
    if ch > MAX_LEGAL_UTF32 {
      ch, flagged := REPLACEMENT_CHAR, true;
    }
    var bytesToWrite := Length8(ch);
    if t + bytesToWrite > targetEnd {
      return Halted(TargetExhausted);
    }
    Write8(target, t, ch);
    return Took(source[p], 1, bytesToWrite, flagged);
  }

  method ConvertUTF32toUTF8(source: seq<UTF32>, target: array<UTF8>, targetStart: nat, targetEnd: nat, mode: Mode)
    returns (result: Result, p: nat, t: nat)
    requires targetStart <= targetEnd <= target.Length
    modifies target
    ensures targetStart <= t <= targetEnd && SameOutside(old(target[..]), target[..], targetStart, t)
    ensures Convert(From32To8, mode, source, targetEnd - targetStart, ConversionOK)
        == Out(result, p, target[targetStart..t])
  {
    hide TakeBy, PutBy, Finish, Convert;
    result, p, t := ConversionOK, 0, targetStart;
    ghost var whole := Outcome(From32To8, mode, source, targetEnd - targetStart);
    ghost var sofar := result;
    assert target[..][targetStart..targetStart] == [];
    while p < |source|
      invariant p <= |source| && sofar == result
      invariant Underway(From32To8, mode, whole, source, p, old(target[..]), target[..], targetStart, t, targetEnd,
          sofar)
    {
      ghost var before := target[..];
      var r := Round32to8(source, p, target, t, targetEnd, mode);
      if r.Halted? {
        result := r.result;
        break;
      }
      RoundGoesOn(From32To8, mode, whole, source, p, old(target[..]), before, target[..], targetStart, t, targetEnd,
          sofar, r);
      if r.flagged {
        result := SourceIllegal;
      }
      p, t, sofar := p + r.n, t + r.m, Flag(r.flagged, sofar);
    }
    RoundStops(From32To8, mode, whole, source, p, old(target[..]), target[..], targetStart, t, targetEnd, sofar,
        result);
    assert target[..][targetStart..t] == target[targetStart..t];
  }
}
