/** UTF-16 in and out of the converters of linenoise/src/ConvertUTF.cpp, what they accept, and where they stop. */
module UtfReturns {
  import opened Common
  import opened UtfCodec
  import opened UtfConvert
  import opened UtfTheorems

  // ---------------------------------------------------------------- what units and bytes stand for

  /** The value of two code units, as section 2.1 of RFC 2781 gives it, and what is written for it. */
  lemma UnitsSpell(high: nat, low: nat)
    requires 0xD800 <= high < 0xDC00 <= low < 0xE000
    ensures var ch := 0x10000 + (high - 0xD800) * 0x400 + (low - 0xDC00);
      && Take16(Strict, [high, low]) == Take16(Lenient, [high, low]) == Char(ch, 2)
      && 0x10000 <= ch <= 0x10FFFF && Units16(ch) == [high, low]
    ensures Take16(Strict, [0xD83D, 0xDE00]) == Char(0x1F600, 2) && Units16(0x1F600) == [0xD83D, 0xDE00]
  {
    var ch := 0x10000 + (high - 0xD800) * 0x400 + (low - 0xDC00);
    assert ch == Pair(high, low);
    PairThenHalves(high, low);
  }

  /** The bits of a character in its bytes, as the table of section 3 of RFC 3629 spreads them. */
  lemma BytesSpell(ch: nat)
    requires IsScalar(ch)
    ensures var b := Bytes(ch);
      if ch <= 0x7F then b == [ch]
      else if ch <= 0x7FF then
        && |b| == 2 && 0xC2 <= b[0] <= 0xDF && 0x80 <= b[1] <= 0xBF && ch == (b[0] - 0xC0) * 0x40 + (b[1] - 0x80)
      else if ch <= 0xFFFF then
        && |b| == 3 && 0xE0 <= b[0] <= 0xEF && 0x80 <= b[1] <= 0xBF && 0x80 <= b[2] <= 0xBF
        && ch == (b[0] - 0xE0) * 0x1000 + (b[1] - 0x80) * 0x40 + (b[2] - 0x80)
      else
        && |b| == 4 && 0xF0 <= b[0] <= 0xF4 && 0x80 <= b[1] <= 0xBF && 0x80 <= b[2] <= 0xBF && 0x80 <= b[3] <= 0xBF
        && ch == (b[0] - 0xF0) * 0x40000 + (b[1] - 0x80) * 0x1000 + (b[2] - 0x80) * 0x40 + (b[3] - 0x80)
  {
  }

  // ---------------------------------------------------------------- scalar values through UTF-16

  /** The UTF-16 of a sequence of scalar values. */
  function EncodeAll16(s: seq<nat>): seq<nat>
    requires AllScalar(s)
  {
    if s == [] then [] else Units16(s[0]) + EncodeAll16(s[1..])
  }

  /** A text of BMP characters and surrogate pairs. */
  predicate WellFormed16(s: seq<nat>)
    decreases |s|
  {
    s == []
    || (!(0xD800 <= s[0] < 0xE000) && WellFormed16(s[1..]))
    || (|s| >= 2 && 0xD800 <= s[0] < 0xDC00 && 0xDC00 <= s[1] < 0xE000 && WellFormed16(s[2..]))
  }

  /** The front of the source is one character of well-formed UTF-16. */
  lemma OneCharacter(mode: Mode, s: seq<nat>)
    requires s != [] && InRange(From16To32, s)
    ensures var t := Take16(mode, s);
      t.Char? && IsScalar(t.ch) ==>
        && Units16(t.ch) == s[..t.n] && (WellFormed16(s) <==> WellFormed16(s[t.n..]))
    ensures var t := Take16(mode, s); !(t.Char? && IsScalar(t.ch)) ==> !WellFormed16(s)
    ensures mode == Strict ==> var t := Take16(mode, s); t.Char? ==> IsScalar(t.ch)
  {
    if IsHigh(s[0]) && |s| > 1 && IsLow(s[1]) {
      PairThenHalves(s[0], s[1]);
      assert s[..2] == [s[0], s[1]];
    } else {
      assert s[..1] == [s[0]];
    }
  }

  /** One round of `ConvertUTF16toUTF32`. */
  lemma Round16To32(mode: Mode, s: seq<nat>, room: nat, n: nat, ch: nat)
    requires s != [] && Take16(mode, s) == Char(ch, n) && 1 <= room
    ensures Convert(From16To32, mode, s, room, ConversionOK) ==
            Prepend(n, [ch], Convert(From16To32, mode, s[n..], room - 1, ConversionOK))
  {
    hide Convert, Take16;
    ConvertRound(From16To32, mode, s, room, ConversionOK, n, [ch], false);
  }

  lemma Stop16To32(mode: Mode, s: seq<nat>, room: nat)
    requires s != [] && !Take16(mode, s).Char?
    ensures Convert(From16To32, mode, s, room, ConversionOK).result != ConversionOK
  {
    hide Convert;
    ConvertStops(From16To32, mode, s, room, ConversionOK);
  }

  lemma Nothing(c: Converter, mode: Mode, room: nat)
    ensures Convert(c, mode, [], room, ConversionOK) == Out(ConversionOK, 0, [])
  {
    ConvertStops(c, mode, [], room, ConversionOK);
  }

  /** The outcome `o` of reading `s`: all well-formed text is taken and returns, and strict mode takes nothing else. */
  predicate Returns16(mode: Mode, s: seq<nat>, o: Out) {
    && (WellFormed16(s) ==>
          o.result == ConversionOK && o.consumed == |s| && AllScalar(o.written) && EncodeAll16(o.written) == s)
    && (mode == Strict && o.result == ConversionOK ==> WellFormed16(s))
  }

  /**
    `ConvertUTF16toUTF32` in strict mode accepts exactly the well-formed sequences.  In either mode what
    a well-formed one becomes are the scalar values of which it is the UTF-16.
   */
  lemma {:induction false} Text16ReturnsIffWellFormed(mode: Mode, s: seq<nat>, room: nat)
    requires InRange(From16To32, s) && |s| <= room
    ensures Returns16(mode, s, Convert(From16To32, mode, s, room, ConversionOK))
    decreases |s|
  {
    hide Convert, Take16, Units16, WellFormed16, Returns16, Prepend;
    if s == [] {
      Nothing(From16To32, mode, room);
      NothingReturns(mode);
    } else if Take16(mode, s).Char? {
      var n, ch := Take16(mode, s).n, Take16(mode, s).ch;
      Round16To32(mode, s, room, n, ch);
      Text16ReturnsIffWellFormed(mode, s[n..], room - 1);
      CharacterGoesOn(mode, s, n, ch, Convert(From16To32, mode, s[n..], room - 1, ConversionOK));
    } else {
      Stop16To32(mode, s, room);
      IllFormedStops(mode, s, Convert(From16To32, mode, s, room, ConversionOK));
    }
  }

  lemma NothingReturns(mode: Mode)
    ensures Returns16(mode, [], Out(ConversionOK, 0, []))
  {
  }

  lemma IllFormedStops(mode: Mode, s: seq<nat>, o: Out)
    requires s != [] && InRange(From16To32, s) && !Take16(mode, s).Char? && o.result != ConversionOK
    ensures Returns16(mode, s, o)
  {
    hide Take16;
    OneCharacter(mode, s);
  }

  lemma CharacterGoesOn(mode: Mode, s: seq<nat>, n: nat, ch: nat, o: Out)
    requires s != [] && InRange(From16To32, s) && Take16(mode, s) == Char(ch, n) && Returns16(mode, s[n..], o)
    ensures Returns16(mode, s, Prepend(n, [ch], o))
  {
    hide Take16, Units16, WellFormed16;
    OneCharacter(mode, s);
    if IsScalar(ch) && WellFormed16(s) {
      assert ([ch] + o.written)[1..] == o.written && s[..n] + s[n..] == s;
    }
  }

  lemma Units16Encode(s: seq<nat>)
    requires AllScalar(s) && s != []
    ensures EncodeAll16(s) == Units16(s[0]) + EncodeAll16(s[1..])
    ensures [s[0]] + s[1..] == s
  {
  }

  /** The units of a scalar value are read back, whatever follows. */
  lemma TakesItsUnits(mode: Mode, ch: nat, rest: seq<nat>)
    requires IsScalar(ch)
    ensures Take16(mode, Units16(ch) + rest) == Char(ch, |Units16(ch)|)
  {
    if ch > MAX_BMP {
      HalvesThenPair(ch);
    }
  }

  lemma {:induction false} UnitsDecode(mode: Mode, s: seq<nat>, room: nat)
    requires AllScalar(s) && |s| <= room
    ensures Convert(From16To32, mode, EncodeAll16(s), room, ConversionOK) == Out(ConversionOK, |EncodeAll16(s)|, s)
    decreases |s|
  {
    hide Convert, Units16, Take16, IsScalar;
    if s == [] {
      Nothing(From16To32, mode, room);
    } else {
      Units16Encode(s);
      var units, rest := Units16(s[0]), EncodeAll16(s[1..]);
      TakesItsUnits(mode, s[0], rest);
      Round16To32(mode, units + rest, room, |units|, s[0]);
      assert (units + rest)[|units|..] == rest;
      UnitsDecode(mode, s[1..], room - 1);
    }
  }

  lemma {:induction false} UnitsEncode(mode: Mode, s: seq<nat>, room: nat)
    requires AllScalar(s) && 2 * |s| <= room
    ensures Convert(From32To16, mode, s, room, ConversionOK) == Out(ConversionOK, |s|, EncodeAll16(s))
    decreases |s|
  {
    hide Convert, Units16, IsScalar;
    if s == [] {
      Nothing(From32To16, mode, room);
    } else {
      Units16Encode(s);
      Round32To16(mode, s[0], s[1..], room);
      UnitsEncode(mode, s[1..], room - |Units16(s[0])|);
    }
  }

  /** UTF-32 to UTF-16 and back is the identity on every sequence of scalar values, given room. */
  lemma ScalarsReturnBy16(mode: Mode, back: Mode, s: seq<nat>, room16: nat, room32: nat)
    requires AllScalar(s) && 2 * |s| <= room16 && |s| <= room32
    ensures var o := Convert(From32To16, mode, s, room16, ConversionOK);
      && o.result == ConversionOK && o.consumed == |s|
      && Convert(From16To32, back, o.written, room32, ConversionOK) == Out(ConversionOK, |o.written|, s)
  {
    hide Convert;
    UnitsEncode(mode, s, room16);
    UnitsDecode(back, s, room32);
  }

  /** UTF-16 to UTF-32 and back is the identity on well-formed UTF-16, and strict mode takes nothing else. */
  lemma Text16Returns(mode: Mode, back: Mode, s: seq<nat>, room32: nat, room16: nat)
    requires InRange(From16To32, s) && |s| <= room32 && 2 * |s| <= room16
    ensures var o := Convert(From16To32, mode, s, room32, ConversionOK);
      WellFormed16(s) ==>
        && o.result == ConversionOK && o.consumed == |s|
        && Convert(From32To16, back, o.written, room16, ConversionOK) == Out(ConversionOK, |o.written|, s)
    ensures Convert(From16To32, Strict, s, room32, ConversionOK).result == ConversionOK <==> WellFormed16(s)
  {
    hide Convert;
    Text16ReturnsIffWellFormed(mode, s, room32);
    Text16ReturnsIffWellFormed(Strict, s, room32);
    WrittenAtMostConsumed(mode, s, room32);
    if WellFormed16(s) {
      UnitsEncode(back, Convert(From16To32, mode, s, room32, ConversionOK).written, room16);
    }
  }

  lemma {:induction false} WrittenAtMostConsumed(mode: Mode, s: seq<nat>, room: nat)
    requires |s| <= room
    ensures var o := Convert(From16To32, mode, s, room, ConversionOK); |o.written| <= o.consumed <= |s|
    decreases |s|
  {
    hide Convert, Take16;
    if s == [] || !Take16(mode, s).Char? {
      ConvertStops(From16To32, mode, s, room, ConversionOK);
    } else {
      Round16To32(mode, s, room, Take16(mode, s).n, Take16(mode, s).ch);
      WrittenAtMostConsumed(mode, s[Take16(mode, s).n..], room - 1);
    }
  }

  // ---------------------------------------------------------------- UTF-16 to UTF-8 by way of UTF-32

  /** What `ConvertUTF16toUTF8` and `ConvertUTF32toUTF8` write for a character read from UTF-16. */
  lemma Round16To8(mode: Mode, s: seq<nat>, room: nat, n: nat, ch: nat)
    requires s != [] && InRange(From16To8, s) && Take16(mode, s) == Char(ch, n) && 4 <= room
    ensures ch <= MAX_LEGAL_UTF32 && |Bytes(ch)| <= 4
    ensures Convert(From16To8, mode, s, room, ConversionOK) ==
            Prepend(n, Bytes(ch), Convert(From16To8, mode, s[n..], room - |Bytes(ch)|, ConversionOK))
  {
    hide Convert, Bytes;
    ConvertRound(From16To8, mode, s, room, ConversionOK, n, Bytes(ch), false);
  }

  lemma Round32To8(mode: Mode, ch: nat, rest: seq<nat>, room: nat)
    requires ch <= MAX_LEGAL_UTF32 && (mode == Strict ==> !IsSurrogate(ch)) && 4 <= room
    ensures |Bytes(ch)| <= 4
    ensures Convert(From32To8, mode, [ch] + rest, room, ConversionOK) ==
            Prepend(1, Bytes(ch), Convert(From32To8, mode, rest, room - |Bytes(ch)|, ConversionOK))
  {
    hide Convert, Bytes;
    assert ([ch] + rest)[1..] == rest;
    ConvertRound(From32To8, mode, [ch] + rest, room, ConversionOK, 1, Bytes(ch), false);
  }

  /**
    On every sequence of UTF-16 units, ill-formed ones included, and with room enough,
    `ConvertUTF16toUTF8` does what `ConvertUTF16toUTF32` followed by `ConvertUTF32toUTF8` does.
   */
  lemma {:induction false} Factoring16(mode: Mode, s: seq<nat>, room8: nat, room32: nat, room: nat)
    requires InRange(From16To8, s) && 4 * |s| <= room8 && |s| <= room32 && 4 * |s| <= room
    ensures var o8, o32 := Convert(From16To8, mode, s, room8, ConversionOK),
        Convert(From16To32, mode, s, room32, ConversionOK);
      && o8.result == o32.result && o8.consumed == o32.consumed
      && Convert(From32To8, mode, o32.written, room, ConversionOK) == Out(ConversionOK, |o32.written|, o8.written)
    decreases |s|
  {
    hide Convert, Take16, Bytes;
    if s == [] || !Take16(mode, s).Char? {
      ConvertStops(From16To8, mode, s, room8, ConversionOK);
      ConvertStops(From16To32, mode, s, room32, ConversionOK);
      Nothing(From32To8, mode, room);
    } else {
      var n, ch := Take16(mode, s).n, Take16(mode, s).ch;
      Round16To32(mode, s, room32, n, ch);
      Round16To8(mode, s, room8, n, ch);
      Factoring16(mode, s[n..], room8 - |Bytes(ch)|, room32 - 1, room - |Bytes(ch)|);
      Round32To8(mode, ch, Convert(From16To32, mode, s[n..], room32 - 1, ConversionOK).written, room);
    }
  }

  // ---------------------------------------------------------------- what is accepted from UTF-32

  predicate ReadsUtf32(c: Converter) {
    c == From32To8 || c == From32To16
  }

  /** Strict mode accepts exactly the sequences of scalar values. */
  lemma {:induction false} StrictAcceptsScalars(c: Converter, s: seq<nat>, room: nat)
    requires ReadsUtf32(c) && 4 * |s| <= room
    ensures Convert(c, Strict, s, room, ConversionOK).result == ConversionOK <==> AllScalar(s)
    decreases |s|
  {
    hide Convert;
    if s == [] {
      Nothing(c, Strict, room);
    } else if IsSurrogate(s[0]) {
      ConvertStops(c, Strict, s, room, ConversionOK);
    } else {
      Tail32(s);
      var u := PutBy(c, Strict, s[0]);
      StrictPuts(c, s[0]);
      ConvertRound(c, Strict, s, room, ConversionOK, 1, u.units, u.flagged);
      if u.flagged {
        FlagStays(c, Strict, s[1..], room - |u.units|);
      } else {
        hide PutBy;
        StrictAcceptsScalars(c, s[1..], room - |u.units|);
      }
    }
  }

  lemma Tail32(s: seq<nat>)
    requires s != []
    ensures AllScalar(s) <==> IsScalar(s[0]) && AllScalar(s[1..])
  {
    assert forall i :: 0 < i < |s| ==> s[i] == s[1..][i - 1];
  }

  lemma StrictPuts(c: Converter, ch: nat)
    requires ReadsUtf32(c) && !IsSurrogate(ch)
    ensures var u := PutBy(c, Strict, ch); u.Units? && |u.units| <= 4 && (u.flagged <==> ch > 0x10FFFF)
  {
    hide Bytes;
  }

  /** A flagged result is never taken back. */
  lemma {:induction false} FlagStays(c: Converter, mode: Mode, s: seq<nat>, room: nat)
    ensures Convert(c, mode, s, room, SourceIllegal).result != ConversionOK
    decreases |s|
  {
    hide Convert, TakeBy, PutBy;
    if s == [] || Halt(c, mode, s, room).Some? {
      ConvertStops(c, mode, s, room, SourceIllegal);
      if s != [] {
        HaltIsAnError(c, mode, s, room);
      }
    } else {
      NotHalted(c, mode, s, room);
      var n, u := TakeBy(c, mode, s).n, PutBy(c, mode, TakeBy(c, mode, s).ch);
      ConvertRound(c, mode, s, room, SourceIllegal, n, u.units, u.flagged);
      FlagStays(c, mode, s[n..], room - |u.units|);
    }
  }

  lemma HaltIsAnError(c: Converter, mode: Mode, s: seq<nat>, room: nat)
    requires s != [] && Halt(c, mode, s, room).Some?
    ensures Halt(c, mode, s, room) != Some(ConversionOK)
  {
    hide TakeBy, PutBy;
  }

  /** The replacement character for everything that is no scalar value. */
  function Replaced(s: seq<nat>): (r: seq<nat>)
    ensures |r| == |s| && AllScalar(r)
    ensures forall i :: 0 <= i < |s| ==> r[i] == if IsScalar(s[i]) then s[i] else 0xFFFD
  {
    seq(|s|, i requires 0 <= i < |s| => if IsScalar(s[i]) then s[i] else 0xFFFD)
  }

  /** `ConvertUTF32toUTF16` in lenient mode takes everything, and writes FFFD for what is no scalar value. */
  lemma {:induction false} LenientReplaces16(s: seq<nat>, room: nat)
    requires 2 * |s| <= room
    ensures Convert(From32To16, Lenient, s, room, ConversionOK) == Out(ConversionOK, |s|, EncodeAll16(Replaced(s)))
    decreases |s|
  {
    hide Convert;
    if s == [] {
      Nothing(From32To16, Lenient, room);
    } else {
      var ch := if IsScalar(s[0]) then s[0] else 0xFFFD;
      assert Replaced(s)[1..] == Replaced(s[1..]) && Replaced(s)[0] == ch;
      ConvertRound(From32To16, Lenient, s, room, ConversionOK, 1, Units16(ch), false);
      hide Units16;
      LenientReplaces16(s[1..], room - |Units16(ch)|);
    }
  }

  /** The bytes `ConvertUTF32toUTF8` writes in lenient mode: surrogates by themselves, FFFD for what is out of range. */
  function LenientBytes(s: seq<nat>): seq<nat> {
    if s == [] then [] else Bytes(if s[0] > 0x10FFFF then 0xFFFD else s[0]) + LenientBytes(s[1..])
  }

  predicate NoneTooLarge(s: seq<nat>) {
    forall i :: 0 <= i < |s| ==> s[i] <= 0x10FFFF
  }

  lemma {:induction false} LenientReplaces8(s: seq<nat>, room: nat, sofar: Result)
    requires 4 * |s| <= room && (sofar == ConversionOK || sofar == SourceIllegal)
    ensures Convert(From32To8, Lenient, s, room, sofar) ==
            Out(if NoneTooLarge(s) then sofar else SourceIllegal, |s|, LenientBytes(s))
    decreases |s|
  {
    hide Convert, Bytes;
    if s == [] {
      ConvertStops(From32To8, Lenient, [], room, sofar);
    } else {
      var ch := if s[0] > 0x10FFFF then 0xFFFD else s[0];
      ConvertRound(From32To8, Lenient, s, room, sofar, 1, Bytes(ch), s[0] > 0x10FFFF);
      LenientReplaces8(s[1..], room - |Bytes(ch)|, Flag(s[0] > 0x10FFFF, sofar));
      assert forall i :: 0 < i < |s| ==> s[i] == s[1..][i - 1];
    }
  }

  /**
    Above 10FFFF `ConvertUTF32toUTF16` in strict mode writes nothing, but wants room for a unit; it goes on, and
    the result says illegal unless a later stop says something else.
   */
  lemma OutOfRangeIsDropped(ch: nat, s: seq<nat>, room: nat, sofar: Result)
    requires ch > 0x10FFFF
    ensures Convert(From32To16, Strict, [ch] + s, room, sofar) ==
      if room == 0 then Out(TargetExhausted, 0, [])
      else var o := Convert(From32To16, Strict, s, room, SourceIllegal); Out(o.result, 1 + o.consumed, o.written)
  {
    assert ([ch] + s)[1..] == s;
  }

  // ---------------------------------------------------------------- what a first byte announces

  /** How many bits of a byte are ones, from the highest down. */
  function LeadingOnes(b: nat): nat
    requires b < 0x100
  {
    if b < 0x80 then 0 else 1 + LeadingOnes(b * 2 - 0x100)
  }

  /** The length that a first byte announces: as many bytes as it has leading ones, but 1 at least and 6 at most. */
  function Announced(b: nat): nat
    requires b < 0x100
  {
    var ones := LeadingOnes(b);
    if ones < 2 then 1 else if ones > 6 then 6 else ones
  }

  lemma FirstOne(b: nat)
    requires b < 0x100
    ensures LeadingOnes(b) == if b < 0x80 then 0 else 1 + LeadingOnes(b * 2 - 0x100)
  {
  }

  lemma TableCountsOnes(b: nat)
    requires b < 0x100
    ensures TrailingBytes(b) + 1 == Announced(b)
  {
    hide LeadingOnes;
    FirstOne(b);
    if b >= 0x80 { FirstOne(b * 2 - 0x100); }
    if b >= 0xC0 { FirstOne(b * 4 - 0x300); }
    if b >= 0xE0 { FirstOne(b * 8 - 0x700); }
    if b >= 0xF0 { FirstOne(b * 16 - 0xF00); }
    if b >= 0xF8 { FirstOne(b * 32 - 0x1F00); }
    if b >= 0xFC { FirstOne(b * 64 - 0x3F00); }
  }

  /**
    Reading UTF-8 runs out of bytes exactly if there are fewer than the first one announces, legal or not, and
    otherwise takes just as many or refuses them.
   */
  lemma ReadsWhatIsAnnounced(s: seq<nat>)
    requires s != [] && s[0] < 0x100
    ensures var t, n := Take8(s), Announced(s[0]);
      && (t == Exhausted <==> |s| < n)
      && (t.Char? <==> |s| >= n && IsLegal(s, n))
      && (t.Char? ==> t.n == n)
  {
    hide LeadingOnes, IsLegal, Decode8;
    TableCountsOnes(s[0]);
  }

  // ---------------------------------------------------------------- where a call stops

  /** A call does all that one with room enough does if and only if its target holds what that one writes. */
  lemma {:induction false} FitsIff(c: Converter, mode: Mode, s: seq<nat>, room: nat, big: nat)
    requires IsResumable(c) && InRange(c, s) && Ample(s, big)
    ensures var o, whole := Convert(c, mode, s, room, ConversionOK), Convert(c, mode, s, big, ConversionOK);
      && (|whole.written| <= room ==> o == whole)
      && (|whole.written| > room ==> o.result == TargetExhausted)
    decreases |s|
  {
    hide Convert, Halt;
    if s == [] || Halt(c, mode, s, big).Some? {
      HaltsAlike(c, mode, s, room, big);
      ConvertStops(c, mode, s, room, ConversionOK);
      ConvertStops(c, mode, s, big, ConversionOK);
    } else {
      NotHalted(c, mode, s, big);
      NothingIsFlagged(c, mode, s);
      hide TakeBy, PutBy;
      var n, units := TakeBy(c, mode, s).n, PutBy(c, mode, TakeBy(c, mode, s).ch).units;
      ConvertRound(c, mode, s, big, ConversionOK, n, units, false);
      HaltsForRoom(c, mode, s, room);
      if |units| <= room {
        ConvertRound(c, mode, s, room, ConversionOK, n, units, false);
        FitsIff(c, mode, s[n..], room - |units|, big - |units|);
      } else {
        ConvertStops(c, mode, s, room, ConversionOK);
      }
    }
  }

  /** A call that stops with an error stands right in front of what it did not take. */
  lemma {:induction false} StopsInFront(c: Converter, mode: Mode, s: seq<nat>, room: nat)
    requires IsResumable(c) && InRange(c, s)
    ensures var o := Convert(c, mode, s, room, ConversionOK);
      Convert(c, mode, s[o.consumed..], room - |o.written|, ConversionOK) == Out(o.result, 0, [])
    decreases |s|
  {
    hide Convert, Halt;
    if s == [] || Halt(c, mode, s, room).Some? {
      ConvertStops(c, mode, s, room, ConversionOK);
    } else {
      NotHalted(c, mode, s, room);
      NothingIsFlagged(c, mode, s);
      hide TakeBy, PutBy;
      var n, units := TakeBy(c, mode, s).n, PutBy(c, mode, TakeBy(c, mode, s).ch).units;
      ConvertRound(c, mode, s, room, ConversionOK, n, units, false);
      StopsInFront(c, mode, s[n..], room - |units|);
      var o := Convert(c, mode, s[n..], room - |units|, ConversionOK);
      assert s[n..][o.consumed..] == s[n + o.consumed..];
    }
  }
}
