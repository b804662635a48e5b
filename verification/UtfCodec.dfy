/**
  The three encoding forms as linenoise/src/ConvertUTF.cpp reads and writes them, one
  character at a time.  Code units are numbers, and the three types are their machine ranges; the shifts and masks
  of the source are written as the arithmetic they come to, which the lemmas at the end of
  this module prove on 32-bit words.
 */
module UtfCodec {

  type UTF8 = b: nat | b < 0x100
  type UTF16 = w: nat | w < 0x1_0000
  type UTF32 = ch: nat | ch < 0x1_0000_0000

  datatype Mode = Strict | Lenient

  /** What stands at the front of a source buffer. */
  datatype Take = Exhausted | Illegal | Char(ch: nat, n: nat)

  /** What a target form makes of a character; `flagged` raises the result to `sourceIllegal` without stopping. */
  datatype Put = Refused | Units(units: seq<nat>, flagged: bool)

  const REPLACEMENT_CHAR: nat := 0xFFFD
  const MAX_BMP: nat := 0xFFFF
  const MAX_LEGAL_UTF32: nat := 0x10FFFF

  predicate IsSurrogate(ch: int) { 0xD800 <= ch <= 0xDFFF }
  predicate IsHigh(ch: int) { 0xD800 <= ch <= 0xDBFF }
  predicate IsLow(ch: int) { 0xDC00 <= ch <= 0xDFFF }

  /** A Unicode scalar value. */
  predicate IsScalar(ch: int) { 0 <= ch <= MAX_LEGAL_UTF32 && !IsSurrogate(ch) }

  // ---------------------------------------------------------------- UTF-8

  /** The table `trailingBytesForUTF8`. */
  function TrailingBytes(b: nat): nat {
    if b < 0xC0 then 0 else if b < 0xE0 then 1 else if b < 0xF0 then 2
    else if b < 0xF8 then 3 else if b < 0xFC then 4 else 5
  }

  /** The entries of the table `offsetsFromUTF8` that legal sequences use. */
  function Offset(extra: nat): int {
    match extra
    case 0 => 0x00000000
    case 1 => 0x00003080
    case 2 => 0x000E2080
    case _ => 0x03C82080
  }

  /** The table `firstByteMark`, by the number of bytes written. */
  function FirstByteMark(n: nat): int {
    match n
    case 2 => 0xC0
    case 3 => 0xE0
    case 4 => 0xF0
    case _ => 0x00
  }

  predicate SecondByteAllowed(first: nat, second: nat) {
    second <= 0xBF &&
    if first == 0xE0 then second >= 0xA0
    else if first == 0xED then second <= 0x9F
    else if first == 0xF0 then second >= 0x90
    else if first == 0xF4 then second <= 0x8F
    else second >= 0x80
  }

  predicate IsTail(b: nat) { 0x80 <= b <= 0xBF }

  /** `isLegalUTF8`. */
  predicate IsLegal(s: seq<nat>, length: nat)
    requires 1 <= length <= |s|
  {
    && length <= 4
    && (length >= 4 ==> IsTail(s[3]))
    && (length >= 3 ==> IsTail(s[2]))
    && (length >= 2 ==> SecondByteAllowed(s[0], s[1]))
    && !(0x80 <= s[0] < 0xC2)
    && s[0] <= 0xF4
  }

  /** What the reading switch leaves in `ch` for `n` bytes, less the offset. */
  function Decode8(s: seq<nat>, n: nat): int
    requires 1 <= n <= |s| && n <= 4
  {
    match n
    case 1 => s[0] - Offset(0)
    case 2 => s[0] * 0x40 + s[1] - Offset(1)
    case 3 => (s[0] * 0x40 + s[1]) * 0x40 + s[2] - Offset(2)
    case _ => ((s[0] * 0x40 + s[1]) * 0x40 + s[2]) * 0x40 + s[3] - Offset(3)
  }

  /** One round of `ConvertUTF8toUTF16` or `UTF32` up to the target check. */
  function Take8(s: seq<nat>): (t: Take)
    ensures t.Char? ==> 0 < t.n <= |s|
  {
    if s == [] then Exhausted
    else if |s| <= TrailingBytes(s[0]) then Exhausted
    else if !IsLegal(s, TrailingBytes(s[0]) + 1) then Illegal
    else
      AcceptedDecodesToScalar(s, TrailingBytes(s[0]) + 1);
      Char(Decode8(s, TrailingBytes(s[0]) + 1), TrailingBytes(s[0]) + 1)
  }

  function Length8(ch: int): nat {
    if ch < 0x80 then 1 else if ch < 0x800 then 2 else if ch < 0x10000 then 3 else if ch < 0x110000 then 4 else 3
  }

  /** `(ch | byteMark) & byteMask`, cast to a byte. */
  function TailByte(ch: nat): (b: nat)
    ensures IsTail(b)
  {
    0x80 + ch % 0x40
  }

  /** The writing switch, from the last byte to the first; `ch | firstByteMark` is a sum for the `ch` left over. */
  function Bytes(ch: nat): (s: seq<nat>)
    requires ch <= MAX_LEGAL_UTF32
    ensures |s| == Length8(ch)
  {
    match Length8(ch)
    case 1 => [ch + FirstByteMark(1)]
    case 2 => [ch / 0x40 + FirstByteMark(2), TailByte(ch)]
    case 3 => [ch / 0x40 / 0x40 + FirstByteMark(3), TailByte(ch / 0x40), TailByte(ch)]
    case _ => [ch / 0x40 / 0x40 / 0x40 + FirstByteMark(4), TailByte(ch / 0x40 / 0x40), TailByte(ch / 0x40),
        TailByte(ch)]
  }

  function Put8(ch: nat): Put {
    if ch > MAX_LEGAL_UTF32 then Units(Bytes(REPLACEMENT_CHAR), true) else Units(Bytes(ch), false)
  }

  // ---------------------------------------------------------------- UTF-8 properties

  /** Section 4 of RFC 3629: the well-formed sequences of one character. */
  predicate WellFormed(s: seq<nat>) {
    match |s|
    case 1 => s[0] <= 0x7F
    case 2 => 0xC2 <= s[0] <= 0xDF && IsTail(s[1])
    case 3 =>
      && IsTail(s[2])
      && (|| (s[0] == 0xE0 && 0xA0 <= s[1] <= 0xBF)
          || (0xE1 <= s[0] <= 0xEC && IsTail(s[1]))
          || (s[0] == 0xED && 0x80 <= s[1] <= 0x9F)
          || (0xEE <= s[0] <= 0xEF && IsTail(s[1])))
    case 4 =>
      && IsTail(s[2]) && IsTail(s[3])
      && (|| (s[0] == 0xF0 && 0x90 <= s[1] <= 0xBF)
          || (0xF1 <= s[0] <= 0xF3 && IsTail(s[1]))
          || (s[0] == 0xF4 && 0x80 <= s[1] <= 0x8F))
    case _ => false
  }

  /** ED, or F4, with a second byte below 80. */
  predicate LacksLowerBound(s: seq<nat>) {
    || (|s| == 3 && s[0] == 0xED && s[1] < 0x80 && IsTail(s[2]))
    || (|s| == 4 && s[0] == 0xF4 && s[1] < 0x80 && IsTail(s[2]) && IsTail(s[3]))
  }

  /** The accepted set is the standard's, and besides exactly the ED and F4 sequences whose second byte is below 80. */
  lemma LegalIsAlmostWellFormed(s: seq<nat>)
    requires s != [] && TrailingBytes(s[0]) + 1 == |s|
    ensures WellFormed(s) <==> IsLegal(s, |s|) && (|s| >= 2 ==> s[1] >= 0x80)
    ensures IsLegal(s, |s|) && !WellFormed(s) <==> LacksLowerBound(s)
  {
  }

  /** So some sequences that are not well-formed are accepted, and do not return. */
  lemma IllFormedIsAccepted()
    ensures IsLegal([0xED, 0x20, 0x80], 3) && !WellFormed([0xED, 0x20, 0x80])
    ensures Bytes(Decode8([0xED, 0x20, 0x80], 3)) == [0xEB, 0xA0, 0x80]
    ensures IsLegal([0xF4, 0x00, 0x80, 0x80], 4) && !WellFormed([0xF4, 0x00, 0x80, 0x80])
  {
  }

  /** The branches for surrogates and for large values are dead: no accepted sequence decodes to one. */
  lemma AcceptedDecodesToScalar(s: seq<nat>, n: nat)
    requires 1 <= n <= |s| && n == TrailingBytes(s[0]) + 1 && IsLegal(s, n)
    ensures IsScalar(Decode8(s, n)) && Length8(Decode8(s, n)) == n
  {
  }

  lemma EncodeThenDecode(ch: nat)
    requires IsScalar(ch)
    ensures var s := Bytes(ch);
      TrailingBytes(s[0]) + 1 == |s| && WellFormed(s) && IsLegal(s, |s|) && Decode8(s, |s|) == ch
  {
  }

  /** Re-encoding gives the bytes back exactly for the sequences that are well-formed. */
  lemma DecodeThenEncode(s: seq<nat>)
    requires s != [] && TrailingBytes(s[0]) + 1 == |s| && IsLegal(s, |s|)
    ensures IsScalar(Decode8(s, |s|)) && (Bytes(Decode8(s, |s|)) == s <==> WellFormed(s))
  {
    AcceptedDecodesToScalar(s, |s|);
    EncodeThenDecode(Decode8(s, |s|));
    if WellFormed(s) {
      WellFormedBytesReturn(s);
    }
  }

  lemma WellFormedBytesReturn(s: seq<nat>)
    requires WellFormed(s) && TrailingBytes(s[0]) + 1 == |s| && IsLegal(s, |s|)
    ensures Bytes(Decode8(s, |s|)) == s
  {
    AcceptedDecodesToScalar(s, |s|);
    var ch := Decode8(s, |s|);
    match |s|
    case 1 =>
    case 2 => Digit(s[0] - 0xC0, s[1]);
    case 3 => ThreeBytesReturn(s);
    case 4 => FourBytesReturn(s);
  }

  lemma ThreeBytesReturn(s: seq<nat>)
    requires WellFormed(s) && TrailingBytes(s[0]) + 1 == |s| == 3
    ensures Bytes(Decode8(s, 3)) == s
  {
    var a: int, b: int, c: int := s[0] - 0xE0, s[1] - 0x80, s[2] - 0x80;
    Digit(a, s[1]);
    Digit(a * 0x40 + b, s[2]);
    assert Decode8(s, 3) == (a * 0x40 + b) * 0x40 + c;
  }

  lemma FourBytesReturn(s: seq<nat>)
    requires WellFormed(s) && TrailingBytes(s[0]) + 1 == |s| == 4
    ensures Bytes(Decode8(s, 4)) == s
  {
    var a: int, b: int, c: int, d: int := s[0] - 0xF0, s[1] - 0x80, s[2] - 0x80, s[3] - 0x80;
    Digit(a, s[1]);
    Digit(a * 0x40 + b, s[2]);
    Digit((a * 0x40 + b) * 0x40 + c, s[3]);
    assert Decode8(s, 4) == ((a * 0x40 + b) * 0x40 + c) * 0x40 + d;
  }

  lemma Digit(high: nat, tail: nat)
    requires IsTail(tail)
    ensures (high * 0x40 + (tail - 0x80)) / 0x40 == high && (high * 0x40 + (tail - 0x80)) % 0x40 == tail - 0x80
  {
  }

  // ---------------------------------------------------------------- UTF-16

  /** The character of a surrogate pair. */
  function Pair(high: nat, low: nat): int {
    (high - 0xD800) * 0x400 + (low - 0xDC00) + 0x10000
  }

  /** One round of `ConvertUTF16toUTF8` or `UTF32` up to the target check. */
  function Take16(mode: Mode, s: seq<nat>): (t: Take)
    ensures t.Char? ==> 0 < t.n <= |s| && (mode == Strict ==> !IsSurrogate(t.ch))
  {
    if s == [] then Exhausted
    else if IsHigh(s[0]) then
      if |s| == 1 then Exhausted
      else if IsLow(s[1]) then Char(Pair(s[0], s[1]), 2)
      else if mode == Strict then Illegal
      else Char(s[0], 1)
    else if mode == Strict && IsLow(s[0]) then Illegal
    else Char(s[0], 1)
  }

  /** The two halves of a character above the BMP; the mask 3FF is the remainder by 400. */
  function Halves(ch: nat): seq<nat>
    requires MAX_BMP < ch <= MAX_LEGAL_UTF32
  {
    [(ch - 0x10000) / 0x400 + 0xD800, (ch - 0x10000) % 0x400 + 0xDC00]
  }

  /** What `ConvertUTF8toUTF16` writes for a character. */
  function Put16(mode: Mode, ch: nat): Put {
    if IsSurrogate(ch) then if mode == Strict then Refused else Units([REPLACEMENT_CHAR], false)
    else if ch <= MAX_BMP then Units([ch], false)
    else if ch > MAX_LEGAL_UTF32 then if mode == Strict then Refused else Units([REPLACEMENT_CHAR], false)
    else Units(Halves(ch), false)
  }

  /** What `ConvertUTF32toUTF16` writes: in strict mode it flags a value out of range, drops it and goes on. */
  function Put16From32(mode: Mode, ch: nat): Put {
    if ch > MAX_LEGAL_UTF32 && mode == Strict then Units([], true) else Put16(mode, ch)
  }

  lemma PairThenHalves(high: nat, low: nat)
    requires IsHigh(high) && IsLow(low)
    ensures MAX_BMP < Pair(high, low) <= MAX_LEGAL_UTF32 && Halves(Pair(high, low)) == [high, low]
  {
  }

  lemma HalvesThenPair(ch: nat)
    requires MAX_BMP < ch <= MAX_LEGAL_UTF32
    ensures var s := Halves(ch); |s| == 2 && IsHigh(s[0]) && IsLow(s[1]) && Pair(s[0], s[1]) == ch
  {
  }

  // ---------------------------------------------------------------- UTF-32

  function Take32(s: seq<nat>): (t: Take)
    ensures t.Char? ==> 0 < t.n <= |s|
  {
    if s == [] then Exhausted else Char(s[0], 1)
  }

  /** `ConvertUTF32toUTF8` in strict mode refuses surrogates before it looks at the target. */
  function Take32To8(mode: Mode, s: seq<nat>): (t: Take)
    ensures t.Char? ==> 0 < t.n <= |s| && (mode == Strict ==> !IsSurrogate(t.ch))
  {
    if s == [] then Exhausted
    else if mode == Strict && IsSurrogate(s[0]) then Illegal
    else Char(s[0], 1)
  }

  /** What `ConvertUTF8toUTF32` writes for a character. */
  function Put32(mode: Mode, ch: nat): Put {
    if ch > MAX_LEGAL_UTF32 then Units([REPLACEMENT_CHAR], true)
    else if IsSurrogate(ch) then if mode == Strict then Refused else Units([REPLACEMENT_CHAR], false)
    else Units([ch], false)
  }

  /** `ConvertUTF16toUTF32` writes every character as it is. */
  function Put32From16(ch: nat): Put {
    Units([ch], false)
  }

  // ---------------------------------------------------------------- the bit operations of the source

  lemma TailByteBits(ch: bv32)
    ensures ((ch | 0x80) & 0xBF) & 0xFF == 0x80 + ch % 0x40
  {
  }

  // What is left for the first byte of two, three or four, and its mark.

  lemma LeadByteBits2(ch: bv32)
    requires ch < 0x20
    ensures ch | 0xC0 == ch + 0xC0
  {
  }

  lemma LeadByteBits3(ch: bv32)
    requires ch < 0x10
    ensures ch | 0xE0 == ch + 0xE0
  {
  }

  lemma LeadByteBits4(ch: bv32)
    requires ch < 0x08
    ensures ch | 0xF0 == ch + 0xF0
  {
  }

  lemma ShiftBits(ch: bv32)
    ensures ch >> 6 == ch / 0x40 && ch >> 10 == ch / 0x400 && ch & 0x3FF == ch % 0x400
    ensures ch < 0x400_0000 ==> ch << 6 == ch * 0x40
    ensures ch < 0x40_0000 ==> ch << 10 == ch * 0x400
  {
  }
}
