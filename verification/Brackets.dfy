/** The search for the matching bracket in `InputBuffer::refreshLine` of linenoise/src/linenoise.cpp. */
module Brackets {

  type Char32 = c: nat | c < 0x1_0000_0000

  const OPEN_PAREN: Char32 := 0x28
  const CLOSE_PAREN: Char32 := 0x29
  const OPEN_SQUARE: Char32 := 0x5B
  const CLOSE_SQUARE: Char32 := 0x5D
  const OPEN_CURLY: Char32 := 0x7B
  const CLOSE_CURLY: Char32 := 0x7D

  /** `strchr("}])", c)`: the character is cut to a byte, and the NUL at the end of the string is found too. */
  predicate LooksClosing(c: Char32) {
    c % 0x100 == CLOSE_CURLY || c % 0x100 == CLOSE_SQUARE || c % 0x100 == CLOSE_PAREN || c % 0x100 == 0
  }

  /** `strchr("{[(", c)`, tried second. */
  predicate LooksOpening(c: Char32) {
    !LooksClosing(c) && (c % 0x100 == OPEN_CURLY || c % 0x100 == OPEN_SQUARE || c % 0x100 == OPEN_PAREN)
  }

  predicate IsBracket(c: Char32) {
    c == OPEN_PAREN || c == CLOSE_PAREN || c == OPEN_SQUARE || c == CLOSE_SQUARE || c == OPEN_CURLY || c == CLOSE_CURLY
  }

  /** `part2` and `part1`. */
  datatype Kind = Kind(open: Char32, close: Char32)

  function KindOf(c: Char32): Kind {
    if c == OPEN_CURLY || c == CLOSE_CURLY then Kind(OPEN_CURLY, CLOSE_CURLY)
    else if c == OPEN_SQUARE || c == CLOSE_SQUARE then Kind(OPEN_SQUARE, CLOSE_SQUARE)
    else Kind(OPEN_PAREN, CLOSE_PAREN)
  }

  /** How a character changes the nesting of its kind, and of the other kinds. */
  function Own(k: Kind, c: Char32): int {
    if c == k.close then -1 else if c == k.open then 1 else 0
  }

  function Other(k: Kind, c: Char32): int {
    if c == k.close || c == k.open then 0
    else if LooksClosing(c) then -1
    else if LooksOpening(c) then 1
    else 0
  }

  /** The change of nesting over a stretch of the line. */
  function Nesting(k: Kind, line: seq<Char32>, from: nat, end: nat): int
    requires end <= |line|
    decreases end
  {
    if end <= from then 0 else Nesting(k, line, from, end - 1) + Own(k, line[end - 1])
  }

  function Others(k: Kind, line: seq<Char32>, from: nat, end: nat): int
    requires end <= |line|
    decreases end
  {
    if end <= from then 0 else Others(k, line, from, end - 1) + Other(k, line[end - 1])
  }

  lemma {:induction false} Split(k: Kind, line: seq<Char32>, from: nat, middle: nat, end: nat)
    requires from <= middle <= end <= |line|
    ensures Nesting(k, line, from, end) == Nesting(k, line, from, middle) + Nesting(k, line, middle, end)
    ensures Others(k, line, from, end) == Others(k, line, from, middle) + Others(k, line, middle, end)
    decreases end
  {
    if middle < end {
      Split(k, line, from, middle, end - 1);
    }
  }

  lemma One(k: Kind, line: seq<Char32>, i: nat)
    requires i < |line|
    ensures Nesting(k, line, i, i + 1) == Own(k, line[i]) && Others(k, line, i, i + 1) == Other(k, line[i])
  {
    assert Nesting(k, line, i, i) == 0 && Others(k, line, i, i) == 0;
  }

  /** Whether, with the cursor at `pos`, the nesting is back to zero at `i`. */
  predicate Balanced(line: seq<Char32>, pos: nat, i: nat)
    requires pos < |line| && i < |line|
  {
    var k := KindOf(line[pos]);
    if LooksClosing(line[pos]) then i < pos && Nesting(k, line, i, pos) == 1
    else pos < i && Nesting(k, line, pos + 1, i + 1) == -1
  }

  function OthersBetween(line: seq<Char32>, pos: nat, i: nat): int
    requires pos < |line| && i < |line|
  {
    var k := KindOf(line[pos]);
    if LooksClosing(line[pos]) then Others(k, line, i, pos) else Others(k, line, pos + 1, i + 1)
  }

  predicate Between(pos: nat, j: nat, i: nat) {
    i < j < pos || pos < j < i
  }

  /** What is highlighted, if anything: the nearest balanced position in the direction of the bracket. */
  predicate Highlights(line: seq<Char32>, pos: nat, i: nat, error: bool) {
    && pos < |line| && i < |line|
    && (LooksClosing(line[pos]) || LooksOpening(line[pos]))
    && Balanced(line, pos, i)
    && (forall j :: 0 <= j < |line| && Between(pos, j, i) ==> !Balanced(line, pos, j))
    && (error <==> OthersBetween(line, pos, i) != 0)
  }

  /** The scan finds it, and reports nothing exactly if there is nothing. */
  method FindHighlight(line: seq<Char32>, pos: nat) returns (highlight: int, error: bool)
    ensures highlight >= 0 ==> Highlights(line, pos, highlight, error)
    ensures highlight < 0 ==> !error && forall i: nat, e: bool :: !Highlights(line, pos, i, e)
  {
    highlight, error := -1, false;
    if pos >= |line| {
      return;
    }
    var direction, k := 0, KindOf(line[pos]);
    if LooksClosing(line[pos]) {
      direction := -1;
    } else if LooksOpening(line[pos]) {
      direction := 1;
    }
    if direction == 0 {
      return;
    }
    var unmatched, unmatchedOther := direction, 0;
    var i := pos + direction;
    while 0 <= i < |line|
      invariant direction == (if LooksClosing(line[pos]) then -1 else 1)
      invariant if direction == -1 then -1 <= i < pos else pos < i <= |line|
      invariant unmatched == if direction == -1 then Nesting(k, line, i + 1, pos) - 1
          else Nesting(k, line, pos + 1, i) + 1
      invariant unmatchedOther == if direction == -1 then Others(k, line, i + 1, pos) else Others(k, line, pos + 1, i)
      invariant forall j ::
        0 <= j < |line| && (if direction == -1 then i < j < pos else pos < j < i) ==> !Balanced(line, pos, j)
      decreases if direction == -1 then i else |line| - i
    {
      if direction == -1 {
        Split(k, line, i, i + 1, pos);
        One(k, line, i);
      }
      if LooksClosing(line[i]) {
        if line[i] == k.close {
          unmatched := unmatched - 1;
        } else {
          unmatchedOther := unmatchedOther - 1;
        }
      } else if LooksOpening(line[i]) {
        if line[i] == k.open {
          unmatched := unmatched + 1;
        } else {
          unmatchedOther := unmatchedOther + 1;
        }
      }
      if unmatched == 0 {
        highlight := i;
        error := unmatchedOther != 0;
        return;
      }
      i := i + direction;
    }
  }

  /** What a scan finds is unique. */
  lemma HighlightIsUnique(line: seq<Char32>, pos: nat, i: nat, e: bool, j: nat, f: bool)
    requires Highlights(line, pos, i, e) && Highlights(line, pos, j, f)
    ensures i == j && e == f
  {
    assert Between(pos, i, j) || Between(pos, j, i) || i == j;
  }

  /** Nearest to balance means that the bracket found is the partner, of the same kind. */
  lemma FoundIsPartner(line: seq<Char32>, pos: nat, i: nat, error: bool)
    requires Highlights(line, pos, i, error)
    ensures line[i] == if LooksClosing(line[pos]) then KindOf(line[pos]).open else KindOf(line[pos]).close
  {
    var k := KindOf(line[pos]);
    if LooksClosing(line[pos]) {
      BackwardStaysBelow(line, pos, i, error, i + 1);
      Split(k, line, i, i + 1, pos);
      One(k, line, i);
    } else {
      ForwardStaysAbove(line, pos, i, error, i);
    }
  }

  /** Until the position found, the nesting does not reach its end. */
  lemma {:induction false} BackwardStaysBelow(line: seq<Char32>, pos: nat, i: nat, error: bool, j: nat)
    requires Highlights(line, pos, i, error) && LooksClosing(line[pos]) && i < j <= pos
    ensures Nesting(KindOf(line[pos]), line, j, pos) <= 0
    decreases pos - j
  {
    if j < pos {
      var k := KindOf(line[pos]);
      BackwardStaysBelow(line, pos, i, error, j + 1);
      Split(k, line, j, j + 1, pos);
      One(k, line, j);
      assert Between(pos, j, i);
    }
  }

  lemma {:induction false} ForwardStaysAbove(line: seq<Char32>, pos: nat, i: nat, error: bool, j: nat)
    requires Highlights(line, pos, i, error) && !LooksClosing(line[pos]) && pos < j <= i
    ensures Nesting(KindOf(line[pos]), line, pos + 1, j) >= 0
    decreases j
  {
    if pos + 1 < j {
      ForwardStaysAbove(line, pos, i, error, j - 1);
      assert Between(pos, j - 1, i);
    }
  }

  /** From a real bracket, the scan back from what is highlighted highlights the bracket, with the same error flag. */
  lemma MatchingIsMutual(line: seq<Char32>, pos: nat, i: nat, error: bool)
    requires Highlights(line, pos, i, error) && IsBracket(line[pos])
    ensures Highlights(line, i, pos, error)
  {
    var k := KindOf(line[pos]);
    FoundIsPartner(line, pos, i, error);
    if LooksClosing(line[pos]) {
      SameStretch(line, k, i, pos);
      forall j | 0 <= j < |line| && Between(i, j, pos) ensures !Balanced(line, i, j) {
        BackwardStaysBelow(line, pos, i, error, j + 1);
        Split(k, line, i, j + 1, pos);
        Split(k, line, i, i + 1, j + 1);
        One(k, line, i);
      }
    } else {
      SameStretch(line, k, pos, i);
      forall j | 0 <= j < |line| && Between(i, j, pos) ensures !Balanced(line, i, j) {
        ForwardStaysAbove(line, pos, i, error, j);
        Split(k, line, pos + 1, j, i + 1);
        Split(k, line, j, i, i + 1);
        One(k, line, i);
      }
    }
  }

  /** Between a bracket and its partner the two scans see the same characters. */
  lemma SameStretch(line: seq<Char32>, k: Kind, open: nat, close: nat)
    requires open < close < |line| && line[open] == k.open && line[close] == k.close && k.open != k.close
    ensures Nesting(k, line, open, close) == 1 <==> Nesting(k, line, open + 1, close + 1) == -1
    ensures Others(k, line, open, close) == Others(k, line, open + 1, close + 1)
  {
    Split(k, line, open, open + 1, close);
    Split(k, line, open + 1, close, close + 1);
    One(k, line, open);
    One(k, line, close);
  }

  /** A letter whose code ends in the byte of a bracket is taken for one: U+0128 in front of a parenthesis. */
  lemma LetterIsTakenForBracket()
    ensures !IsBracket(0x128) && Highlights([0x128, CLOSE_PAREN], 0, 1, false)
    ensures forall e: bool :: !Highlights([0x128, CLOSE_PAREN], 1, 0, e)
  {
    var line: seq<Char32> := [0x128, CLOSE_PAREN];
    assert Nesting(KindOf(line[0]), line, 1, 2) == Nesting(KindOf(line[0]), line, 1, 1) - 1;
    assert Others(KindOf(line[0]), line, 1, 2) == Others(KindOf(line[0]), line, 1, 1);
    assert Highlights(line, 0, 1, false);
    if e: bool :| Highlights(line, 1, 0, e) {
      FoundIsPartner(line, 1, 0, e);
    }
  }

  /** Matching is mutual exactly for real brackets: a character that only ends in the same byte is never found. */
  lemma MutualIffBracket(line: seq<Char32>, pos: nat, i: nat, error: bool)
    requires Highlights(line, pos, i, error)
    ensures (exists e: bool :: Highlights(line, i, pos, e)) <==> IsBracket(line[pos])
  {
    if IsBracket(line[pos]) {
      MatchingIsMutual(line, pos, i, error);
    }
    if e: bool :| Highlights(line, i, pos, e) {
      FoundIsPartner(line, i, pos, e);
    }
  }

  // ---------------------------------------------------------------- in terms of the characters themselves

  /** The three pairs of brackets. */
  predicate ArePair(open: nat, close: nat) {
    (open == 0x28 && close == 0x29) || (open == 0x5B && close == 0x5D) || (open == 0x7B && close == 0x7D)
  }

  /** How often a character is in a stretch of the line. */
  function Count(line: seq<Char32>, from: nat, end: nat, c: nat): nat
    requires end <= |line|
    decreases end
  {
    if end <= from then 0 else Count(line, from, end - 1, c) + if line[end - 1] == c then 1 else 0
  }

  /** No character only ends in the byte of a bracket, or in a zero byte. */
  predicate IsPlain(line: seq<Char32>) {
    forall i :: 0 <= i < |line| ==> IsPlainOne(line[i])
  }

  predicate IsPlainOne(c: Char32) {
    c % 0x100 in {0x00, 0x28, 0x29, 0x5B, 0x5D, 0x7B, 0x7D} ==> 0 < c < 0x100
  }

  function AllOpen(line: seq<Char32>, from: nat, end: nat): nat
    requires end <= |line|
  {
    Count(line, from, end, 0x28) + Count(line, from, end, 0x5B) + Count(line, from, end, 0x7B)
  }

  function AllClose(line: seq<Char32>, from: nat, end: nat): nat
    requires end <= |line|
  {
    Count(line, from, end, 0x29) + Count(line, from, end, 0x5D) + Count(line, from, end, 0x7D)
  }

  function OneIf(b: bool): int {
    if b then 1 else 0
  }

  lemma CountsOne(k: Kind, c: Char32)
    requires ArePair(k.open, k.close)
    ensures Own(k, c) == OneIf(c == k.open) - OneIf(c == k.close)
    ensures IsPlainOne(c) ==>
      Own(k, c) + Other(k, c) == OneIf(c == 0x28) + OneIf(c == 0x5B) + OneIf(c == 0x7B)
          - OneIf(c == 0x29) - OneIf(c == 0x5D) - OneIf(c == 0x7D)
  {
  }

  lemma {:induction false} NestingCounts(k: Kind, line: seq<Char32>, from: nat, end: nat)
    requires end <= |line| && ArePair(k.open, k.close)
    ensures Nesting(k, line, from, end) == Count(line, from, end, k.open) - Count(line, from, end, k.close)
    ensures IsPlain(line) ==>
      Nesting(k, line, from, end) + Others(k, line, from, end) == AllOpen(line, from, end) - AllClose(line, from, end)
    decreases end
  {
    hide LooksOpening, LooksClosing, Own, Other, IsPlainOne;
    if from < end {
      NestingCounts(k, line, from, end - 1);
      CountsOne(k, line[end - 1]);
    }
  }

  /** The stretch between the cursor and another position, both included. */
  function StretchFrom(pos: nat, i: nat): nat {
    if pos < i then pos else i
  }

  function StretchEnd(pos: nat, i: nat): nat {
    if pos < i then i + 1 else pos + 1
  }

  /** The stretch from the cursor to `i` has as many brackets of the one kind as of the other. */
  predicate Even(line: seq<Char32>, pos: nat, i: nat, open: nat, close: nat)
    requires pos < |line| && i < |line|
  {
    Count(line, StretchFrom(pos, i), StretchEnd(pos, i), open)
        == Count(line, StretchFrom(pos, i), StretchEnd(pos, i), close)
  }

  lemma BalancedMeansEven(line: seq<Char32>, pos: nat, i: nat, open: Char32, close: Char32)
    requires pos < |line| && i < |line| && ArePair(open, close) && (line[pos] == open || line[pos] == close)
    ensures Balanced(line, pos, i)
        <==> (if line[pos] == open then pos < i else i < pos) && Even(line, pos, i, open, close)
    ensures Balanced(line, pos, i) && IsPlain(line) ==>
      OthersBetween(line, pos, i) ==
      AllOpen(line, StretchFrom(pos, i), StretchEnd(pos, i)) - AllClose(line, StretchFrom(pos, i), StretchEnd(pos, i))
  {
    var k := Kind(open, close);
    assert KindOf(line[pos]) == k && (LooksClosing(line[pos]) <==> line[pos] == close);
    if pos < i {
      Split(k, line, pos, pos + 1, i + 1);
      One(k, line, pos);
      NestingCounts(k, line, pos, i + 1);
    } else if i < pos {
      Split(k, line, i, pos, pos + 1);
      One(k, line, pos);
      NestingCounts(k, line, i, pos + 1);
    }
  }

  /**
    From a real bracket, what is highlighted is the nearest position in its direction up to which there are
    as many of its opening as of its closing brackets; it holds the partner.  In a line without look-alikes
    an error is flagged exactly if up to there opening and closing brackets of all kinds differ in number.
   */
  lemma HighlightMeans(line: seq<Char32>, pos: nat, i: nat, error: bool, open: Char32, close: Char32)
    requires pos < |line| && i < |line| && ArePair(open, close) && (line[pos] == open || line[pos] == close)
    ensures (exists e: bool :: Highlights(line, pos, i, e)) <==>
      && (if line[pos] == open then pos < i else i < pos)
      && Even(line, pos, i, open, close)
      && (forall j :: 0 <= j < |line| && Between(pos, j, i) ==> !Even(line, pos, j, open, close))
    ensures Highlights(line, pos, i, error) ==> line[i] == if line[pos] == open then close else open
    ensures Highlights(line, pos, i, error) && IsPlain(line) ==>
      (error <==> AllOpen(line, StretchFrom(pos, i), StretchEnd(pos, i)) != AllClose(line, StretchFrom(pos, i),
          StretchEnd(pos, i)))
  {
    hide KindOf, Even, IsPlain, Nesting, Others;
    BalancedMeansEven(line, pos, i, open, close);
    forall j | 0 <= j < |line| && Between(pos, j, i)
      ensures Balanced(line, pos, j)
          <==> (if line[pos] == open then pos < j else j < pos) && Even(line, pos, j, open, close)
    {
      BalancedMeansEven(line, pos, j, open, close);
    }
    hide Balanced, OthersBetween;
    var e := OthersBetween(line, pos, i) != 0;
    if Highlights(line, pos, i, error) {
      KindIsPair(line[pos], open, close);
      FoundIsPartner(line, pos, i, error);
    }
    assert Highlights(line, pos, i, e) <==> (Balanced(line, pos, i) && forall j ::
        0 <= j < |line| && Between(pos, j, i) ==> !Balanced(line, pos, j));
  }

  lemma KindIsPair(c: Char32, open: Char32, close: Char32)
    requires ArePair(open, close) && (c == open || c == close)
    ensures KindOf(c) == Kind(open, close) && (LooksClosing(c) <==> c == close)
  {
  }
}
