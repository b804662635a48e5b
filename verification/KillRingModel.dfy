/** The kill ring of linenoise/src/linenoise.cpp and the editing commands that use it, on values. */
module KillRingModel {

  type Char32 = c: nat | c < 0x1_0000_0000
  type Text = seq<Char32>

  const CAPACITY: nat := 10

  datatype Action = Other | Kill | Yank

  /** The entries, newest first; `index` is the one yanked next. */
  datatype Ring = Ring(entries: seq<Text>, index: nat, lastAction: Action, lastYankSize: nat)

  predicate ValidRing(r: Ring) {
    |r.entries| <= CAPACITY && (r.index < |r.entries| || r.index == 0)
  }

  /** `initFromBuffer`: the text ends at its first NUL. */
  function UpToNul(text: Text): Text {
    if text == [] || text[0] == 0 then [] else [text[0]] + UpToNul(text[1..])
  }

  lemma {:induction false} WithoutNul(text: Text)
    requires 0 !in text
    ensures UpToNul(text) == text
    decreases |text|
  {
    if text != [] {
      WithoutNul(text[1..]);
    }
  }

  function Newest<T>(entries: seq<T>): (newest: seq<T>)
    ensures newest <= entries && |newest| == if |entries| < 10 then |entries| else 10
  {
    if |entries| <= CAPACITY then entries else entries[..CAPACITY]
  }

  /** `KillRing::kill`: text killed right after a kill is added to it, before or behind. */
  function KillText(r: Ring, text: Text, forward: bool): Ring {
    if text == [] then r
    else if r.lastAction == Kill && r.entries != [] then
      r.(entries := r.entries[0 := UpToNul(if forward then r.entries[0] + text else text + r.entries[0])])
    else r.(entries := Newest([text] + r.entries), index := 0)
  }

  function Pop(r: Ring): Ring {
    r.(index := if r.index + 1 >= |r.entries| then 0 else r.index + 1)
  }

  // ---------------------------------------------------------------- the ring holds the latest groups

  /** A text killed, a yank, a yank-pop, or any other command. */
  datatype Event = Killed(text: Text, forward: bool) | Yanked | Rotated | Interrupted

  function Apply(r: Ring, e: Event): Ring {
    match e
    case Killed(text, forward) => KillText(r, text, forward).(lastAction := Kill)
    case Yanked => if r.entries == [] then r else r.(lastAction := Yank)
    case Interrupted => r.(lastAction := Other)
    case Rotated => if r.lastAction == Yank && r.entries != [] then Pop(r) else r
  }

  function ApplyAll(r: Ring, events: seq<Event>): Ring
    decreases |events|
  {
    if events == [] then r else ApplyAll(Apply(r, events[0]), events[1..])
  }

  /**
    The groups of texts killed in a row, newest first, without a limit; `open` says that the last
    command killed.  A text added to a group is joined to it, and the whole cut at the first NUL.
   */
  datatype Groups = Groups(texts: seq<Text>, open: bool)

  function Joined(group: Text, text: Text, forward: bool): Text {
    if forward then group + text else text + group
  }

  function Group(g: Groups, e: Event): Groups {
    match e
    case Killed(text, forward) =>
      if text == [] then g.(open := true)
      else if g.open && g.texts != [] then Groups([UpToNul(Joined(g.texts[0], text, forward))] + g.texts[1..], true)
      else Groups([text] + g.texts, true)
    case Yanked => if g.texts == [] then g else g.(open := false)
    case Interrupted => g.(open := false)
    case Rotated => g
  }

  function GroupAll(g: Groups, events: seq<Event>): Groups
    decreases |events|
  {
    if events == [] then g else GroupAll(Group(g, events[0]), events[1..])
  }

  predicate Matches(r: Ring, g: Groups) {
    r.entries == Newest(g.texts) && (r.lastAction == Kill <==> g.open)
  }

  lemma GroupMatches(r: Ring, g: Groups, e: Event)
    requires Matches(r, g)
    ensures Matches(Apply(r, e), Group(g, e))
  {
    if e.Killed? && e.text != [] {
      if g.open && g.texts != [] {
        AddedMatches(r, g, e.text, e.forward);
      } else {
        assert Newest([e.text] + r.entries) == Newest([e.text] + g.texts);
      }
    }
  }

  lemma AddedMatches(r: Ring, g: Groups, text: Text, forward: bool)
    requires Matches(r, g) && g.open && g.texts != [] && text != []
    ensures Matches(Apply(r, Killed(text, forward)), Group(g, Killed(text, forward)))
  {
    hide UpToNul;
    var whole := UpToNul(Joined(g.texts[0], text, forward));
    assert r.entries[0] == g.texts[0];
    assert Newest([whole] + g.texts[1..]) == Newest(g.texts)[0 := whole];
  }

  /** The ring is the at most ten latest groups of kills, newest first, for every sequence of commands. */
  lemma {:induction false} RingIsLatestGroups(r: Ring, g: Groups, events: seq<Event>)
    requires Matches(r, g)
    ensures ApplyAll(r, events).entries == Newest(GroupAll(g, events).texts)
    decreases |events|
  {
    hide Matches, Apply, Group;
    if events == [] {
      assert ApplyAll(r, events).entries == Newest(GroupAll(g, events).texts) by {
        MatchesEntries(r, g);
      }
    } else {
      GroupMatches(r, g, events[0]);
      RingIsLatestGroups(Apply(r, events[0]), Group(g, events[0]), events[1..]);
    }
  }

  lemma MatchesEntries(r: Ring, g: Groups)
    requires Matches(r, g)
    ensures r.entries == Newest(g.texts)
  {
  }

  /** A text that starts a group is kept whole; one that is added is kept whole exactly if no NUL is in the two. */
  lemma GroupIsWholeIff(g: Groups, text: Text, forward: bool)
    requires text != []
    ensures var after := Group(g, Killed(text, forward));
      && after.texts != []
      && if !g.open || g.texts == [] then after.texts == [text] + g.texts
         else |after.texts| == |g.texts| && after.texts[1..] == g.texts[1..]
              && (after.texts[0] == Joined(g.texts[0], text, forward) <==> 0 !in g.texts[0] && 0 !in text)
  {
    if g.open && g.texts != [] {
      WholeIffNoNul(Joined(g.texts[0], text, forward));
    }
  }

  lemma {:induction false} WholeIffNoNul(text: Text)
    ensures UpToNul(text) == text <==> 0 !in text
    ensures 0 !in UpToNul(text) && UpToNul(text) <= text
    ensures |UpToNul(text)| < |text| ==> text[|UpToNul(text)|] == 0
    decreases |text|
  {
    if text != [] {
      WholeIffNoNul(text[1..]);
      assert text == [text[0]] + text[1..];
    }
  }

  predicate NoNuls(texts: seq<Text>) {
    forall i :: 0 <= i < |texts| ==> 0 !in texts[i]
  }

  lemma FewAreNewest(texts: seq<Text>)
    requires |texts| <= CAPACITY
    ensures Newest(texts) == texts
  {
  }

  lemma ApplyNext(r: Ring, events: seq<Event>, i: nat, q: Ring)
    requires i < |events| && Apply(r, events[i]) == q
    ensures ApplyAll(r, events[i..]) == ApplyAll(q, events[i + 1..])
  {
    assert events[i..][1..] == events[i + 1..];
  }

  /** Two groups are killed, and the older one is yanked last. */
  lemma OlderYankedLast(a: Char32, b: Char32, events: seq<Event>)
    requires |events| >= 5 && events[..5] == [Killed([a], true), Interrupted, Killed([b], true), Yanked, Rotated]
    ensures ApplyAll(Ring([], 0, Other, 0), events) == ApplyAll(Ring([[b], [a]], 1, Yank, 0), events[5..])
  {
    hide UpToNul, Newest;
    FewAreNewest([[a]]);
    FewAreNewest([[b], [a]]);
    assert [[a]] + [] == [[a]] && [[b]] + [[a]] == [[b], [a]];
    var r1, r3 := Ring([[a]], 0, Kill, 0), Ring([[b], [a]], 0, Kill, 0);
    assert events[0..] == events && forall i :: 0 <= i < 5 ==> events[i] == events[..5][i];
    ApplyNext(Ring([], 0, Other, 0), events, 0, r1);
    ApplyNext(r1, events, 1, r1.(lastAction := Other));
    ApplyNext(r1.(lastAction := Other), events, 2, r3);
    ApplyNext(r3, events, 3, r3.(lastAction := Yank));
    ApplyNext(r3.(lastAction := Yank), events, 4, r3.(lastAction := Yank, index := 1));
  }

  /**
    A kill that is added to a group leaves `index` alone.  A yank-pop, then a kill of no text, which
    counts as a kill, then one of some text: the next yank does not give back what was killed last.
   */
  lemma YankAfterKillCanMiss(a: Char32, b: Char32, c: Char32) returns (events: seq<Event>)
    requires a != 0 && b != 0 && c != 0
    ensures events != [] && events[|events| - 1] == Killed([c], false)
    ensures var r := ApplyAll(Ring([], 0, Other, 0), events);
      r.entries == [[c, b], [a]] && r.index == 1
  {
    hide UpToNul, Newest;
    events := [Killed([a], true), Interrupted, Killed([b], true), Yanked, Rotated, Killed([], true),
        Killed([c], false)];
    OlderYankedLast(a, b, events);
    WithoutNul([c, b]);
    var r := Ring([[b], [a]], 1, Yank, 0);
    assert [c] + [b] == [c, b] && [[b], [a]][0 := [c, b]] == [[c, b], [a]];
    assert events[7..] == [];
    ApplyNext(r, events, 5, r.(lastAction := Kill));
    ApplyNext(r.(lastAction := Kill), events, 6, r.(lastAction := Kill, entries := [[c, b], [a]]));
  }

  /**
    What is killed is in the first entry, cut at the first NUL if it was added; the next yank gives that
    entry exactly if the kill opened it or `index` was 0.
   */
  lemma YankedNextIff(r: Ring, text: Text, forward: bool)
    requires ValidRing(r) && text != []
    ensures var q, opens := KillText(r, text, forward), r.lastAction != Kill || r.entries == [];
      && q.entries != []
      && (q.index == 0 <==> opens || r.index == 0)
      && (opens ==> q.entries[0] == text)
      && (!opens ==> q.entries[0] <= Joined(r.entries[0], text, forward))
      && (!opens ==> (q.entries[0] == Joined(r.entries[0], text, forward) <==> 0 !in r.entries[0] && 0 !in text))
  {
    if r.entries != [] {
      WholeIffNoNul(Joined(r.entries[0], text, forward));
    }
  }

  // ---------------------------------------------------------------- the line

  /** `buf32[0..len)`, `pos` and the ring. */
  datatype Editor = Editor(line: Text, pos: nat, ring: Ring)

  /** After a yank, what it put in stands before the cursor. */
  predicate ValidEditor(e: Editor, buflen: nat) {
    && e.pos <= |e.line| <= buflen
    && ValidRing(e.ring)
    && (e.ring.lastAction == Yank ==> e.ring.entries != [] && e.ring.lastYankSize <= e.pos)
  }

  function Cut(text: Text, room: nat): (cut: Text)
    ensures cut <= text && |cut| == if |text| < room then |text| else room
  {
    if |text| > room then text[..room] else text
  }

  /** `ctrlChar('Y')`; without an entry it only beeps. */
  function YankText(e: Editor, buflen: nat): Editor
    requires ValidEditor(e, buflen)
  {
    if e.ring.entries == [] then e
    else
      var text := Cut(e.ring.entries[e.ring.index], buflen - |e.line|);
      Editor(e.line[..e.pos] + text + e.line[e.pos..], e.pos + |text|,
          e.ring.(lastAction := Yank, lastYankSize := |text|))
  }

  /** `META + 'y'`; only after a yank. */
  function YankPop(e: Editor, buflen: nat): Editor
    requires ValidEditor(e, buflen)
  {
    if e.ring.lastAction != Yank then e
    else
      var r, start := Pop(e.ring), e.pos - e.ring.lastYankSize;
      var text := Cut(r.entries[r.index], buflen - (|e.line| - e.ring.lastYankSize));
      Editor(e.line[..start] + text + e.line[e.pos..], start + |text|, r.(lastYankSize := |text|))
  }

  function Pops(e: Editor, buflen: nat, k: nat): (f: Editor)
    requires ValidEditor(e, buflen)
    ensures ValidEditor(f, buflen)
    decreases k
  {
    if k == 0 then e else YankPop(Pops(e, buflen, k - 1), buflen)
  }

  /** `ctrlChar('K')` and `ctrlChar('U')`. */
  function KillToEnd(e: Editor, buflen: nat): Editor
    requires ValidEditor(e, buflen)
  {
    Editor(e.line[..e.pos], e.pos, KillText(e.ring, e.line[e.pos..], true).(lastAction := Kill))
  }

  function KillToStart(e: Editor, buflen: nat): Editor
    requires ValidEditor(e, buflen)
  {
    Editor(e.line[e.pos..], 0, KillText(e.ring, e.line[..e.pos], false).(lastAction := Kill))
  }

  /** The word commands kill from `from` to `end`, one of which is the cursor. */
  function KillRange(e: Editor, from: nat, end: nat, forward: bool): Editor
    requires from <= end <= |e.line|
  {
    Editor(e.line[..from] + e.line[end..], from, KillText(e.ring, e.line[from..end], forward).(lastAction := Kill))
  }

  type Class = Char32 -> bool

  /** What `ctrlChar('W')` takes for a word. */
  function NoSpace(): Class {
    (c: Char32) => c != 0x20
  }

  /** The first position from `i` on whose character is not in the class, or the end. */
  function SkipRight(line: Text, skip: Class, i: nat): (j: nat)
    requires i <= |line|
    ensures i <= j <= |line|
    ensures forall k :: i <= k < j ==> skip(line[k])
    ensures j < |line| ==> !skip(line[j])
    decreases |line| - i
  {
    if i < |line| && skip(line[i]) then SkipRight(line, skip, i + 1) else i
  }

  /** The last position up to `i` that no character of the class precedes, or the start. */
  function SkipLeft(line: Text, skip: Class, i: nat): (j: nat)
    requires i <= |line|
    ensures j <= i
    ensures forall k :: j <= k < i ==> skip(line[k])
    ensures 0 < j ==> !skip(line[j - 1])
  {
    if 0 < i && skip(line[i - 1]) then SkipLeft(line, skip, i - 1) else i
  }

  function Not(c: Class): Class {
    (x: Char32) => !c(x)
  }

  /** Where the word commands stop: behind the other characters and then those of the class. */
  function WordRight(line: Text, word: Class, i: nat): (j: nat)
    requires i <= |line|
    ensures i <= j <= |line| && (i < |line| ==> i < j)
  {
    SkipRight(line, word, SkipRight(line, Not(word), i))
  }

  function WordLeft(line: Text, word: Class, i: nat): (j: nat)
    requires i <= |line|
    ensures j <= i && (0 < i ==> j < i)
  {
    SkipLeft(line, word, SkipLeft(line, Not(word), i))
  }

  /** First what is not of the word is passed over, then the word, and both as far as they go. */
  lemma WordRightMeans(line: Text, word: Class, i: nat) returns (start: nat)
    requires i <= |line|
    ensures var end := WordRight(line, word, i);
      && i <= start <= end <= |line|
      && (forall k :: i <= k < start ==> !word(line[k])) && (forall k :: start <= k < end ==> word(line[k]))
      && (start < |line| ==> word(line[start])) && (end < |line| ==> !word(line[end]))
  {
    start := SkipRight(line, Not(word), i);
    assert forall k :: i <= k < start ==> Not(word)(line[k]);
    assert start < |line| ==> !Not(word)(line[start]);
  }

  lemma WordLeftMeans(line: Text, word: Class, i: nat) returns (end: nat)
    requires i <= |line|
    ensures var start := WordLeft(line, word, i);
      && start <= end <= i
      && (forall k :: end <= k < i ==> !word(line[k])) && (forall k :: start <= k < end ==> word(line[k]))
      && (0 < end ==> word(line[end - 1])) && (0 < start ==> !word(line[start - 1]))
  {
    end := SkipLeft(line, Not(word), i);
    assert forall k :: end <= k < i ==> Not(word)(line[k]);
    assert 0 < end ==> !Not(word)(line[end - 1]);
  }

  /** `META + 'd'`; which characters are alphanumeric is up to the locale. */
  function KillWordRight(e: Editor, buflen: nat, alnum: Class): Editor
    requires ValidEditor(e, buflen)
  {
    KillRange(e, e.pos, WordRight(e.line, alnum, e.pos), true)
  }

  /** `META + ctrlChar('H')` with the alphanumeric characters, `ctrlChar('W')` with all but the space. */
  function KillWordLeft(e: Editor, buflen: nat, word: Class): Editor
    requires ValidEditor(e, buflen)
  {
    KillRange(e, WordLeft(e.line, word, e.pos), e.pos, false)
  }

  /** `ctrlChar('W')` takes the spaces before the cursor, and what is no space before them, as far as it goes. */
  lemma KillToSpaceMeans(e: Editor, buflen: nat) returns (start: nat, end: nat)
    requires ValidEditor(e, buflen)
    ensures start <= end <= e.pos
    ensures KillWordLeft(e, buflen, NoSpace()) == KillRange(e, start, e.pos, false)
    ensures (forall k :: end <= k < e.pos ==> e.line[k] == 0x20) && (0 < end ==> e.line[end - 1] != 0x20)
    ensures (forall k :: start <= k < end ==> e.line[k] != 0x20) && (0 < start ==> e.line[start - 1] == 0x20)
  {
    var word := NoSpace();
    start := WordLeft(e.line, word, e.pos);
    end := WordLeftMeans(e.line, word, e.pos);
  }

  lemma CommandsKeepValid(e: Editor, buflen: nat, word: Class)
    requires ValidEditor(e, buflen)
    ensures ValidEditor(YankText(e, buflen), buflen) && ValidEditor(YankPop(e, buflen), buflen)
    ensures ValidEditor(KillToEnd(e, buflen), buflen) && ValidEditor(KillToStart(e, buflen), buflen)
    ensures ValidEditor(KillWordRight(e, buflen, word), buflen)
    ensures ValidEditor(KillWordLeft(e, buflen, word), buflen)
  {
    hide UpToNul, KillText, WordRight, WordLeft;
    KillKeepsRing(e.ring, e.line[e.pos..WordRight(e.line, word, e.pos)], true);
    KillKeepsRing(e.ring, e.line[WordLeft(e.line, word, e.pos)..e.pos], false);
    KillKeepsRing(e.ring, e.line[e.pos..], true);
    KillKeepsRing(e.ring, e.line[..e.pos], false);
  }

  lemma KillKeepsRing(r: Ring, text: Text, forward: bool)
    requires ValidRing(r)
    ensures ValidRing(KillText(r, text, forward))
  {
  }

  /** The index `k` places on in the ring. */
  function Turned(r: Ring, k: nat): (i: nat)
    requires r.entries != []
    ensures i < |r.entries|
  {
    (r.index + k) % |r.entries|
  }

  lemma TurnedOnce(r: Ring, k: nat)
    requires r.entries != []
    ensures Turned(r, k + 1) == if Turned(r, k) + 1 >= |r.entries| then 0 else Turned(r, k) + 1
  {
    NextModulo(r.index + k, |r.entries|);
    assert r.index + (k + 1) == r.index + k + 1;
  }

  lemma NotTurned(r: Ring)
    requires r.index < |r.entries|
    ensures Turned(r, 0) == r.index
  {
    Remainder(r.index, |r.entries|, 0, r.index);
  }

  lemma NextModulo(i: nat, n: nat)
    requires n > 0
    ensures (i + 1) % n == if i % n + 1 == n then 0 else i % n + 1
  {
    var q, r := i / n, i % n;
    if r + 1 == n {
      assert n * (q + 1) == n * q + n;
      Remainder(i + 1, n, q + 1, 0);
    } else {
      Remainder(i + 1, n, q, r + 1);
    }
  }

  lemma Remainder(x: nat, n: nat, q: nat, r: nat)
    requires r < n && x == n * q + r
    ensures x % n == r
  {
    var p := x / n;
    assert x == n * p + x % n;
    assert n * (q - p) == n * q - n * p == x % n - r;
    if q > p {
      AtLeast(n, q - p);
    } else if p > q {
      assert n * (p - q) == -(n * (q - p));
      AtLeast(n, p - q);
    }
  }

  lemma AtLeast(n: nat, d: nat)
    requires d >= 1
    ensures n * d >= n
  {
    assert n * d == n + n * (d - 1);
  }

  /** A text replaced before the cursor. */
  lemma Replaced(left: Text, was: Text, right: Text)
    ensures var line := left + was + right;
      line[..|left|] == left && line[|left| + |was|..] == right && |line| == |left| + |was| + |right|
  {
  }

  /** What a line is after a yank, or a yank-pop, of the text. */
  predicate AfterYank(e: Editor, left: Text, text: Text, right: Text) {
    && e.line == left + text + right && e.pos == |left| + |text|
    && e.ring.lastYankSize == |text| && e.ring.lastAction == Yank
  }

  lemma PopReplaces(e: Editor, buflen: nat, left: Text, text: Text, right: Text)
    requires ValidEditor(e, buflen) && AfterYank(e, left, text, right)
    ensures var r := Pop(e.ring);
      AfterYank(YankPop(e, buflen), left, Cut(r.entries[r.index], buflen - (|left| + |right|)), right)
  {
    Replaced(left, text, right);
  }

  lemma YankBegins(e: Editor, buflen: nat)
    requires ValidEditor(e, buflen) && e.ring.entries != []
    ensures ValidEditor(YankText(e, buflen), buflen) && e.ring.index < |e.ring.entries| && e.pos <= |e.line| <= buflen
    ensures var f := YankText(e, buflen);
      && f.ring.entries == e.ring.entries && f.ring.index == e.ring.index
      && AfterYank(f, e.line[..e.pos], Cut(e.ring.entries[e.ring.index], buflen - |e.line|), e.line[e.pos..])
  {
  }

  lemma PopBegins(e: Editor, buflen: nat, left: Text, text: Text, right: Text)
    requires ValidEditor(e, buflen) && AfterYank(e, left, text, right)
    ensures var f := YankPop(e, buflen); f.ring.entries == e.ring.entries && f.ring.index == Pop(e.ring).index
  {
  }

  /**
    A yank and `k` yank-pops right after it: the line is what was left of the cursor, the entry `k`
    places on in the ring as far as there is room, and what was right of the cursor.
   */
  lemma {:induction false} YankAndPops(e: Editor, buflen: nat, k: nat)
    requires ValidEditor(e, buflen) && e.ring.entries != []
    ensures ValidEditor(YankText(e, buflen), buflen)
    ensures var f := Pops(YankText(e, buflen), buflen, k);
      && f.ring.entries == e.ring.entries && f.ring.index == Turned(e.ring, k)
      && AfterYank(f, e.line[..e.pos], Cut(e.ring.entries[Turned(e.ring, k)], buflen - |e.line|), e.line[e.pos..])
    decreases k
  {
    hide Turned, Cut, AfterYank, ValidRing, YankText, YankPop;
    YankBegins(e, buflen);
    NotTurned(e.ring);
    if k != 0 {
      YankAndPops(e, buflen, k - 1);
      TurnedOnce(e.ring, k - 1);
      var text := Cut(e.ring.entries[Turned(e.ring, k - 1)], buflen - |e.line|);
      var f := Pops(YankText(e, buflen), buflen, k - 1);
      PopBegins(f, buflen, e.line[..e.pos], text, e.line[e.pos..]);
      PopReplaces(f, buflen, e.line[..e.pos], text, e.line[e.pos..]);
    }
  }

  /** Any kill that opens a group, of a word or to an end of the line, is undone by a yank. */
  lemma KillThenYank(e: Editor, buflen: nat, from: nat, end: nat, forward: bool)
    requires ValidEditor(e, buflen) && e.ring.lastAction != Kill && from < end <= |e.line|
    requires e.pos == if forward then from else end
    ensures var f := KillRange(e, from, end, forward);
      && ValidEditor(f, buflen)
      && YankText(f, buflen).line == e.line && YankText(f, buflen).pos == end
  {
    var f := KillRange(e, from, end, forward);
    var left, text, right := e.line[..from], e.line[from..end], e.line[end..];
    assert f.line[..from] == left && f.line[from..] == right;
    assert f.ring.entries[0] == text;
    assert left + text + right == e.line;
  }

  /** The kills to the ends of the line are such kills, and keep the whole text, whatever was killed before. */
  lemma KillsAreRanges(e: Editor, buflen: nat)
    requires ValidEditor(e, buflen)
    ensures KillToEnd(e, buflen) == KillRange(e, e.pos, |e.line|, true)
    ensures KillToStart(e, buflen) == KillRange(e, 0, e.pos, false)
  {
    assert e.line[..e.pos] + e.line[|e.line|..] == e.line[..e.pos];
    assert e.line[..0] + e.line[e.pos..] == e.line[e.pos..];
    assert e.line[0..e.pos] == e.line[..e.pos] && e.line[e.pos..|e.line|] == e.line[e.pos..];
  }

  lemma KillToEndThenYank(e: Editor, buflen: nat)
    requires ValidEditor(e, buflen) && e.ring.lastAction != Kill && e.pos < |e.line|
    ensures ValidEditor(KillToEnd(e, buflen), buflen) && YankText(KillToEnd(e, buflen), buflen).line == e.line
  {
    KillsAreRanges(e, buflen);
    KillThenYank(e, buflen, e.pos, |e.line|, true);
  }

  lemma KillToStartThenYank(e: Editor, buflen: nat)
    requires ValidEditor(e, buflen) && e.ring.lastAction != Kill && e.pos > 0
    ensures ValidEditor(KillToStart(e, buflen), buflen) && YankText(KillToStart(e, buflen), buflen).line == e.line
  {
    KillsAreRanges(e, buflen);
    KillThenYank(e, buflen, 0, e.pos, false);
  }

  lemma WordKillThenYank(e: Editor, buflen: nat, word: Class)
    requires ValidEditor(e, buflen) && e.ring.lastAction != Kill
    ensures ValidEditor(KillWordRight(e, buflen, word), buflen) && ValidEditor(KillWordLeft(e, buflen, word), buflen)
    ensures e.pos < |e.line| ==> YankText(KillWordRight(e, buflen, word), buflen).line == e.line
    ensures 0 < e.pos ==> YankText(KillWordLeft(e, buflen, word), buflen).line == e.line
  {
    CommandsKeepValid(e, buflen, word);
    if e.pos < |e.line| {
      KillThenYank(e, buflen, e.pos, WordRight(e.line, word, e.pos), true);
    }
    if 0 < e.pos {
      KillThenYank(e, buflen, WordLeft(e.line, word, e.pos), e.pos, false);
    }
  }

  // ---------------------------------------------------------------- sessions

  /** The keys that use the ring, a key that does something else to the line, and one that only redraws. */
  datatype Command =
    | YankKey
    | YankPopKey
    | KillToEndKey
    | KillToStartKey
    | KillWordRightKey(right: Class)
    | KillWordLeftKey(left: Class)
    | OtherKey(line: Text, pos: nat)
    | RedrawKey

  /** A line that does not fit in the buffer is not taken, but the key counts as another action. */
  function Execute(e: Editor, buflen: nat, c: Command): (f: Editor)
    requires ValidEditor(e, buflen)
    ensures ValidEditor(f, buflen)
  {
    CommandsKeepValid(e, buflen, if c.KillWordRightKey? then c.right else if c.KillWordLeftKey? then c.left
        else NoSpace());
    hide ValidRing, YankText, YankPop, KillToEnd, KillToStart, KillWordRight, KillWordLeft;
    match c
    case YankKey => YankText(e, buflen)
    case YankPopKey => YankPop(e, buflen)
    case KillToEndKey => KillToEnd(e, buflen)
    case KillToStartKey => KillToStart(e, buflen)
    case KillWordRightKey(alnum) => KillWordRight(e, buflen, alnum)
    case KillWordLeftKey(alnum) => KillWordLeft(e, buflen, alnum)
    case OtherKey(line, pos) =>
      var other := e.ring.(lastAction := Other);
      if pos <= |line| <= buflen then Editor(line, pos, other) else e.(ring := other)
    case RedrawKey => e
  }

  function ExecuteAll(e: Editor, buflen: nat, commands: seq<Command>): Editor
    requires ValidEditor(e, buflen)
    decreases |commands|
  {
    if commands == [] then e else ExecuteAll(Execute(e, buflen, commands[0]), buflen, commands[1..])
  }

  /** What a command is to the ring. */
  function Happens(e: Editor, buflen: nat, c: Command): seq<Event>
    requires ValidEditor(e, buflen)
  {
    match c
    case YankKey => [Yanked]
    case YankPopKey => [Rotated]
    case KillToEndKey => [Killed(e.line[e.pos..], true)]
    case KillToStartKey => [Killed(e.line[..e.pos], false)]
    case KillWordRightKey(alnum) => [Killed(e.line[e.pos..WordRight(e.line, alnum, e.pos)], true)]
    case KillWordLeftKey(alnum) => [Killed(e.line[WordLeft(e.line, alnum, e.pos)..e.pos], false)]
    case OtherKey(_, _) => [Interrupted]
    case RedrawKey => []
  }

  function HappensAll(e: Editor, buflen: nat, commands: seq<Command>): seq<Event>
    requires ValidEditor(e, buflen)
    decreases |commands|
  {
    if commands == [] then [] else
      Happens(e, buflen, commands[0]) + HappensAll(Execute(e, buflen, commands[0]), buflen, commands[1..])
  }

  /** The same ring but for the size of the last yank, which is about the line. */
  predicate SameRing(r: Ring, q: Ring) {
    r.entries == q.entries && r.index == q.index && r.lastAction == q.lastAction
  }

  lemma CommandIsEvent(e: Editor, buflen: nat, c: Command, r: Ring)
    requires ValidEditor(e, buflen) && SameRing(e.ring, r)
    ensures SameRing(Execute(e, buflen, c).ring, ApplyAll(r, Happens(e, buflen, c)))
  {
    hide UpToNul, Newest, WordRight, WordLeft;
  }

  lemma {:induction false} ApplyInTurn(r: Ring, first: seq<Event>, second: seq<Event>)
    ensures ApplyAll(r, first + second) == ApplyAll(ApplyAll(r, first), second)
    decreases |first|
  {
    hide Apply;
    if first == [] {
      assert first + second == second;
    } else {
      assert (first + second)[1..] == first[1..] + second;
      ApplyInTurn(Apply(r, first[0]), first[1..], second);
    }
  }

  lemma {:induction false} CommandsAreEvents(e: Editor, buflen: nat, commands: seq<Command>, r: Ring)
    requires ValidEditor(e, buflen) && SameRing(e.ring, r)
    ensures SameRing(ExecuteAll(e, buflen, commands).ring, ApplyAll(r, HappensAll(e, buflen, commands)))
    decreases |commands|
  {
    hide ValidEditor, Execute, Happens, Apply;
    if commands != [] {
      CommandIsEvent(e, buflen, commands[0], r);
      var f, q := Execute(e, buflen, commands[0]), ApplyAll(r, Happens(e, buflen, commands[0]));
      CommandsAreEvents(f, buflen, commands[1..], q);
      ApplyInTurn(r, Happens(e, buflen, commands[0]), HappensAll(f, buflen, commands[1..]));
    }
  }

  /** In every session the ring is the at most ten latest groups of what the keys killed, newest first. */
  lemma RingOfSession(line: Text, pos: nat, buflen: nat, commands: seq<Command>)
    requires pos <= |line| <= buflen
    ensures var e := Editor(line, pos, Ring([], 0, Other, 0));
      && ValidEditor(e, buflen)
      && ExecuteAll(e, buflen, commands).ring.entries
           == Newest(GroupAll(Groups([], false), HappensAll(e, buflen, commands)).texts)
  {
    var e := Editor(line, pos, Ring([], 0, Other, 0));
    assert ValidEditor(e, buflen) && Matches(e.ring, Groups([], false));
    hide ExecuteAll, HappensAll, ApplyAll, GroupAll, Newest, Matches;
    CommandsAreEvents(e, buflen, commands, e.ring);
    RingIsLatestGroups(e.ring, Groups([], false), HappensAll(e, buflen, commands));
  }

  /** A key that moves the cursor. */
  function Move(e: Editor, pos: nat): Editor
    requires pos <= |e.line|
  {
    e.(pos := pos, ring := e.ring.(lastAction := Other))
  }

  /** The 6 of "6 7 5" is killed, then the 7 as a group of its own. */
  lemma TwoGroups()
    ensures ValidEditor(Editor([6, 7, 5], 1, Ring([], 0, Other, 0)), 10)
    ensures KillToStart(Editor([6, 7, 5], 1, Ring([], 0, Other, 0)), 10) == Editor([7, 5], 0, Ring([[6]], 0, Kill, 0))
    ensures ValidEditor(Editor([7, 5], 1, Ring([[6]], 0, Other, 0)), 10)
    ensures KillToStart(Editor([7, 5], 1, Ring([[6]], 0, Other, 0)), 10)
         == Editor([5], 0, Ring([[7], [6]], 0, Kill, 0))
  {
    assert [6, 7, 5][..1] == [6] && [6, 7, 5][1..] == [7, 5] && [[6]] + [] == [[6]];
    assert [7, 5][..1] == [7] && [7, 5][1..] == [5] && [[7]] + [[6]] == [[7], [6]];
  }

  lemma OlderIsYanked()
    ensures var f := Editor([5], 1, Ring([[7], [6]], 0, Other, 0));
      && ValidEditor(f, 10) && ValidEditor(YankText(f, 10), 10)
      && YankPop(YankText(f, 10), 10) == Editor([5, 6], 2, Ring([[7], [6]], 1, Yank, 1))
  {
    var f := Editor([5], 1, Ring([[7], [6]], 0, Other, 0));
    assert YankText(f, 10) == Editor([5, 7], 2, Ring([[7], [6]], 0, Yank, 1));
  }

  lemma NothingThenAll()
    ensures var g := Editor([5, 6], 2, Ring([[7], [6]], 1, Yank, 1));
      && ValidEditor(g, 10) && ValidEditor(KillToEnd(g, 10), 10)
      && KillToStart(KillToEnd(g, 10), 10) == Editor([], 0, Ring([[5, 6, 7], [6]], 1, Kill, 1))
  {
    var g := Editor([5, 6], 2, Ring([[7], [6]], 1, Yank, 1));
    assert KillToEnd(g, 10) == g.(ring := g.ring.(lastAction := Kill));
    assert [5, 6] + [7] == [5, 6, 7];
    WithoutNul([5, 6, 7]);
  }

  /**
    The line "6 7 5" and an empty ring.  The 6 is killed, then the 7 as a group of its own, and the 6
    is yanked behind the 5 by a yank and a yank-pop.  Killing to the end, which kills nothing, and
    killing to the start, which takes the whole line, belong to one group; a yank then brings back
    the 6 alone.
   */
  lemma EditorYankCanMiss() returns (e: Editor, f: Editor)
    ensures e == Editor([6, 7, 5], 1, Ring([], 0, Other, 0))
    ensures ValidEditor(e, 10) && |KillToStart(e, 10).line| == 2 && ValidEditor(Move(KillToStart(e, 10), 1), 10)
    ensures var k := KillToStart(Move(KillToStart(e, 10), 1), 10); |k.line| == 1 && f == Move(k, 1)
    ensures ValidEditor(f, 10) && f.line == [5] && f.ring.entries == [[7], [6]]
    ensures ValidEditor(YankText(f, 10), 10)
    ensures var g := YankPop(YankText(f, 10), 10);
      && ValidEditor(g, 10) && g.line == [5, 6] && ValidEditor(KillToEnd(g, 10), 10)
      && var h := KillToStart(KillToEnd(g, 10), 10);
      && ValidEditor(h, 10) && h.line == [] && h.ring.entries == [[5, 6, 7], [6]]
      && YankText(h, 10).line == [6]
  {
    hide KillToStart, KillToEnd, YankPop;
    TwoGroups();
    e := Editor([6, 7, 5], 1, Ring([], 0, Other, 0));
    f := Editor([5], 1, Ring([[7], [6]], 0, Other, 0));
    OlderIsYanked();
    NothingThenAll();
    assert YankText(Editor([], 0, Ring([[5, 6, 7], [6]], 1, Kill, 1)), 10).line == [6];
  }
}
