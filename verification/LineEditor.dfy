/** `KillRing` and the part of `InputBuffer` that kills and yanks, in linenoise/src/linenoise.cpp, on their buffers. */
module LineEditor {
  import opened KillRingModel

  class KillRing {
    var size: nat
    var index: nat
    const indexToSlot: array<nat>
    var theRing: seq<Text>
    var lastAction: Action
    var lastYankSize: nat

    /** The slots in use are numbered without gaps, and each stands once in `indexToSlot`. */
    ghost predicate Valid()
      reads this, indexToSlot
    {
      && indexToSlot.Length == CAPACITY && size == |theRing| <= CAPACITY
      && (forall i :: 0 <= i < size ==> indexToSlot[i] < size)
      && (forall i, j :: 0 <= i < j < size ==> indexToSlot[i] != indexToSlot[j])
      && (index < size || index == 0)
    }

    ghost function Entries(): (entries: seq<Text>)
      requires Valid()
      reads this, indexToSlot
      ensures |entries| == size
    {
      seq(size, i requires 0 <= i < size reads this, indexToSlot requires Valid() => theRing[indexToSlot[i]])
    }

    ghost function Abstract(): Ring
      requires Valid()
      reads this, indexToSlot
    {
      Ring(Entries(), index, lastAction, lastYankSize)
    }

    constructor ()
      ensures Valid() && Abstract() == Ring([], 0, Other, 0) && fresh(indexToSlot)
    {
      size, index, theRing, lastAction, lastYankSize := 0, 0, [], Other, 0;
      indexToSlot := new nat[CAPACITY](_ => 0);
    }

    /** `memmove(&indexToSlot[1], &indexToSlot[0], n)`, then the slot in front. */
    method PutInFront(n: nat, slot: nat)
      requires n < indexToSlot.Length
      modifies indexToSlot
      ensures indexToSlot[0] == slot && forall i :: 0 < i <= n ==> indexToSlot[i] == old(indexToSlot[i - 1])
    {
      forall i | 0 < i <= n {
        indexToSlot[i] := indexToSlot[i - 1];
      }
      indexToSlot[0] := slot;
    }

    method Kill(text: Text, forward: bool)
      requires Valid()
      modifies this, indexToSlot
      ensures Valid() && Abstract() == KillText(old(Abstract()), text, forward)
    {
      if |text| == 0 {
        return;
      }
      if lastAction == Action.Kill && size > 0 {
        var slot := indexToSlot[0];
        theRing := theRing[slot := UpToNul(if forward then theRing[slot] + text else text + theRing[slot])];
        assert Entries() == old(Entries())[0 := theRing[slot]];
      } else {
        Open(text);
      }
    }

    /** A new entry, in a new slot or in that of the oldest. */
    method Open(text: Text)
      requires Valid()
      modifies `size, `index, `theRing, indexToSlot
      ensures Valid() && index == 0 && Entries() == Newest([text] + old(Entries()))
    {
      if size < CAPACITY {
        Grow(text);
      } else {
        Recycle(text);
        assert Newest([text] + old(Entries())) == [text] + old(Entries())[..CAPACITY - 1];
      }
      ghost var entries := Entries();
      index := 0;
      assert Entries() == entries;
    }

    method Grow(text: Text)
      requires Valid() && size < CAPACITY
      modifies `size, `theRing, indexToSlot
      ensures Valid() && Entries() == [text] + old(Entries())
    {
      PutInFront(size, size);
      size := size + 1;
      theRing := theRing + [text];
      assert forall i :: 0 < i < size ==> Entries()[i] == old(Entries())[i - 1];
    }

    method Recycle(text: Text)
      requires Valid() && size == CAPACITY
      modifies `theRing, indexToSlot
      ensures Valid() && Entries() == [text] + old(Entries())[..CAPACITY - 1]
    {
      var slot := indexToSlot[CAPACITY - 1];
      theRing := theRing[slot := text];
      PutInFront(CAPACITY - 1, slot);
      assert forall i :: 0 < i < CAPACITY ==> indexToSlot[i] == old(indexToSlot[i - 1]) != slot;
      assert forall i :: 0 < i < CAPACITY ==> theRing[indexToSlot[i]] == old(theRing[indexToSlot[i - 1]]);
    }

    /** The entry at `index`, or nothing if there is none. */
    method Yank() returns (text: Text, found: bool)
      requires Valid()
      ensures found == (Entries() != []) && (found ==> text == Entries()[index])
    {
      found := size > 0;
      text := if found then theRing[indexToSlot[index]] else [];
    }

    method YankPop() returns (text: Text, found: bool)
      requires Valid()
      modifies `index
      ensures Valid() && found == (Entries() != []) && Entries() == old(Entries())
      ensures found ==> Abstract() == Pop(old(Abstract())) && text == Entries()[index]
      ensures !found ==> index == old(index)
    {
      if size == 0 {
        return [], false;
      }
      index := index + 1;
      if index == size {
        index := 0;
      }
      text, found := theRing[indexToSlot[index]], true;
    }
  }

  class InputBuffer {
    const buf32: array<Char32>
    const buflen: nat
    var len: nat
    var pos: nat
    const killRing: KillRing

    /** The text is followed by a NUL; `buflen` leaves room for it. */
    ghost predicate Valid()
      reads this, buf32, killRing, killRing.indexToSlot
    {
      && buf32.Length == buflen + 1 && pos <= len <= buflen && buf32[len] == 0
      && killRing.Valid()
      && (killRing.lastAction == Action.Yank ==> killRing.size > 0 && killRing.lastYankSize <= pos)
    }

    ghost function Abstract(): Editor
      requires Valid()
      reads this, buf32, killRing, killRing.indexToSlot
    {
      Editor(buf32[..len], pos, killRing.Abstract())
    }

    constructor (bufferLen: nat)
      requires bufferLen > 0
      ensures Valid() && buflen == bufferLen - 1 && Abstract() == Editor([], 0, Ring([], 0, Other, 0))
      ensures fresh(buf32) && fresh(killRing) && fresh(killRing.indexToSlot)
    {
      buf32 := new Char32[bufferLen](_ => 0);
      buflen, len, pos := bufferLen - 1, 0, 0;
      killRing := new KillRing();
    }

    /** `memmove` within the buffer. */
    method Move(target: nat, source: nat, n: nat)
      requires target + n <= buf32.Length && source + n <= buf32.Length
      modifies buf32
      ensures buf32[..] == Moved(old(buf32[..]), target, source, n)
    {
      forall i | target <= i < target + n {
        buf32[i] := buf32[source + (i - target)];
      }
    }

    /** `memmove` from a text of the ring. */
    method Store(target: nat, text: Text)
      requires target + |text| <= buf32.Length
      modifies buf32
      ensures buf32[..] == Stored(old(buf32[..]), target, text)
    {
      forall i | target <= i < target + |text| {
        buf32[i] := text[i - target];
      }
    }

    /** The text from `start` to the cursor gives way to another, in the order that loses nothing. */
    method Replace(start: nat, text: Text)
      requires start <= pos <= len <= buflen && buf32.Length == buflen + 1 && buf32[len] == 0
      requires len - (pos - start) + |text| <= buflen
      modifies buf32, `pos, `len
      ensures pos == start + |text| && len == old(len) - (old(pos) - start) + |text| && buf32[len] == 0
      ensures buf32[..len] == old(buf32[..start]) + text + old(buf32[..len])[old(pos)..]
    {
      hide Moved, Stored;
      ghost var was := buf32[..];
      if |text| > pos - start {
        Move(start + |text|, pos, len - pos + 1);
        Store(start, text);
        MovedThenStored(was, start, pos, len, text);
      } else {
        Store(start, text);
        Move(start + |text|, pos, len - pos + 1);
        StoredThenMoved(was, start, pos, len, text);
      }
      ghost var rest := was[..len][pos..];
      len := len - (pos - start) + |text|;
      pos := start + |text|;
      assert buf32[len] == buf32[..][len] && buf32[..len] == buf32[..][..len];
      assert was[..start] == old(buf32[..start]) && rest == old(buf32[..len])[old(pos)..];
    }

    /** `ctrlChar('Y')`. */
    method Yank() returns (beep: bool)
      requires Valid()
      modifies this, buf32, killRing
      ensures Valid() && Abstract() == YankText(old(Abstract()), buflen)
      ensures var r := old(Abstract()).ring; beep <==> r.entries == [] || |r.entries[r.index]| > buflen - old(len)
    {
      hide UpToNul, Newest, Moved, Stored;
      var restored, found := killRing.Yank();
      if !found {
        return true;
      }
      beep := false;
      var count := |restored|;
      if count > buflen - len {
        count := buflen - len;
        beep := true;
      }
      assert buf32[..len][..pos] == buf32[..pos];
      Replace(pos, restored[..count]);
      killRing.lastAction := Action.Yank;
      killRing.lastYankSize := count;
      assert killRing.Entries() == old(killRing.Entries());
    }

    /** `META + 'y'`. */
    method YankPop() returns (beep: bool)
      requires Valid()
      modifies this, buf32, killRing
      ensures Valid() && Abstract() == KillRingModel.YankPop(old(Abstract()), buflen)
      ensures var e := old(Abstract()); var r := Pop(e.ring);
        beep <==> e.ring.lastAction != Action.Yank
                  || |r.entries[r.index]| > buflen - (|e.line| - e.ring.lastYankSize)
    {
      hide UpToNul, Newest, Moved, Stored;
      if killRing.lastAction != Action.Yank {
        return true;
      }
      ghost var e := Abstract();
      var restored, found := killRing.YankPop();
      assert killRing.Abstract() == Pop(e.ring);
      beep := false;
      var count := |restored|;
      if count > killRing.lastYankSize + buflen - len {
        count := killRing.lastYankSize + buflen - len;
        beep := true;
      }
      assert e.line[..pos - killRing.lastYankSize] == buf32[..pos - killRing.lastYankSize];
      Replace(pos - killRing.lastYankSize, restored[..count]);
      assert killRing.Abstract() == Pop(e.ring);
      killRing.lastYankSize := count;
      assert killRing.Abstract() == Pop(e.ring).(lastYankSize := count);
    }

    /** `ctrlChar('K')`. */
    method KillToEnd()
      requires Valid()
      modifies this, buf32, killRing, killRing.indexToSlot
      ensures Valid() && Abstract() == KillRingModel.KillToEnd(old(Abstract()), buflen)
    {
      killRing.Kill(buf32[pos..len], true);
      buf32[pos] := 0;
      len := pos;
      killRing.lastAction := Action.Kill;
    }

    /** The text from the cursor on moves to the front. */
    method ShiftLeft()
      requires pos <= len <= buflen && buf32.Length == buflen + 1 && buf32[len] == 0
      modifies buf32, `pos, `len
      ensures pos == 0 && len == old(len) - old(pos) && buf32[len] == 0 && buf32[..len] == old(buf32[..len])[old(pos)..]
    {
      ghost var was := buf32[..];
      assert buf32[..len] == was[..len];
      len := len - pos;
      Move(0, pos, len + 1);
      assert buf32[len] == buf32[..][len];
      assert buf32[..len] == buf32[..][..len] == was[..len + pos][pos..];
      pos := 0;
    }

    /** `ctrlChar('U')`. */
    method KillToStart()
      requires Valid()
      modifies this, buf32, killRing, killRing.indexToSlot
      ensures Valid() && Abstract() == KillRingModel.KillToStart(old(Abstract()), buflen)
    {
      hide UpToNul, Newest, Moved;
      assert buf32[..pos] == buf32[..len][..pos];
      assert pos == 0 ==> buf32[..pos] == [] && buf32[..len][pos..] == buf32[..len];
      if pos > 0 {
        killRing.Kill(buf32[..pos], false);
        ShiftLeft();
      }
      killRing.lastAction := Action.Kill;
    }

    /** What stands from `start` to `end` is killed, and the rest of the line moves up behind it. */
    method KillBetween(start: nat, end: nat, forward: bool)
      requires buf32.Length == buflen + 1 && start <= end <= len <= buflen && buf32[len] == 0 && pos == start
      requires killRing.Valid()
      modifies `len, buf32, killRing, killRing.indexToSlot
      ensures buf32.Length == buflen + 1 && pos <= len <= buflen && buf32[len] == 0 && pos == old(pos)
      ensures killRing.Valid()
      ensures buf32[..len] == old(buf32[..start]) + old(buf32[..len])[end..]
      ensures killRing.Abstract() == KillText(old(killRing.Abstract()), old(buf32[..len])[start..end], forward)
    {
      hide UpToNul, Newest, Moved;
      assert buf32[start..end] == buf32[..len][start..end];
      killRing.Kill(buf32[start..end], forward);
      ghost var was := buf32[..];
      Move(start, end, len - end + 1);
      MovedUp(was, start, end, len);
      assert was[..len] == buf32[..][..0] + old(buf32[..len]) && was[..start] == old(buf32[..start]);
      len := len - (end - start);
      assert buf32[len] == buf32[..][len] && buf32[..len] == buf32[..][..len];
    }

    /** The two loops to the right: over what is not of the class, then over what is. */
    method WordEnd(word: Class) returns (endingPos: nat)
      requires pos <= len <= buf32.Length
      ensures endingPos == WordRight(buf32[..len], word, pos)
    {
      ghost var line := buf32[..len];
      endingPos := pos;
      while endingPos < len && !word(buf32[endingPos])
        invariant pos <= endingPos <= len
        invariant SkipRight(line, Not(word), pos) == SkipRight(line, Not(word), endingPos)
      {
        assert line[endingPos] == buf32[endingPos];
        endingPos := endingPos + 1;
      }
      while endingPos < len && word(buf32[endingPos])
        invariant pos <= endingPos <= len
        invariant WordRight(line, word, pos) == SkipRight(line, word, endingPos)
      {
        assert line[endingPos] == buf32[endingPos];
        endingPos := endingPos + 1;
      }
    }

    /** The two loops to the left, which move the cursor. */
    method BackUp(word: Class)
      requires pos <= len <= buf32.Length
      modifies `pos
      ensures pos == WordLeft(buf32[..len], word, old(pos))
    {
      ghost var line := buf32[..len];
      while pos > 0 && !word(buf32[pos - 1])
        invariant pos <= old(pos)
        invariant SkipLeft(line, Not(word), old(pos)) == SkipLeft(line, Not(word), pos)
      {
        assert line[pos - 1] == buf32[pos - 1];
        pos := pos - 1;
      }
      while pos > 0 && word(buf32[pos - 1])
        invariant pos <= old(pos)
        invariant WordLeft(line, word, old(pos)) == SkipLeft(line, word, pos)
      {
        assert line[pos - 1] == buf32[pos - 1];
        pos := pos - 1;
      }
    }

    /** `META + 'd'`. */
    method KillWordRight(alnum: Class)
      requires Valid()
      modifies this, buf32, killRing, killRing.indexToSlot
      ensures Valid() && Abstract() == KillRingModel.KillWordRight(old(Abstract()), buflen, alnum)
    {
      hide UpToNul, Newest, KillText, WordRight;
      ghost var e := Abstract();
      if pos < len {
        var endingPos := WordEnd(alnum);
        KillBetween(pos, endingPos, true);
        assert e.line[..pos] == old(buf32[..pos]);
      } else {
        NothingKilled(e, pos, true);
      }
      killRing.lastAction := Action.Kill;
    }

    /** `META + ctrlChar('H')` with the alphanumeric characters, `ctrlChar('W')` with all but the space. */
    method KillWordLeft(word: Class)
      requires Valid()
      modifies this, buf32, killRing, killRing.indexToSlot
      ensures Valid() && Abstract() == KillRingModel.KillWordLeft(old(Abstract()), buflen, word)
    {
      hide UpToNul, Newest, KillText, WordLeft;
      ghost var e := Abstract();
      if pos > 0 {
        var startingPos := pos;
        BackUp(word);
        assert e.line[..pos] == buf32[..pos];
        KillBetween(pos, startingPos, false);
      } else {
        NothingKilled(e, pos, false);
      }
      killRing.lastAction := Action.Kill;
    }
  }

  lemma NothingKilled(e: Editor, pos: nat, forward: bool)
    requires pos <= |e.line|
    ensures KillRange(e, pos, pos, forward) == e.(pos := pos, ring := e.ring.(lastAction := Action.Kill))
  {
    assert e.line[..pos] + e.line[pos..] == e.line && e.line[pos..pos] == [];
  }

  lemma MovedUp(s: Text, start: nat, end: nat, len: nat)
    requires start <= end <= len < |s|
    ensures var n, t := len - (end - start), Moved(s, start, end, len - end + 1);
      t[..n] == s[..start] + s[..len][end..] && t[n] == s[len]
  {
    assert s[end..len + 1] == s[..len][end..] + [s[len]];
  }

  function Moved(s: Text, target: nat, source: nat, n: nat): Text
    requires target + n <= |s| && source + n <= |s|
  {
    s[..target] + s[source..source + n] + s[target + n..]
  }

  function Stored(s: Text, target: nat, text: Text): Text
    requires target + |text| <= |s|
  {
    s[..target] + text + s[target + |text|..]
  }

  /** Both orders of the two moves put the text in place and keep what follows the cursor, its NUL included. */
  lemma MovedThenStored(s: Text, start: nat, pos: nat, len: nat, text: Text)
    requires start <= pos <= len < |s| && len - (pos - start) + |text| < |s| && |text| >= pos - start
    ensures var n, t := len - (pos - start) + |text|, Stored(Moved(s, start + |text|, pos, len - pos + 1), start, text);
      t[..n] == s[..start] + text + s[..len][pos..] && t[n] == s[len]
  {
    var a := start + |text|;
    var m, tail := Moved(s, a, pos, len - pos + 1), s[a + (len - pos + 1)..];
    assert m[..start] == s[..start] && m[a..] == s[pos..len + 1] + tail;
    assert Stored(m, start, text) == s[..start] + text + (s[pos..len + 1] + tail);
    hide Moved, Stored;
    UpToNulOf(s, start, pos, len, text, tail);
  }

  lemma StoredThenMoved(s: Text, start: nat, pos: nat, len: nat, text: Text)
    requires start <= pos <= len < |s| && len - (pos - start) + |text| < |s| && |text| <= pos - start
    ensures var n, t := len - (pos - start) + |text|, Moved(Stored(s, start, text), start + |text|, pos, len - pos + 1);
      t[..n] == s[..start] + text + s[..len][pos..] && t[n] == s[len]
  {
    var a, u := start + |text|, Stored(s, start, text);
    var tail := u[a + (len - pos + 1)..];
    assert u[..a] == s[..start] + text && u[pos..len + 1] == s[pos..len + 1];
    assert Moved(u, a, pos, len - pos + 1) == s[..start] + text + (s[pos..len + 1] + tail);
    hide Moved, Stored;
    UpToNulOf(s, start, pos, len, text, tail);
  }

  lemma UpToNulOf(s: Text, start: nat, pos: nat, len: nat, text: Text, tail: Text)
    requires start <= pos <= len < |s|
    ensures var n, t := len - (pos - start) + |text|, s[..start] + text + (s[pos..len + 1] + tail);
      n < |t| && t[..n] == s[..start] + text + s[..len][pos..] && t[n] == s[len]
  {
    var a := start + |text|;
    assert s[pos..len + 1] == s[..len][pos..] + [s[len]];
    var front := s[..start] + text + s[..len][pos..];
    assert s[..start] + text + (s[pos..len + 1] + tail) == front + ([s[len]] + tail);
  }
}
