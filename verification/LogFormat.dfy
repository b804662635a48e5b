/** What `process_data` of util_lib/logger/src/logger.cpp puts in the log, and how far it writes in its buffer. */
module LogFormat {

  const SZ_LOG_BUF: nat := 1024 * 1024 * 2
  const SZ_LOG_BUF_EXTRA: nat := 200
  const TIMESTAMP_LEN: nat := 25
  const LEVEL_LEN: nat := 8

  datatype LogLevel =
    | Debug9 | Debug8 | Debug7 | Debug6 | Debug5 | Debug4 | Debug3 | Debug2 | Debug1 | Debug0
    | Info | Warning | Error | Fatal | Always

  /** `str_log_levels`. */
  function LevelName(level: LogLevel): (name: string)
    ensures |name| == LEVEL_LEN
  {
    match level
    case Debug9 => "Debug_9 "
    case Debug8 => "Debug_8 "
    case Debug7 => "Debug_7 "
    case Debug6 => "Debug_6 "
    case Debug5 => "Debug_5 "
    case Debug4 => "Debug_4 "
    case Debug3 => "Debug_3 "
    case Debug2 => "Debug_2 "
    case Debug1 => "Debug_1 "
    case Debug0 => "Debug_0 "
    case Info => "Info    "
    case Warning => "Warning "
    case Error => "Error   "
    case Fatal => "Fatal   "
    case Always => "Always  "
  }

  /** The position of a level in the enumeration, by which levels compare. */
  function Rank(level: LogLevel): nat {
    match level
    case Debug9 => 0
    case Debug8 => 1
    case Debug7 => 2
    case Debug6 => 3
    case Debug5 => 4
    case Debug4 => 5
    case Debug3 => 6
    case Debug2 => 7
    case Debug1 => 8
    case Debug0 => 9
    case Info => 10
    case Warning => 11
    case Error => 12
    case Fatal => 13
    case Always => 14
  }

  /** The levels from the lowest to the highest. */
  const LEVELS: seq<LogLevel> :=
    [Debug9, Debug8, Debug7, Debug6, Debug5, Debug4, Debug3, Debug2, Debug1, Debug0, Info, Warning, Error, Fatal,
        Always]

  lemma RanksCountUp(level: LogLevel)
    ensures Rank(level) < |LEVELS| && LEVELS[Rank(level)] == level
  {
  }

  /** What a message is logged with; `stamps` are what the calls of `timestamp` return, in turn. */
  datatype Source = Source(name: string, level: LogLevel, stamps: nat -> string)

  ghost predicate ValidSource(src: Source) {
    forall i :: |src.stamps(i)| == TIMESTAMP_LEN
  }

  function Header(src: Source, i: nat): string {
    src.stamps(i) + LevelName(src.level) + " " + src.name + " "
  }

  function HeaderLength(name: string): nat {
    TIMESTAMP_LEN + LEVEL_LEN + 1 + |name| + 1
  }

  function Normal(c: char): char {
    if c == '\r' || c == '\0' then '\n' else c
  }

  /** The bytes as the loop puts them; `i` headers have been written, and `start` says that a line is to begin. */
  function Format(src: Source, data: string, i: nat, start: bool): string
    decreases |data|
  {
    if data == "" then (if start then "" else "\n")
    else
      var c := Normal(data[0]);
      (if start then Header(src, i) else "") + [c] + Format(src, data[1..], if start then i + 1 else i, c == '\n')
  }

  // ---------------------------------------------------------------- lines

  /** The length of the first line: up to a newline, carriage return or NUL. */
  function LineLength(data: string): (n: nat)
    ensures n <= |data|
    ensures forall k :: 0 <= k < n ==> Normal(data[k]) != '\n'
    ensures n < |data| ==> Normal(data[n]) == '\n'
  {
    if data == "" || Normal(data[0]) == '\n' then 0 else 1 + LineLength(data[1..])
  }

  function AfterLine(data: string): (rest: string)
    ensures data != "" ==> |rest| < |data|
  {
    if LineLength(data) == |data| then "" else data[LineLength(data) + 1..]
  }

  function Lines(data: string): seq<string>
    decreases |data|
  {
    if data == "" then [] else [data[..LineLength(data)]] + Lines(AfterLine(data))
  }

  function Render(src: Source, lines: seq<string>, i: nat): string
    decreases |lines|
  {
    if lines == [] then "" else Header(src, i) + lines[0] + "\n" + Render(src, lines[1..], i + 1)
  }

  /** Every line has its header and ends in a newline, and nothing else is written. */
  lemma {:induction false} FormatIsLines(src: Source, data: string, i: nat)
    ensures Format(src, data, i, true) == Render(src, Lines(data), i)
    decreases |data|, 1
  {
    hide Header, Format, Render, Lines, AfterLine, LineLength;
    LineStarts(src, data, i);
    if data != "" {
      var n, header, rest := LineLength(data), Header(src, i), Render(src, Lines(AfterLine(data)), i + 1);
      if Normal(data[0]) == '\n' {
        FormatIsLines(src, data[1..], i + 1);
        assert data[..0] == "";
      } else {
        RestOfLine(src, data[1..], i + 1);
        LineGoesOn(data);
        Regroup(header, [data[0]], data[1..][..n - 1], "\n", rest);
      }
    }
  }

  /** Where a line begins. */
  lemma LineStarts(src: Source, data: string, i: nat)
    ensures data == "" ==> Format(src, data, i, true) == "" == Render(src, Lines(data), i)
    ensures data != "" ==>
      && Render(src, Lines(data), i)
          == Header(src, i) + data[..LineLength(data)] + "\n" + Render(src, Lines(AfterLine(data)), i + 1)
      && (Normal(data[0]) != '\n' ==>
            LineLength(data) > 0 && Format(src, data, i, true)
                == Header(src, i) + [data[0]] + Format(src, data[1..], i + 1, false))
      && (Normal(data[0]) == '\n' ==>
            && LineLength(data) == 0 && AfterLine(data) == data[1..]
            && Format(src, data, i, true) == Header(src, i) + "" + "\n" + Format(src, data[1..], i + 1, true))
  {
    hide Header;
    if data != "" {
      assert Lines(data)[1..] == Lines(AfterLine(data));
      if Normal(data[0]) == '\n' {
        assert Header(src, i) + "" + "\n" == Header(src, i) + ['\n'];
      }
    }
  }

  lemma {:induction false} RestOfLine(src: Source, data: string, i: nat)
    ensures Format(src, data, i, false) == data[..LineLength(data)] + "\n" + Render(src, Lines(AfterLine(data)), i)
    decreases |data|, 0
  {
    hide Format, Render, Lines, AfterLine, LineLength;
    var n := LineLength(data);
    LineEnds(src, data, i);
    if data != "" {
      if n == 0 {
        FormatIsLines(src, data[1..], i);
        assert data[..0] + "\n" == "\n";
      } else {
        RestOfLine(src, data[1..], i);
        LineGoesOn(data);
        FirstOfRest(src, data, i);
        Regroup("", [data[0]], data[1..][..n - 1], "\n", Render(src, Lines(AfterLine(data)), i));
      }
    }
  }

  /** Where a line is over. */
  lemma LineEnds(src: Source, data: string, i: nat)
    ensures data == "" ==>
      Format(src, data, i, false) == data[..LineLength(data)] + "\n" + Render(src, Lines(AfterLine(data)), i)
    ensures data != "" && LineLength(data) == 0 ==>
      AfterLine(data) == data[1..] && Format(src, data, i, false) == "\n" + Format(src, data[1..], i, true)
  {
    if data != "" && LineLength(data) == 0 {
      assert "" + ['\n'] == "\n";
    }
  }

  lemma FirstOfRest(src: Source, data: string, i: nat)
    requires data != "" && Normal(data[0]) != '\n'
    ensures Format(src, data, i, false) == "" + [Normal(data[0])] + Format(src, data[1..], i, false)
  {
  }

  lemma Associates(a: string, b: string, c: string)
    ensures (a + b) + c == a + (b + c)
  {
  }

  lemma Regroup(a: string, b: string, c: string, d: string, e: string)
    ensures a + b + (c + d + e) == a + (b + c) + d + e
  {
    Associates(a, b, c);
    Associates(a + b, c + d, e);
    Associates(a + b, c, d);
  }

  lemma TakeMore(s: string, n: nat)
    requires 0 < n <= |s|
    ensures s[..n] == [s[0]] + s[1..][..n - 1] && (n < |s| ==> s[n + 1..] == s[1..][n..])
  {
  }

  lemma LineGoesOn(data: string)
    requires data != "" && LineLength(data) > 0
    ensures LineLength(data[1..]) == LineLength(data) - 1 && Normal(data[0]) == data[0] != '\n'
    ensures data[..LineLength(data)] == [data[0]] + data[1..][..LineLength(data) - 1]
    ensures AfterLine(data) == AfterLine(data[1..])
  {
    assert LineLength(data[1..]) == LineLength(data) - 1;
    hide LineLength;
    TakeMore(data, LineLength(data));
  }

  function Normals(data: string): string {
    if data == "" then "" else [Normal(data[0])] + Normals(data[1..])
  }

  function Joined(lines: seq<string>): string {
    if lines == [] then "" else lines[0] + "\n" + Joined(lines[1..])
  }

  /** The newline that is supplied. */
  function Missing(data: string): string {
    if data == "" || Normal(data[|data| - 1]) == '\n' then "" else "\n"
  }

  /** The lines are the data: nothing is dropped, and only the last newline supplied. */
  lemma {:induction false} LinesAreTheData(data: string)
    ensures Joined(Lines(data)) == Normals(data) + Missing(data)
    decreases |data|
  {
    hide Normals, Missing, AfterLine, LineLength;
    if data == "" {
      assert Normals(data) + Missing(data) == "" by {
        FirstLine(data);
      }
    } else {
      var line, rest := data[..LineLength(data)], AfterLine(data);
      assert Lines(data)[1..] == Lines(rest);
      LinesAreTheData(rest);
      FirstLine(data);
      assert line + "\n" + (Normals(rest) + Missing(rest)) == Normals(data) + Missing(data);
    }
  }

  lemma NormalsOfFirst(data: string, n: nat)
    requires n < |data| && n == LineLength(data)
    ensures Normals(data) == data[..n] + ("\n" + Normals(data[n + 1..]))
  {
    NormalLine(data[..n]);
    NormalsConcat(data[..n], data[n..]);
    assert data == data[..n] + data[n..];
    assert Normals(data[n..]) == "\n" + Normals(data[n + 1..]) by {
      assert data[n..][1..] == data[n + 1..];
    }
  }

  lemma NothingNormal()
    ensures Normals("") == "" == Missing("")
  {
  }

  lemma FirstLine(data: string)
    ensures data == "" ==> Normals(data) + Missing(data) == ""
    ensures data != "" ==>
      data[..LineLength(data)] + "\n" + (Normals(AfterLine(data)) + Missing(AfterLine(data)))
          == Normals(data) + Missing(data)
  {
    hide Normals, LineLength;
    NothingNormal();
    if data != "" {
      var n := LineLength(data);
      if n < |data| {
        NormalsOfFirst(data, n);
        MissingAfter(data, n);
        hide Missing;
        Associates(data[..n], "\n", Normals(data[n + 1..]));
        Associates(data[..n] + "\n", Normals(data[n + 1..]), Missing(data));
      } else {
        assert data[..n] == data;
        NormalLine(data);
        assert data + "\n" + ("" + "") == data + "\n";
      }
    }
  }

  lemma MissingAfter(data: string, n: nat)
    requires n < |data| && Normal(data[n]) == '\n'
    ensures Missing(data[n + 1..]) == Missing(data)
  {
  }

  lemma {:induction false} NormalsConcat(a: string, b: string)
    ensures Normals(a + b) == Normals(a) + Normals(b)
    decreases |a|
  {
    if a == "" {
      assert a + b == b;
    } else {
      assert (a + b)[1..] == a[1..] + b;
      NormalsConcat(a[1..], b);
    }
  }

  lemma {:induction false} NormalLine(line: string)
    requires forall k :: 0 <= k < |line| ==> Normal(line[k]) != '\n'
    ensures Normals(line) == line
    decreases |line|
  {
    if line != "" {
      assert forall k :: 0 <= k < |line[1..]| ==> line[1..][k] == line[k + 1];
      NormalLine(line[1..]);
    }
  }

  // ---------------------------------------------------------------- the bound

  function Max(a: nat, b: nat): nat {
    if a < b then b else a
  }

  /** The highest position of the write pointer from position `used` on, flushes included. */
  function HighWater(used: nat, data: string, start: bool, header: nat): nat
    decreases |data|
  {
    if data == "" then (if start then used else used + 1)
    else
      var next := used + (if start then header else 0) + 1;
      Max(next, HighWater(if next >= SZ_LOG_BUF then 0 else next, data[1..], Normal(data[0]) == '\n', header))
  }

  lemma {:induction false} HighWaterBounded(used: nat, data: string, start: bool, header: nat)
    requires used < SZ_LOG_BUF
    ensures HighWater(used, data, start, header) <= SZ_LOG_BUF + header
    decreases |data|
  {
    if data != "" {
      var next := used + (if start then header else 0) + 1;
      HighWaterBounded(if next >= SZ_LOG_BUF then 0 else next, data[1..], Normal(data[0]) == '\n', header);
    }
  }

  predicate StaysInside(name: string, used: nat, data: string) {
    HighWater(used, data, true, HeaderLength(name)) <= SZ_LOG_BUF + SZ_LOG_BUF_EXTRA
  }

  /** The extra bytes of the buffer are enough for exactly the names of up to 165 bytes. */
  lemma ExtraIsEnoughIff(name: string)
    ensures (forall used: nat, data: string :: used < SZ_LOG_BUF ==> StaysInside(name, used, data)) <==> |name| <= 165
  {
    if |name| <= 165 {
      forall used: nat, data: string | used < SZ_LOG_BUF ensures StaysInside(name, used, data) {
        HighWaterBounded(used, data, true, HeaderLength(name));
      }
    } else {
      assert HighWater(SZ_LOG_BUF - 1, "x", true, HeaderLength(name)) >= SZ_LOG_BUF + HeaderLength(name);
      assert !StaysInside(name, SZ_LOG_BUF - 1, "x");
    }
  }

  // ---------------------------------------------------------------- in terms of the characters themselves

  predicate EndsLine(c: char) {
    c == '\n' || c == '\r' || c == '\0'
  }

  /** The characters of the data that end lines. */
  function EndsIn(data: string): string {
    if data == "" then "" else (if EndsLine(data[0]) then [data[0]] else "") + EndsIn(data[1..])
  }

  /** Lines with the characters that ended them. */
  function Rejoined(lines: seq<string>, ends: string): string
    decreases |lines|
  {
    if lines == [] then ""
    else lines[0] + ends[..if ends == "" then 0 else 1] + Rejoined(lines[1..], if ends == "" then "" else ends[1..])
  }

  predicate NoEnds(line: string) {
    forall k :: 0 <= k < |line| ==> !EndsLine(line[k])
  }

  lemma {:induction false} NoEndsInLine(data: string)
    ensures NoEnds(data[..LineLength(data)])
    ensures EndsIn(data) == if LineLength(data) == |data| then ""
                              else [data[LineLength(data)]] + EndsIn(data[LineLength(data) + 1..])
    ensures LineLength(data) < |data| ==> EndsLine(data[LineLength(data)])
    decreases |data|
  {
    if data != "" && !EndsLine(data[0]) {
      NoEndsInLine(data[1..]);
      var n := LineLength(data[1..]);
      assert data[..n + 1] == [data[0]] + data[1..][..n];
      assert n < |data[1..]| ==> data[1..][n + 1..] == data[n + 2..];
    }
  }

  /**
    The lines of the data are what stands between its newlines, carriage returns and NULs, and no more
    than that: with those put back they are the data.
   */
  lemma {:induction false} LinesAreCut(data: string)
    ensures Cuts(data, Lines(data), EndsIn(data))
    decreases |data|
  {
    hide LineLength, AfterLine, EndsLine, NoEnds;
    NoEndsInLine(data);
    if data != "" {
      hide EndsIn, Lines, Cuts;
      LinesOf(data);
      NothingCut();
      var n, rest := LineLength(data), AfterLine(data);
      LinesAreCut(rest);
      CutOnce(data, n, rest, Lines(rest), EndsIn(rest));
    }
  }

  lemma NothingCut()
    ensures Lines("") == [] && EndsIn("") == ""
  {
  }

  lemma LinesOf(data: string)
    requires data != ""
    ensures var n := LineLength(data);
      && n <= |data| && AfterLine(data) == (if n == |data| then "" else data[n + 1..])
      && Lines(data) == [data[..n]] + Lines(AfterLine(data))
  {
    hide LineLength;
  }

  /** `lines` and `ends` cut the data. */
  predicate Cuts(data: string, lines: seq<string>, ends: string) {
    && (forall i :: 0 <= i < |lines| ==> NoEnds(lines[i]))
    && Rejoined(lines, ends) == data
    && |lines| == |ends| + if data == "" || EndsLine(data[|data| - 1]) then 0 else 1
  }

  lemma CutOnce(data: string, n: nat, rest: string, lines: seq<string>, ends: string)
    requires data != "" && n <= |data| && rest == (if n == |data| then "" else data[n + 1..])
    requires Cuts(rest, lines, ends) && NoEnds(data[..n]) && (n < |data| ==> EndsLine(data[n]))
    requires n == |data| ==> lines == [] && ends == ""
    ensures Cuts(data, [data[..n]] + lines, if n == |data| then "" else [data[n]] + ends)
  {
    hide EndsLine, NoEnds, Rejoined;
    if n == |data| {
      assert data[..n] == data;
      LastHasNoEnd(data);
      RejoinedWithout(data);
    } else {
      RejoinedWith(data[..n], data[n], lines, ends);
      assert data == data[..n] + [data[n]] + rest;
      assert rest != "" ==> data[|data| - 1] == rest[|rest| - 1];
    }
  }

  lemma LastHasNoEnd(data: string)
    requires data != "" && NoEnds(data)
    ensures !EndsLine(data[|data| - 1])
  {
  }

  lemma RejoinedWithout(line: string)
    ensures Rejoined([line] + [], "") == line
  {
    var lines := [line] + [];
    assert lines[1..] == [] && ""[..0] == "";
    assert line + "" + "" == line;
  }

  lemma RejoinedWith(line: string, end: char, lines: seq<string>, ends: string)
    ensures Rejoined([line] + lines, [end] + ends) == line + [end] + Rejoined(lines, ends)
  {
    assert ([line] + lines)[1..] == lines && ([end] + ends)[1..] == ends && ([end] + ends)[..1] == [end];
  }

  /** The fields of a header, by position. */
  lemma HeaderFields(src: Source, i: nat)
    requires ValidSource(src)
    ensures var h := Header(src, i);
      && |h| == 25 + 8 + 1 + |src.name| + 1
      && h[..25] == src.stamps(i) && h[25..33] == LevelName(src.level) && h[33] == ' '
      && h[34..34 + |src.name|] == src.name && h[|h| - 1] == ' '
  {
    hide LevelName;
  }

  // ---------------------------------------------------------------- what stays in the buffer

  /** The position of the write pointer after the loop and the newline that may follow it. */
  function EndsAt(used: nat, data: string, start: bool, header: nat): nat
    decreases |data|
  {
    if data == "" then (if start then used else used + 1)
    else
      var next := used + (if start then header else 0) + 1;
      EndsAt(if next >= SZ_LOG_BUF then 0 else next, data[1..], Normal(data[0]) == '\n', header)
  }

  datatype Settings = Settings(buffered: bool, logLevel: LogLevel, forceFlushLogLevel: LogLevel)

  /** The comparison at the end of `process_data`: of two settings. */
  predicate ForcesFlush(t: Settings) {
    t.buffered && Rank(t.forceFlushLogLevel) <= Rank(t.logLevel)
  }

  /** The bytes that stay in the buffer when a message has been processed. */
  function Remaining(t: Settings, used: nat, data: string, name: string): nat {
    var end := if data == "" then used else EndsAt(used, data, true, HeaderLength(name));
    if (data != "" && (!t.buffered || end >= SZ_LOG_BUF)) || ForcesFlush(t) then 0 else end
  }

  /** The last byte put in the buffer brought the pointer to its size. */
  predicate JustFilled(used: nat, data: string, name: string) {
    var end := EndsAt(used, data, true, HeaderLength(name));
    end == 0 || end >= SZ_LOG_BUF
  }

  /** A message is written out on return exactly if the settings force it or it has just filled the buffer. */
  lemma WrittenOutIff(t: Settings, used: nat, data: string, name: string)
    requires t.buffered && data != ""
    ensures Remaining(t, used, data, name) == 0 <==> ForcesFlush(t) || JustFilled(used, data, name)
  {
  }

  lemma {:induction false} EndOfFormat(src: Source, used: nat, data: string, i: nat, start: bool)
    requires ValidSource(src)
    ensures var end, size := EndsAt(used, data, start, HeaderLength(src.name)), |Format(src, data, i, start)|;
      && end <= used + size
      && (used + size < SZ_LOG_BUF ==> end == used + size)
      && (used + size >= SZ_LOG_BUF ==> end >= SZ_LOG_BUF || end < used + size)
    decreases |data|
  {
    hide Header, HeaderLength;
    if data != "" {
      var header := if start then HeaderLength(src.name) else 0;
      var next, ends := used + header + 1, Normal(data[0]) == '\n';
      FormatGrows(src, data, i, start);
      EndOfFormat(src, if next >= SZ_LOG_BUF then 0 else next, data[1..], if start then i + 1 else i, ends);
    }
  }

  lemma FormatGrows(src: Source, data: string, i: nat, start: bool)
    requires ValidSource(src) && data != ""
    ensures |Format(src, data, i, start)| == (if start then HeaderLength(src.name) else 0) + 1
         + |Format(src, data[1..], if start then i + 1 else i, Normal(data[0]) == '\n')|
  {
  }

  /**
    The lines of a message stay in the buffer behind what it held, and nothing is written out, exactly
    if the settings force nothing and all of it is less than the buffer holds.
   */
  lemma NothingWrittenIff(t: Settings, src: Source, used: nat, data: string, i: nat)
    requires ValidSource(src) && t.buffered && data != "" && used < SZ_LOG_BUF
    ensures var size := |Format(src, data, i, true)|;
      && Remaining(t, used, data, src.name) <= used + size
      && (Remaining(t, used, data, src.name) == used + size <==> !ForcesFlush(t) && used + size < SZ_LOG_BUF)
  {
    hide Header, HeaderLength, EndsAt, Format;
    EndOfFormat(src, used, data, i, true);
    FormatGrows(src, data, i, true);
  }

  /**
    What one would expect of the level that forces a flush: a message of that level, if logged at all,
    is written out.
   */
  ghost predicate UrgentIsWrittenOut(t: Settings, name: string) {
    forall level, used: nat, data: string ::
      Rank(t.forceFlushLogLevel) <= Rank(level) && Rank(t.logLevel) <= Rank(level) && used < SZ_LOG_BUF
          && data != "" ==>
        Remaining(t, used, data, name) == 0
  }

  /**
    It holds exactly if nothing is buffered or the forcing level is at most the logging level, when all
    messages are written out.
   */
  lemma UrgentIsWrittenOutIff(t: Settings, name: string)
    requires |name| <= 165
    ensures UrgentIsWrittenOut(t, name) <==> !t.buffered || Rank(t.forceFlushLogLevel) <= Rank(t.logLevel)
  {
    if t.buffered && !ForcesFlush(t) {
      ShortMessageStays(t, name);
      assert Rank(t.forceFlushLogLevel) <= Rank(Always) && Rank(t.logLevel) <= Rank(Always);
    }
  }

  lemma ShortMessageStays(t: Settings, name: string)
    requires |name| <= 165 && t.buffered && !ForcesFlush(t)
    ensures Remaining(t, 0, "x", name) == HeaderLength(name) + 2
  {
    assert "x"[1..] == "";
  }
}
