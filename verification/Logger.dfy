/** `process_data` and `p_do_work` of util_lib/logger/src/logger.cpp on the log buffer, under `m_lock`. */
module Loggers {
  import opened LogFormat

  lemma Five(s: string, a: string, b: string, c: string, d: string, e: string)
    ensures s + a + b + c + d + e == s + (a + b + c + d + e)
  {
  }

  lemma Three(flushed: string, before: string, header: string, c: string)
    ensures flushed + (before + header + c) == (flushed + before) + (header + c)
  {
  }

  lemma PutFirst(written: string, header: string, c: char, rest: string)
    ensures written + (header + [c] + rest) == written + (header + [c]) + rest
  {
  }

  lemma HeaderFits(name: string)
    requires |name| <= 165
    ensures HeaderLength(name) <= SZ_LOG_BUF_EXTRA
  {
  }

  /** One byte of the message, as it is written and as it moves the write pointer. */
  lemma NextByte(src: Source, data: string, k: nat, i: nat, start: bool, written: string, used: nat, header: nat)
    requires k < |data|
    ensures var c := Normal(data[k]);
      written + Format(src, data[k..], i, start) ==
      written + ((if start then Header(src, i) else "") + [c])
          + Format(src, data[k + 1..], if start then i + 1 else i, c == '\n')
    ensures var next := used + (if start then header else 0) + 1;
      HighWater(used, data[k..], start, header) ==
      Max(next, HighWater(if next >= SZ_LOG_BUF then 0 else next, data[k + 1..], Normal(data[k]) == '\n', header))
      && EndsAt(used, data[k..], start, header) ==
         EndsAt(if next >= SZ_LOG_BUF then 0 else next, data[k + 1..], Normal(data[k]) == '\n', header)
  {
    hide Header;
    assert data[k..][1..] == data[k + 1..];
    PutFirst(written, if start then Header(src, i) else "", Normal(data[k]),
             Format(src, data[k + 1..], if start then i + 1 else i, Normal(data[k]) == '\n'));
  }

  lemma Ends(src: Source, i: nat, start: bool, used: nat, header: nat)
    ensures Format(src, "", i, start) == if start then "" else "\n"
    ensures HighWater(used, "", start, header) == EndsAt(used, "", start, header) == if start then used else used + 1
  {
  }

  class Logger {
    const buf: array<char>
    var cptr: nat
    var flushed: string
    var buffered: bool
    var logLevel: LogLevel
    var forceFlushLogLevel: LogLevel

    ghost predicate Valid()
      reads this
    {
      buf.Length == SZ_LOG_BUF + SZ_LOG_BUF_EXTRA && cptr < SZ_LOG_BUF
    }

    /** Everything logged so far: what has been written out, then what is in the buffer. */
    ghost function Written(): string
      requires cptr <= buf.Length
      reads this, buf
    {
      flushed + buf[..cptr]
    }

    constructor ()
      ensures Valid() && Written() == "" && buffered && fresh(buf) && cptr == 0
      ensures logLevel == Info && forceFlushLogLevel == Warning
    {
      buf := new char[SZ_LOG_BUF + SZ_LOG_BUF_EXTRA](_ => ' ');
      cptr, flushed, buffered, logLevel, forceFlushLogLevel := 0, "", true, Info, Warning;
    }

    /** `p_do_work`: the bytes in the buffer go to the file or the stream. */
    method PDoWork()
      requires cptr <= buf.Length
      modifies `cptr, `flushed
      ensures cptr == 0 && Written() == old(Written())
    {
      if cptr > 0 {
        flushed := flushed + buf[..cptr];
        cptr := 0;
      }
    }

    /** `memcpy` to the write pointer, which moves on. */
    method Put(text: string)
      requires cptr + |text| <= buf.Length
      modifies `cptr, buf
      ensures cptr == old(cptr) + |text| && buf[..cptr] == old(buf[..cptr]) + text
    {
      forall i | 0 <= i < |text| {
        buf[cptr + i] := text[i];
      }
      cptr := cptr + |text|;
    }

    method PutHeader(src: Source, i: nat)
      requires ValidSource(src) && cptr + HeaderLength(src.name) <= buf.Length
      modifies `cptr, buf
      ensures cptr == old(cptr) + HeaderLength(src.name) && buf[..cptr] == old(buf[..cptr]) + Header(src, i)
    {
      hide LevelName;
      ghost var before := buf[..cptr];
      Put(src.stamps(i));
      Put(LevelName(src.level));
      Put(" ");
      Put(src.name);
      Put(" ");
      Five(before, src.stamps(i), LevelName(src.level), " ", src.name, " ");
    }

    /** A byte of the message, with a header before it at the start of a line. */
    method PutByte(src: Source, i: nat, start: bool, data: char) returns (c: char, ghost top: nat)
      requires Valid() && ValidSource(src) && |src.name| <= 165
      modifies `cptr, `flushed, buf
      ensures Valid() && c == Normal(data)
      ensures Written() == old(Written()) + ((if start then Header(src, i) else "") + [c])
      ensures top == old(cptr) + (if start then HeaderLength(src.name) else 0) + 1
      ensures cptr == if top >= SZ_LOG_BUF then 0 else top
    {
      hide Header;
      ghost var before := buf[..cptr];
      if start {
        PutHeader(src, i);
      }
      ghost var header := if start then Header(src, i) else "";
      assert buf[..cptr] == before + header;
      c := data;
      if c == '\r' || c == '\0' {
        c := '\n';
      }
      Put([c]);
      top := cptr;
      Three(flushed, before, header, [c]);
      if cptr >= SZ_LOG_BUF {
        PDoWork();
      }
    }

    /** `process_data` of a message: what is written out and what stays in the buffer grow by its lines, exactly. */
    method ProcessData(src: Source, data: string) returns (ghost high: nat)
      requires Valid() && ValidSource(src) && |src.name| <= 165
      modifies `cptr, `flushed, buf
      ensures Valid() && Written() == old(Written()) + Render(src, Lines(data), 0)
      ensures data != "" ==> high == HighWater(old(cptr), data, true, HeaderLength(src.name)) <= buf.Length
      ensures cptr == Remaining(Settings(buffered, logLevel, forceFlushLogLevel), old(cptr), data, src.name)
    {
      hide Header, Format, HighWater, EndsAt, Rank;
      high := 0;
      if |data| > 0 {
        high := Copy(src, data);
        FormatIsLines(src, data, 0);
        if (!buffered && cptr != 0) || cptr >= SZ_LOG_BUF {
          PDoWork();
        }
      }
      if Rank(forceFlushLogLevel) <= Rank(logLevel) && buffered {
        PDoWork();
      }
    }

    /** The loop of `process_data`, and the newline after it. */
    method Copy(src: Source, data: string) returns (ghost high: nat)
      requires Valid() && ValidSource(src) && |src.name| <= 165
      modifies `cptr, `flushed, buf
      ensures cptr <= SZ_LOG_BUF && Written() == old(Written()) + Format(src, data, 0, true)
      ensures high == HighWater(old(cptr), data, true, HeaderLength(src.name)) <= buf.Length
      ensures cptr == EndsAt(old(cptr), data, true, HeaderLength(src.name))
    {
      hide Header, HeaderLength, Format, HighWater, EndsAt;
      ghost var before, header, used := Written(), HeaderLength(src.name), cptr;
      var c, i, k := '\n', 0, 0;
      high := 0;
      assert data[0..] == data;
      while k < |data|
        invariant 0 <= k <= |data| && Valid()
        invariant Written() + Format(src, data[k..], i, c == '\n') == before + Format(src, data, 0, true)
        invariant EndsAt(cptr, data[k..], c == '\n', header) == EndsAt(used, data, true, header)
        invariant Max(high, HighWater(cptr, data[k..], c == '\n', header)) == HighWater(used, data, true, header)
      {
        NextByte(src, data, k, i, c == '\n', Written(), cptr, header);
        ghost var top;
        if c == '\n' {
          c, top := PutByte(src, i, true, data[k]);
          i := i + 1;
        } else {
          c, top := PutByte(src, i, false, data[k]);
        }
        high := Max(high, top);
        k := k + 1;
      }
      assert data[k..] == "";
      Ends(src, i, c == '\n', cptr, header);
      if c != '\n' {
        Put("\n");
      }
      high := Max(high, cptr);
      HighWaterBounded(used, data, true, header);
      HeaderFits(src.name);
    }
  }

  /** With the settings of the constructor, which force a flush from Warning on, a Fatal message stays in the buffer. */
  method FatalStaysInBuffer(name: string, stamps: nat -> string) returns (l: Logger)
    requires |name| <= 165 && ValidSource(Source(name, Fatal, stamps))
    ensures l.Valid() && l.buffered && l.logLevel == Info && l.forceFlushLogLevel == Warning
    ensures l.flushed == "" && l.Written() == Header(Source(name, Fatal, stamps), 0) + "x" + "\n"
  {
    hide Header;
    l := new Logger();
    var src := Source(name, Fatal, stamps);
    var _ := l.ProcessData(src, "x");
    OneLine(src);
    ShortMessageStays(Settings(true, Info, Warning), name);
    assert |l.Written()| == |l.flushed| + l.cptr;
  }

  lemma OneLine(src: Source)
    requires ValidSource(src)
    ensures Render(src, Lines("x"), 0) == Header(src, 0) + "x" + "\n"
    ensures |Header(src, 0)| == HeaderLength(src.name)
  {
    assert LineLength("x") == 1 by {
      assert "x"[1..] == "" && LineLength("") == 0;
    }
    assert "x"[..1] == "x" && Lines("x") == ["x"] + Lines("");
    assert (["x"] + [])[1..] == [];
    assert Render(src, ["x"], 0) == Header(src, 0) + "x" + "\n" + Render(src, [], 1);
  }
}
