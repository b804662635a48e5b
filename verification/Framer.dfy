/**
  The framers of util_lib/generic_framer on their buffers: generic_framer and generic_framer1,
  which differ in one statement, are on two byte streams, generic_framer2 on four byte streams.
  Their `parse_raw_rx_data` is proved to do what the byte by byte machine of FramerModel does.
 */
module Framers {
  import opened FramerModel

  // ---------------------------------------------------------------- a chunk at a time

  /** The body case of the loops: a chunk that ends with the frame, or before it. */
  function TakeChunk(c: Config, s: Stream, chunk: seq<Byte>): (o: Outcome)
    requires s.phase.Body? && |chunk| <= s.phase.required
    ensures o.error != NO_ERROR ==> o.stream.phase == Idle
  {
    var Body(received, required) := s.phase;
    if |received| + |chunk| > c.max then Outcome(s.(phase := Idle), BODY_LEN_RANGE)
    else if |chunk| == required then Deliver(c, s, received + chunk)
    else Outcome(s.(phase := Body(received + chunk, required - |chunk|)), NO_ERROR)
  }

  function Then(c: Config, o: Outcome, rest: seq<Byte>): Outcome {
    if o.error != NO_ERROR then o else Run(c, o.stream, rest)
  }

  lemma ChunkIsTaken(c: Config, s: Stream, bytes: seq<Byte>, n: nat)
    requires s.phase.Body? && |s.phase.received| <= c.max && 1 <= n <= |bytes| && n <= s.phase.required
    ensures Run(c, s, bytes) == Then(c, TakeChunk(c, s, bytes[..n]), bytes[n..])
  {
    RunBody(c, s, bytes, n);
  }

  lemma BehindFirst(src: seq<Byte>, n: nat)
    requires 1 + n <= |src|
    ensures src[1..][..n] == src[1..1 + n] && src[1..][n..] == src[1 + n..]
  {
  }

  /** The second header byte with the fall through: a frame without body is complete at once. */
  lemma SecondByteIsTaken(c: Config, delivered: seq<Frame>, header: seq<Byte>, rest: seq<Byte>, n: nat)
    requires ValidConfig(c) && c.variant != Inclusive32 && |header| == 2 && n <= |rest|
    requires var required := BodyLength(c.variant, Number(header)); n == if |rest| > required then required else |rest|
    ensures Run(c, Stream(Header(header[..1]), delivered), header[1..] + rest) ==
      if HeaderRefused(c.variant, Number(header)) then Outcome(Stream(Idle, delivered), HDR_LEN_RANGE)
      else
        var s := Stream(Body(header, BodyLength(c.variant, Number(header))), delivered);
        Then(c, TakeChunk(c, s, rest[..n]), rest[n..])
  {
    HeaderGoesOn(c, Stream(Header(header[..1]), delivered), header, 1, rest);
    if !HeaderRefused(c.variant, Number(header)) {
      var required := BodyLength(c.variant, Number(header));
      if n == 0 {
        assert header + rest[..0] == header && rest[0..] == rest;
      } else {
        ChunkIsTaken(c, Stream(Body(header, required), delivered), rest, n);
      }
    }
  }

  // ---------------------------------------------------------------- two byte headers

  datatype State16 = Hdr1 | Hdr2 | InBody

  /** `STREAM_CONTROL`, with what the application has been called back with. */
  class StreamControl16 {
    const config: Config
    var state: State16
    var rxLen: nat
    var requiredLen: nat
    const rxBuf: array<Byte>
    var delivered: seq<Frame>

    ghost predicate Valid()
      reads this, rxBuf
    {
      && ValidConfig(config) && config.variant != Inclusive32 && rxBuf.Length == config.max
      && (state == Hdr2 ==> rxLen == 1)
      && (state == InBody ==> 2 <= rxLen <= config.max && 1 <= requiredLen)
    }

    ghost function Abstract(): Stream
      requires Valid()
      reads this, rxBuf
    {
      Stream(match state
               case Hdr1 => Idle
               case Hdr2 => Header(rxBuf[..1])
               case InBody => Body(rxBuf[..rxLen], requiredLen),
             delivered)
    }

    constructor (config: Config)
      requires ValidConfig(config) && config.variant != Inclusive32
      ensures Valid() && this.config == config && fresh(rxBuf) && Abstract() == Stream(Idle, [])
    {
      this.config := config;
      state, rxLen, requiredLen := Hdr1, 0, 0;
      rxBuf := new Byte[config.max](_ => 0);
      delivered := [];
    }

    method ProcessRxFrame(frame: Frame) returns (ret: int)
      modifies `delivered
      ensures delivered == old(delivered) + [frame] && ret == config.handler(delivered)
    {
      delivered := delivered + [frame];
      ret := config.handler(delivered);
    }

    /** The length field, as the host reads it from the first two bytes of the buffer. */
    method ReadNumber() returns (number: nat)
      requires 2 <= rxBuf.Length
      ensures number == Number(rxBuf[..2])
    {
      var low: nat, high: nat := rxBuf[0], rxBuf[1];
      number := low + 0x100 * high;
      assert rxBuf[..2] == [rxBuf[0], rxBuf[1]] && rxBuf[..2][1..] == [rxBuf[1]];
      assert Number([rxBuf[1]]) == rxBuf[1] + 0x100 * Number([]);
    }

    /** `case frame_state_hdr1`. */
    method FirstByte(b: Byte)
      requires Valid() && state == Hdr1
      modifies this, rxBuf
      ensures Valid() && Take(config, old(Abstract()), b) == Outcome(Abstract(), NO_ERROR)
    {
      rxLen := 1;
      state := Hdr2;
      rxBuf[0] := b;
      assert rxBuf[..1] == [b];
    }

    /** `case frame_state_hdr2` up to the fall through. */
    method SecondByte(b: Byte) returns (ret: int)
      requires Valid() && state == Hdr2
      modifies this, rxBuf
      ensures state == InBody && rxLen == 2 && delivered == old(delivered)
      ensures ret == if HeaderRefused(config.variant, Number(rxBuf[..2])) then HDR_LEN_RANGE else NO_ERROR
      ensures ret == NO_ERROR ==> requiredLen == BodyLength(config.variant, Number(rxBuf[..2]))
      ensures rxBuf[..2] == old(rxBuf[..1]) + [b]
    {
      ret := NO_ERROR;
      rxLen := rxLen + 1;
      state := InBody;
      rxBuf[1] := b;
      requiredLen := ReadNumber();
      if requiredLen < 2 {
        ret := HDR_LEN_RANGE;
      } else if config.variant == Inclusive16 {
        requiredLen := requiredLen - 2;
      }
    }

    /** `case frame_state_body` with the `clen` bytes it copies. */
    method TakeBody(bytes: seq<Byte>) returns (ret: int)
      requires ValidConfig(config) && config.variant != Inclusive32 && rxBuf.Length == config.max
      requires state == InBody && 2 <= rxLen <= config.max && |bytes| <= requiredLen
      modifies this, rxBuf
      ensures var o := TakeChunk(config, old(Stream(Body(rxBuf[..rxLen], requiredLen), delivered)), bytes);
        ret == o.error && delivered == o.stream.delivered && (ret == NO_ERROR ==> Valid() && Abstract() == o.stream)
    {
      if rxLen + |bytes| > config.max {
        return BODY_LEN_RANGE;
      }
      ret := NO_ERROR;
      forall i | 0 <= i < |bytes| {
        rxBuf[rxLen + i] := bytes[i];
      }
      rxLen := rxLen + |bytes|;
      assert rxBuf[..rxLen] == old(rxBuf[..rxLen]) + bytes;
      requiredLen := requiredLen - |bytes|;
      if requiredLen == 0 {
        ret := ProcessRxFrame(rxBuf[..rxLen]);
        state := Hdr1;
      }
    }

    /** One round of the loop on the bytes that are left; `taken` of them are consumed. */
    method Round(src: seq<Byte>, ghost s: Stream) returns (ret: int, taken: nat)
      requires Valid() && s == Abstract() && src != []
      modifies this, rxBuf
      ensures ret == NO_ERROR ==>
        Valid() && 0 < taken <= |src| && Run(config, s, src) == Run(config, Abstract(), src[taken..])
      ensures ret != NO_ERROR ==> Run(config, s, src) == Outcome(Stream(Idle, delivered), ret)
    {
      hide Number;
      ret, taken := NO_ERROR, 0;
      if state == Hdr1 {
        FirstByte(src[0]);
        taken := 1;
      } else if state == Hdr2 {
        ghost var header := rxBuf[..1] + [src[0]];
        ret := SecondByte(src[0]);
        taken := 1;
        assert header[..1] == s.phase.received && header[1..] + src[1..] == src;
        var clen := if |src| - 1 > requiredLen then requiredLen else |src| - 1;
        if ret == NO_ERROR {
          SecondByteIsTaken(config, delivered, header, src[1..], clen);
          BehindFirst(src, clen);
          ret := TakeBody(src[1..1 + clen]);
          taken := 1 + clen;
        } else {
          HeaderGoesOn(config, s, header, 1, src[1..]);
        }
      } else {
        var clen := if |src| > requiredLen then requiredLen else |src|;
        ChunkIsTaken(config, s, src, clen);
        ret := TakeBody(src[..clen]);
        taken := clen;
      }
    }

    /** `parse_raw_rx_data` of a stream in range; an error drops the rest of the call and clears the stream. */
    method Parse(src: seq<Byte>) returns (ret: int)
      requires Valid()
      modifies this, rxBuf
      ensures Valid() && Outcome(Abstract(), ret) == Run(config, old(Abstract()), src)
    {
      hide Take, Number;
      ghost var start := Abstract();
      ret := NO_ERROR;
      var pos := 0;
      while pos < |src| && ret == NO_ERROR
        invariant 0 <= pos <= |src|
        invariant ret == NO_ERROR ==> Valid() && Run(config, start, src) == Run(config, Abstract(), src[pos..])
        invariant ret != NO_ERROR ==> Run(config, start, src) == Outcome(Stream(Idle, delivered), ret)
        decreases |src| - pos, ret == NO_ERROR
      {
        var taken;
        ret, taken := Round(src[pos..], Abstract());
        if ret == NO_ERROR {
          pos := pos + taken;
        }
      }
      if ret != NO_ERROR {
        state := Hdr1;
      }
    }

    method ClearStream()
      requires Valid()
      modifies `state
      ensures Valid() && Abstract() == old(Abstract()).(phase := Idle)
    {
      state := Hdr1;
    }
  }

  // ---------------------------------------------------------------- four byte headers

  /**
    The sums of held and new bytes that a call with `n` bytes tests do not wrap: it finds the stream
    idle, or the bytes it holds and the new ones are fewer than 2^32, or the length announced is.
   */
  predicate SumsFit(phase: Phase, n: nat) {
    n < TWO_32 &&
    match phase
    case Idle => true
    case Header(bytes) => |bytes| + n < TWO_32
    case Body(bytes, required) => |bytes| + n < TWO_32 || |bytes| + required < TWO_32
  }

  datatype State32 = InIdle | InHeader | InFrame

  /** `STREAM_CONTROL` of generic_framer2. */
  class StreamControl32 {
    const config: Config
    var state: State32
    var rxLen: nat
    var requiredLen: nat
    const rxBuf: array<Byte>
    var delivered: seq<Frame>

    ghost predicate Valid()
      reads this, rxBuf
    {
      && ValidConfig(config) && config.variant == Inclusive32 && rxBuf.Length == config.max
      && (state == InHeader ==> 1 <= rxLen < 4)
      && (state == InFrame ==> 4 <= rxLen <= config.max && 1 <= requiredLen)
    }

    ghost function Abstract(): Stream
      requires Valid()
      reads this, rxBuf
    {
      Stream(match state
               case InIdle => Idle
               case InHeader => Header(rxBuf[..rxLen])
               case InFrame => Body(rxBuf[..rxLen], requiredLen),
             delivered)
    }

    constructor (config: Config)
      requires ValidConfig(config) && config.variant == Inclusive32
      ensures Valid() && this.config == config && fresh(rxBuf) && Abstract() == Stream(Idle, [])
    {
      this.config := config;
      state, rxLen, requiredLen := InIdle, 0, 0;
      rxBuf := new Byte[config.max](_ => 0);
      delivered := [];
    }

    method ProcessRxFrame(frame: Frame) returns (ret: int)
      modifies `delivered
      ensures delivered == old(delivered) + [frame] && ret == config.handler(delivered)
    {
      delivered := delivered + [frame];
      ret := config.handler(delivered);
    }

    /** The length field, as the host reads it from the first four bytes of the buffer. */
    method ReadNumber() returns (number: nat)
      requires 4 <= rxBuf.Length
      ensures number == Number(rxBuf[..4]) && number < TWO_32
    {
      var b0: nat, b1: nat, b2: nat, b3: nat := rxBuf[0], rxBuf[1], rxBuf[2], rxBuf[3];
      number := b0 + 0x100 * (b1 + 0x100 * (b2 + 0x100 * b3));
      ghost var h := rxBuf[..4];
      assert Number(h[3..]) == b3 + 0x100 * Number(h[3..][1..]) && h[3..][1..] == [];
      assert h[2..][1..] == h[3..] && h[1..][1..] == h[2..];
      assert Number(h[2..]) == b2 + 0x100 * Number(h[3..]);
      assert Number(h[1..]) == b1 + 0x100 * Number(h[2..]);
    }

    /** `case frame_state_idle` falling into `case frame_state_hdr`, or the latter alone. */
    method HeaderByte(b: Byte) returns (ret: int)
      requires Valid() && state != InFrame
      modifies this, rxBuf
      ensures var o := Take(config, old(Abstract()), b);
        ret == o.error && delivered == o.stream.delivered && o.stream.delivered == old(delivered)
        && (ret == NO_ERROR ==> Valid() && Abstract() == o.stream)
    {
      hide Number;
      ret := NO_ERROR;
      if state == InIdle {
        rxLen := 0;
        state := InHeader;
      }
      ghost var before := rxBuf[..rxLen];
      rxBuf[rxLen] := b;
      rxLen := rxLen + 1;
      assert rxBuf[..rxLen] == before + [b] && (before == [] ==> before + [b] == [b]);
      if rxLen == 4 {
        state := InFrame;
        var number := ReadNumber();
        requiredLen := (number + TWO_32 - 4) % TWO_32;
        assert rxBuf[..4] == before + [b];
        assert requiredLen == BodyLength(config.variant, number);
        if requiredLen < 4 {
          ret := HDR_LEN_RANGE;
        }
      }
    }

    /** `case frame_state_body` with the `clen` bytes it copies; the sum it tests is an unsigned int. */
    method TakeBody(bytes: seq<Byte>) returns (ret: int)
      requires Valid() && state == InFrame && |bytes| <= requiredLen && rxLen + |bytes| < TWO_32
      modifies this, rxBuf
      ensures var o := TakeChunk(config, old(Stream(Body(rxBuf[..rxLen], requiredLen), delivered)), bytes);
        ret == o.error && delivered == o.stream.delivered && (ret == NO_ERROR ==> Valid() && Abstract() == o.stream)
    {
      if (rxLen + |bytes|) % TWO_32 > config.max {
        return BODY_LEN_RANGE;
      }
      ret := NO_ERROR;
      forall i | 0 <= i < |bytes| {
        rxBuf[rxLen + i] := bytes[i];
      }
      rxLen := rxLen + |bytes|;
      assert rxBuf[..rxLen] == old(rxBuf[..rxLen]) + bytes;
      requiredLen := requiredLen - |bytes|;
      if requiredLen == 0 {
        ret := ProcessRxFrame(rxBuf[..rxLen]);
        state := InIdle;
      }
    }

    /** One round of the loop on the bytes that are left; `taken` of them are consumed. */
    method Round(src: seq<Byte>, ghost s: Stream) returns (ret: int, taken: nat)
      requires Valid() && s == Abstract() && src != [] && SumsFit(s.phase, |src|)
      modifies this, rxBuf
      ensures ret == NO_ERROR ==>
        Valid() && 0 < taken <= |src| && Run(config, s, src) == Run(config, Abstract(), src[taken..])
      ensures ret == NO_ERROR ==> SumsFit(Abstract().phase, |src| - taken)
      ensures ret != NO_ERROR ==> Run(config, s, src) == Outcome(Stream(Idle, delivered), ret)
    {
      hide Number;
      ret, taken := NO_ERROR, 0;
      if state == InFrame {
        var clen := if |src| > requiredLen then requiredLen else |src|;
        ChunkIsTaken(config, s, src, clen);
        ret := TakeBody(src[..clen]);
        taken := clen;
      } else {
        ret := HeaderByte(src[0]);
        taken := 1;
      }
    }

    /** `parse_raw_rx_data` of a stream in range; an error drops the rest of the call and clears the stream. */
    method Parse(src: seq<Byte>) returns (ret: int)
      requires Valid() && SumsFit(Abstract().phase, |src|)
      modifies this, rxBuf
      ensures Valid() && Outcome(Abstract(), ret) == Run(config, old(Abstract()), src)
    {
      hide Take, Number;
      ghost var start := Abstract();
      ret := NO_ERROR;
      var pos := 0;
      while pos < |src| && ret == NO_ERROR
        invariant 0 <= pos <= |src|
        invariant ret == NO_ERROR ==> Valid() && Run(config, start, src) == Run(config, Abstract(), src[pos..])
        invariant ret == NO_ERROR ==> SumsFit(Abstract().phase, |src| - pos)
        invariant ret != NO_ERROR ==> Run(config, start, src) == Outcome(Stream(Idle, delivered), ret)
        decreases |src| - pos, ret == NO_ERROR
      {
        var taken;
        ret, taken := Round(src[pos..], Abstract());
        if ret == NO_ERROR {
          pos := pos + taken;
        }
      }
      if ret != NO_ERROR {
        state := InIdle;
      }
    }

    method ClearStream()
      requires Valid()
      modifies `state
      ensures Valid() && Abstract() == old(Abstract()).(phase := Idle)
    {
      state := InIdle;
    }
  }

  // ---------------------------------------------------------------- the framers

  /** `sm_max_number_streams`. */
  const MAX_NUMBER_STREAMS: nat := 100

  /** generic_framer and generic_framer1. */
  class GenericFramer {
    const streams: seq<StreamControl16>

    ghost predicate Valid()
      reads this, streams, set s | s in streams :: s.rxBuf
    {
      && |streams| <= MAX_NUMBER_STREAMS
      && (forall i :: 0 <= i < |streams| ==> streams[i].Valid())
      && (forall i, j :: 0 <= i < j < |streams| ==> streams[i] != streams[j] && streams[i].rxBuf != streams[j].rxBuf)
    }

    constructor (variant: Variant, numberOfStreams: nat, maxRxFrameLength: nat, handlers: nat -> Handler)
      requires variant != Inclusive32
      ensures Valid() && fresh(streams) && (forall i :: 0 <= i < |streams| ==> fresh(streams[i].rxBuf))
      ensures |streams| == if numberOfStreams > MAX_NUMBER_STREAMS then MAX_NUMBER_STREAMS else numberOfStreams
      ensures forall i :: 0 <= i < |streams| ==> streams[i].Abstract() == Stream(Idle, [])
      ensures forall i :: 0 <= i < |streams| ==>
        streams[i].config == Config(variant, if maxRxFrameLength < 2 then 2 else maxRxFrameLength, handlers(i))
    {
      var n := if numberOfStreams > MAX_NUMBER_STREAMS then MAX_NUMBER_STREAMS else numberOfStreams;
      var max := if maxRxFrameLength < 2 then 2 else maxRxFrameLength;
      var all: seq<StreamControl16> := [];
      while |all| < n
        invariant |all| <= n && fresh(all)
        invariant forall i ::
          0 <= i < |all| ==> all[i].Valid() && fresh(all[i].rxBuf) && all[i].Abstract() == Stream(Idle, [])
        invariant forall i :: 0 <= i < |all| ==> all[i].config == Config(variant, max, handlers(i))
        invariant forall i, j :: 0 <= i < j < |all| ==> all[i] != all[j] && all[i].rxBuf != all[j].rxBuf
      {
        var s := new StreamControl16(Config(variant, max, handlers(|all|)));
        all := all + [s];
      }
      streams := all;
    }

    /** Only the named stream moves, and it moves as the machine does; a bad name is refused. */
    method ParseRawRxData(stream: nat, src: seq<Byte>) returns (ret: int)
      requires Valid()
      modifies if stream < |streams| then {streams[stream], streams[stream].rxBuf} else {}
      ensures Valid()
      ensures stream >= |streams| ==> ret == STREAM_RANGE
      ensures stream < |streams| ==>
        Outcome(streams[stream].Abstract(), ret) == Run(streams[stream].config, old(streams[stream].Abstract()), src)
      ensures forall k :: 0 <= k < |streams| && k != stream ==> streams[k].Abstract() == old(streams[k].Abstract())
    {
      if stream >= |streams| {
        return STREAM_RANGE;
      }
      ret := streams[stream].Parse(src);
    }

    /** A stream that is cleared forgets the frame it was in. */
    method Clear(stream: nat) returns (ret: int)
      requires Valid()
      modifies if stream < |streams| then {streams[stream]} else {}
      ensures Valid()
      ensures ret == if stream >= |streams| then STREAM_RANGE else NO_ERROR
      ensures stream < |streams| ==> streams[stream].Abstract() == old(streams[stream].Abstract()).(phase := Idle)
      ensures forall k :: 0 <= k < |streams| && k != stream ==> streams[k].Abstract() == old(streams[k].Abstract())
    {
      if stream >= |streams| {
        return STREAM_RANGE;
      }
      streams[stream].ClearStream();
      ret := NO_ERROR;
    }
  }

  /** generic_framer2. */
  class GenericFramer2 {
    const streams: seq<StreamControl32>

    ghost predicate Valid()
      reads this, streams, set s | s in streams :: s.rxBuf
    {
      && |streams| <= MAX_NUMBER_STREAMS
      && (forall i :: 0 <= i < |streams| ==> streams[i].Valid())
      && (forall i, j :: 0 <= i < j < |streams| ==> streams[i] != streams[j] && streams[i].rxBuf != streams[j].rxBuf)
    }

    constructor (numberOfStreams: nat, maxRxFrameLength: nat, handlers: nat -> Handler)
      ensures Valid() && fresh(streams) && (forall i :: 0 <= i < |streams| ==> fresh(streams[i].rxBuf))
      ensures |streams| == if numberOfStreams > MAX_NUMBER_STREAMS then MAX_NUMBER_STREAMS else numberOfStreams
      ensures forall i :: 0 <= i < |streams| ==> streams[i].Abstract() == Stream(Idle, [])
      ensures forall i :: 0 <= i < |streams| ==>
        streams[i].config == Config(Inclusive32, if maxRxFrameLength < 4 then 4 else maxRxFrameLength, handlers(i))
    {
      var n := if numberOfStreams > MAX_NUMBER_STREAMS then MAX_NUMBER_STREAMS else numberOfStreams;
      var max := if maxRxFrameLength < 4 then 4 else maxRxFrameLength;
      var all: seq<StreamControl32> := [];
      while |all| < n
        invariant |all| <= n && fresh(all)
        invariant forall i ::
          0 <= i < |all| ==> all[i].Valid() && fresh(all[i].rxBuf) && all[i].Abstract() == Stream(Idle, [])
        invariant forall i :: 0 <= i < |all| ==> all[i].config == Config(Inclusive32, max, handlers(i))
        invariant forall i, j :: 0 <= i < j < |all| ==> all[i] != all[j] && all[i].rxBuf != all[j].rxBuf
      {
        var s := new StreamControl32(Config(Inclusive32, max, handlers(|all|)));
        all := all + [s];
      }
      streams := all;
    }

    /** Only the named stream moves, and it moves as the machine does; a bad name is refused. */
    method ParseRawRxData(stream: nat, src: seq<Byte>) returns (ret: int)
      requires Valid()
      requires stream < |streams| ==> SumsFit(streams[stream].Abstract().phase, |src|)
      modifies if stream < |streams| then {streams[stream], streams[stream].rxBuf} else {}
      ensures Valid()
      ensures stream >= |streams| ==> ret == STREAM_RANGE
      ensures stream < |streams| ==>
        Outcome(streams[stream].Abstract(), ret) == Run(streams[stream].config, old(streams[stream].Abstract()), src)
      ensures forall k :: 0 <= k < |streams| && k != stream ==> streams[k].Abstract() == old(streams[k].Abstract())
    {
      if stream >= |streams| {
        return STREAM_RANGE;
      }
      ret := streams[stream].Parse(src);
    }

    /** A stream that is cleared forgets the frame it was in. */
    method Clear(stream: nat) returns (ret: int)
      requires Valid()
      modifies if stream < |streams| then {streams[stream]} else {}
      ensures Valid()
      ensures ret == if stream >= |streams| then STREAM_RANGE else NO_ERROR
      ensures stream < |streams| ==> streams[stream].Abstract() == old(streams[stream].Abstract()).(phase := Idle)
      ensures forall k :: 0 <= k < |streams| && k != stream ==> streams[k].Abstract() == old(streams[k].Abstract())
    {
      if stream >= |streams| {
        return STREAM_RANGE;
      }
      streams[stream].ClearStream();
      ret := NO_ERROR;
    }
  }
}
