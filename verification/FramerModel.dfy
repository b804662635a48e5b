/**
  The three stream framers of util_lib/generic_framer as one machine that takes a stream byte
  by byte.  The three sources differ in the header: its length, what its number counts, and
  which numbers are refused.
 */
module FramerModel {

  type Byte = b: nat | b < 0x100

  const TWO_32: nat := 0x1_0000_0000

  // The error codes; a frame handler may return any other number.
  const NO_ERROR: int := 0
  const HDR_LEN_RANGE: int := 5000
  const STREAM_RANGE: int := 5001
  const BODY_LEN_RANGE: int := 5002

  /** generic_framer, generic_framer1 and generic_framer2. */
  datatype Variant = Inclusive16 | Exclusive16 | Inclusive32

  function HeaderLength(v: Variant): nat {
    if v == Inclusive32 then 4 else 2
  }

  /** The smallest value of `m_max_rx_frame_length`. */
  function MinFrameLength(v: Variant): nat {
    if v == Inclusive32 then 4 else 2
  }

  /** The number in the header, in the byte order of the host (low byte first). */
  function Number(header: seq<Byte>): nat {
    if header == [] then 0 else header[0] + 0x100 * Number(header[1..])
  }

  /** How many bytes follow the header; the four byte header counts itself, in unsigned arithmetic. */
  function BodyLength(v: Variant, number: nat): nat {
    match v
    case Inclusive16 => if number < 2 then 0 else number - 2
    case Exclusive16 => number
    case Inclusive32 => if number < 4 then number + TWO_32 - 4 else number - 4
  }

  predicate HeaderRefused(v: Variant, number: nat) {
    match v
    case Inclusive16 => number < 2
    case Exclusive16 => number < 2
    case Inclusive32 => BodyLength(v, number) < 4
  }

  datatype Phase = Idle | Header(received: seq<Byte>) | Body(received: seq<Byte>, required: nat)

  type Frame = seq<Byte>

  /** One stream: what it is in the middle of, and the frames it has handed to the handler. */
  datatype Stream = Stream(phase: Phase, delivered: seq<Frame>)

  datatype Outcome = Outcome(stream: Stream, error: int)

  /** What the application's `process_rx_frame` answers, given all frames of the stream up to this one. */
  type Handler = seq<Frame> -> int

  datatype Config = Config(variant: Variant, max: nat, handler: Handler)

  predicate ValidConfig(c: Config) {
    MinFrameLength(c.variant) <= c.max
  }

  predicate ValidPhase(c: Config, p: Phase) {
    match p
    case Idle => true
    case Header(received) => 1 <= |received| < HeaderLength(c.variant)
    case Body(received, required) => HeaderLength(c.variant) <= |received| <= c.max && 1 <= required
  }

  function Deliver(c: Config, s: Stream, frame: Frame): Outcome {
    var delivered := s.delivered + [frame];
    Outcome(Stream(Idle, delivered), c.handler(delivered))
  }

  /** One byte; on an error the stream goes back to idle. */
  function Take(c: Config, s: Stream, b: Byte): Outcome {
    match s.phase
    case Idle => Outcome(s.(phase := Header([b])), NO_ERROR)
    case Header(received) =>
      var header := received + [b];
      if |header| < HeaderLength(c.variant) then Outcome(s.(phase := Header(header)), NO_ERROR)
      else if HeaderRefused(c.variant, Number(header)) then Outcome(s.(phase := Idle), HDR_LEN_RANGE)
      else if BodyLength(c.variant, Number(header)) == 0 then Deliver(c, s, header)
      else Outcome(s.(phase := Body(header, BodyLength(c.variant, Number(header)))), NO_ERROR)
    case Body(received, required) =>
      if |received| + 1 > c.max then Outcome(s.(phase := Idle), BODY_LEN_RANGE)
      else if required <= 1 then Deliver(c, s, received + [b])
      else Outcome(s.(phase := Body(received + [b], required - 1)), NO_ERROR)
  }

  /** The bytes of one call, up to the first error; the rest of the call is dropped. */
  function Run(c: Config, s: Stream, bytes: seq<Byte>): Outcome
    decreases |bytes|
  {
    if bytes == [] then Outcome(s, NO_ERROR)
    else
      var o := Take(c, s, bytes[0]);
      if o.error != NO_ERROR then o else Run(c, o.stream, bytes[1..])
  }

  lemma {:induction false} RunKeepsPhaseValid(c: Config, s: Stream, bytes: seq<Byte>)
    requires ValidConfig(c) && ValidPhase(c, s.phase)
    ensures ValidPhase(c, Run(c, s, bytes).stream.phase)
    ensures Run(c, s, bytes).error != NO_ERROR ==> Run(c, s, bytes).stream.phase == Idle
    decreases |bytes|
  {
    if bytes != [] {
      var o := Take(c, s, bytes[0]);
      if o.error == NO_ERROR {
        RunKeepsPhaseValid(c, o.stream, bytes[1..]);
      }
    }
  }

  // ---------------------------------------------------------------- chunking

  lemma {:induction false} RunInTurn(c: Config, s: Stream, first: seq<Byte>, second: seq<Byte>)
    ensures Run(c, s, first + second) ==
            var o := Run(c, s, first); if o.error != NO_ERROR then o else Run(c, o.stream, second)
    decreases |first|
  {
    if first == [] {
      assert first + second == second;
    } else {
      assert (first + second)[1..] == first[1..] + second;
      var o := Take(c, s, first[0]);
      if o.error == NO_ERROR {
        RunInTurn(c, o.stream, first[1..], second);
      }
    }
  }

  /** Calls one after the other, up to the first that reports an error. */
  function RunChunks(c: Config, s: Stream, chunks: seq<seq<Byte>>): Outcome
    decreases |chunks|
  {
    if chunks == [] then Outcome(s, NO_ERROR)
    else
      var o := Run(c, s, chunks[0]);
      if o.error != NO_ERROR then o else RunChunks(c, o.stream, chunks[1..])
  }

  function Concat(chunks: seq<seq<Byte>>): seq<Byte> {
    if chunks == [] then [] else chunks[0] + Concat(chunks[1..])
  }

  /** Chunking invariance: frames and first error depend on the bytes alone, not on how they are cut into calls. */
  lemma {:induction false} ChunkingDoesNotMatter(c: Config, s: Stream, chunks: seq<seq<Byte>>)
    ensures RunChunks(c, s, chunks) == Run(c, s, Concat(chunks))
    decreases |chunks|
  {
    if chunks != [] {
      RunInTurn(c, s, chunks[0], Concat(chunks[1..]));
      var o := Run(c, s, chunks[0]);
      if o.error == NO_ERROR {
        ChunkingDoesNotMatter(c, o.stream, chunks[1..]);
      }
    }
  }

  // ---------------------------------------------------------------- many streams

  datatype Call = Call(stream: nat, bytes: seq<Byte>)

  /** The streams of a framer and, for each, what its calls returned. */
  datatype Traffic = Traffic(streams: seq<Stream>, returned: seq<seq<int>>)

  predicate ValidTraffic(configs: seq<Config>, t: Traffic) {
    |t.streams| == |configs| == |t.returned|
  }

  /** `parse_raw_rx_data`. */
  function Parse(configs: seq<Config>, t: Traffic, call: Call): Traffic
    requires ValidTraffic(configs, t)
  {
    if call.stream >= |configs| then t
    else
      var k := call.stream;
      var o := Run(configs[k], t.streams[k], call.bytes);
      Traffic(t.streams[k := o.stream], t.returned[k := t.returned[k] + [o.error]])
  }

  function ParseAll(configs: seq<Config>, t: Traffic, calls: seq<Call>): Traffic
    requires ValidTraffic(configs, t)
    decreases |calls|
  {
    if calls == [] then t else ParseAll(configs, Parse(configs, t, calls[0]), calls[1..])
  }

  function ChunksOf(k: nat, calls: seq<Call>): seq<seq<Byte>> {
    if calls == [] then []
    else (if calls[0].stream == k then [calls[0].bytes] else []) + ChunksOf(k, calls[1..])
  }

  /** What a stream goes through, and its calls return, when nothing else is going on. */
  function Alone(c: Config, s: Stream, returned: seq<int>, chunks: seq<seq<Byte>>): (Stream, seq<int>)
    decreases |chunks|
  {
    if chunks == [] then (s, returned)
    else
      var o := Run(c, s, chunks[0]);
      Alone(c, o.stream, returned + [o.error], chunks[1..])
  }

  /** Independence: whatever the other streams receive in between, a stream fares as it would alone. */
  lemma {:induction false} StreamsAreIndependent(configs: seq<Config>, t: Traffic, calls: seq<Call>, k: nat)
    requires ValidTraffic(configs, t) && k < |configs|
    ensures var u := ParseAll(configs, t, calls);
      && ValidTraffic(configs, u)
      && (u.streams[k], u.returned[k]) == Alone(configs[k], t.streams[k], t.returned[k], ChunksOf(k, calls))
    decreases |calls|
  {
    if calls != [] {
      assert ChunksOf(k, calls)[if calls[0].stream == k then 1 else 0..] == ChunksOf(k, calls[1..]);
      StreamsAreIndependent(configs, Parse(configs, t, calls[0]), calls[1..], k);
    }
  }

  predicate NoErrors(returned: seq<int>) {
    forall i :: 0 <= i < |returned| ==> returned[i] == NO_ERROR
  }

  /** As long as its calls report no error, a stream that is alone takes its bytes as one chunk. */
  lemma {:induction false} AloneIsRun(c: Config, s: Stream, returned: seq<int>, chunks: seq<seq<Byte>>)
    requires NoErrors(returned)
    ensures var (end, all) := Alone(c, s, returned, chunks);
      && (NoErrors(all) <==> Run(c, s, Concat(chunks)).error == NO_ERROR)
      && (NoErrors(all) ==> end == Run(c, s, Concat(chunks)).stream)
    decreases |chunks|
  {
    if chunks != [] {
      RunInTurn(c, s, chunks[0], Concat(chunks[1..]));
      var o := Run(c, s, chunks[0]);
      if o.error == NO_ERROR {
        AloneIsRun(c, o.stream, returned + [o.error], chunks[1..]);
      } else {
        AloneKeepsErrors(c, o.stream, returned + [o.error], chunks[1..], |returned|);
      }
    }
  }

  lemma {:induction false} AloneKeepsErrors(c: Config, s: Stream, returned: seq<int>, chunks: seq<seq<Byte>>, i: nat)
    requires i < |returned|
    ensures i < |Alone(c, s, returned, chunks).1| && Alone(c, s, returned, chunks).1[i] == returned[i]
    decreases |chunks|
  {
    if chunks != [] {
      var o := Run(c, s, chunks[0]);
      AloneKeepsErrors(c, o.stream, returned + [o.error], chunks[1..], i);
    }
  }

  /**
    Both together: in any traffic, the frames of a stream whose calls reported no error are those
    of its own bytes taken as one chunk, and some call reports an error exactly if that chunk does.
   */
  lemma TrafficDeliversTheBytes(configs: seq<Config>, t: Traffic, calls: seq<Call>, k: nat)
    requires ValidTraffic(configs, t) && k < |configs| && NoErrors(t.returned[k])
    ensures var u, o := ParseAll(configs, t, calls), Run(configs[k], t.streams[k], Concat(ChunksOf(k, calls)));
      && ValidTraffic(configs, u)
      && (NoErrors(u.returned[k]) <==> o.error == NO_ERROR)
      && (NoErrors(u.returned[k]) ==> u.streams[k] == o.stream)
  {
    StreamsAreIndependent(configs, t, calls, k);
    AloneIsRun(configs[k], t.streams[k], t.returned[k], ChunksOf(k, calls));
  }

  /** `k` is the first call that reports an error. */
  predicate IsFirstError(returned: seq<int>, k: nat) {
    k < |returned| && returned[k] != NO_ERROR && NoErrors(returned[..k])
  }

  /** What `Alone` returns goes on from what was returned before, one entry a call. */
  lemma {:induction false} AloneExtends(c: Config, s: Stream, returned: seq<int>, chunks: seq<seq<Byte>>)
    ensures var (end, all) := Alone(c, s, returned, chunks);
      |all| == |returned| + |chunks| && all == returned + Alone(c, s, [], chunks).1 && end == Alone(c, s, [], chunks).0
    decreases |chunks|
  {
    if chunks == [] {
      assert returned + [] == returned;
    } else {
      var o := Run(c, s, chunks[0]);
      AloneExtends(c, o.stream, returned + [o.error], chunks[1..]);
      AloneExtends(c, o.stream, [o.error], chunks[1..]);
      var rest := Alone(c, o.stream, [], chunks[1..]).1;
      assert [] + [o.error] == [o.error];
      assert returned + [o.error] + rest == returned + ([o.error] + rest);
    }
  }

  lemma LaterErrors(returned: seq<int>)
    requires NoErrors(returned) && returned != []
    ensures NoErrors(returned[1..])
  {
  }

  /** The first error of a stream alone is that of its bytes taken as one chunk, and up to it so is the stream. */
  lemma {:induction false} FirstErrorAlone(c: Config, s: Stream, chunks: seq<seq<Byte>>, k: nat)
    requires k < |chunks| && IsFirstError(Alone(c, s, [], chunks).1, k)
    ensures Alone(c, s, [], chunks[..k + 1]).0 == Run(c, s, Concat(chunks)).stream
    ensures Alone(c, s, [], chunks).1[k] == Run(c, s, Concat(chunks)).error
    decreases |chunks|
  {
    var o, all := Run(c, s, chunks[0]), Alone(c, s, [], chunks).1;
    var rest := Alone(c, o.stream, [], chunks[1..]).1;
    AloneExtends(c, o.stream, [o.error], chunks[1..]);
    assert [] + [o.error] == [o.error] && all == [o.error] + rest;
    RunInTurn(c, s, chunks[0], Concat(chunks[1..]));
    if k == 0 {
      assert chunks[..1][1..] == [];
      assert all[0] == o.error;
    } else {
      assert all[..k][0] == all[0] == NO_ERROR;
      assert all[..k][1..] == rest[..k - 1];
      LaterErrors(all[..k]);
      FirstErrorAlone(c, o.stream, chunks[1..], k - 1);
      assert chunks[..k + 1][0] == chunks[0] && chunks[..k + 1][1..] == chunks[1..][..k];
      AloneExtends(c, o.stream, [o.error], chunks[1..][..k]);
    }
  }

  /**
    In any traffic in which a call of stream `k` reports an error: the first such error is the error
    of the stream's bytes taken as one chunk, and the stream then stood where that chunk leaves it,
    with the same frames delivered.
   */
  lemma FirstErrorOfTraffic(configs: seq<Config>, t: Traffic, calls: seq<Call>, k: nat, n: nat)
    requires ValidTraffic(configs, t) && k < |configs| && t.returned[k] == []
    requires ValidTraffic(configs, ParseAll(configs, t, calls))
    requires IsFirstError(ParseAll(configs, t, calls).returned[k], n)
    ensures n < |ChunksOf(k, calls)|
    ensures var o := Run(configs[k], t.streams[k], Concat(ChunksOf(k, calls)));
      && ParseAll(configs, t, calls).returned[k][n] == o.error
      && Alone(configs[k], t.streams[k], [], ChunksOf(k, calls)[..n + 1]).0 == o.stream
  {
    StreamsAreIndependent(configs, t, calls, k);
    AloneExtends(configs[k], t.streams[k], [], ChunksOf(k, calls));
    FirstErrorAlone(configs[k], t.streams[k], ChunksOf(k, calls), n);
  }

  /** The state in which the first error left the stream is that after some of the calls, whatever the others did. */
  lemma {:induction false} ChunksOfPrefix(k: nat, calls: seq<Call>, n: nat) returns (m: nat)
    requires n < |ChunksOf(k, calls)|
    ensures m <= |calls| && ChunksOf(k, calls[..m]) == ChunksOf(k, calls)[..n + 1]
    decreases |calls|
  {
    var all, rest := ChunksOf(k, calls), ChunksOf(k, calls[1..]);
    if calls[0].stream == k && n == 0 {
      m := 1;
      assert calls[..1][1..] == [] && ChunksOf(k, calls[..1]) == [calls[0].bytes];
    } else {
      var here := if calls[0].stream == k then 1 else 0;
      assert all[here..] == rest;
      var j := ChunksOfPrefix(k, calls[1..], n - here);
      m := j + 1;
      assert calls[..m][0] == calls[0] && calls[..m][1..] == calls[1..][..j];
    }
  }

  /**
    So there is a moment in the traffic right after the first error, and what was delivered by then is
    that of the one chunk.
   */
  lemma DeliveredUpToFirstError(configs: seq<Config>, t: Traffic, calls: seq<Call>, k: nat, n: nat) returns (m: nat)
    requires ValidTraffic(configs, t) && k < |configs| && t.returned[k] == []
    requires ValidTraffic(configs, ParseAll(configs, t, calls))
    requires IsFirstError(ParseAll(configs, t, calls).returned[k], n)
    ensures m <= |calls| && ValidTraffic(configs, ParseAll(configs, t, calls[..m]))
    ensures var u, o := ParseAll(configs, t, calls[..m]), Run(configs[k], t.streams[k], Concat(ChunksOf(k, calls)));
      |u.returned[k]| == n + 1 && u.returned[k][n] == o.error && u.streams[k] == o.stream
  {
    FirstErrorOfTraffic(configs, t, calls, k, n);
    m := ChunksOfPrefix(k, calls, n);
    var c, s, chunks := configs[k], t.streams[k], ChunksOf(k, calls);
    StreamsAreIndependent(configs, t, calls[..m], k);
    AloneExtends(c, s, [], chunks[..n + 1]);
    StreamsAreIndependent(configs, t, calls, k);
    AlonePrefix(c, s, chunks, n + 1);
  }

  lemma {:induction false} AlonePrefix(c: Config, s: Stream, chunks: seq<seq<Byte>>, n: nat)
    requires n <= |chunks|
    ensures |Alone(c, s, [], chunks[..n]).1| == n && Alone(c, s, [], chunks[..n]).1 <= Alone(c, s, [], chunks).1
    decreases |chunks|
  {
    AloneExtends(c, s, [], chunks[..n]);
    AloneExtends(c, s, [], chunks);
    if n != 0 {
      var o := Run(c, s, chunks[0]);
      assert chunks[..n][0] == chunks[0] && chunks[..n][1..] == chunks[1..][..n - 1];
      AlonePrefix(c, o.stream, chunks[1..], n - 1);
      AloneExtends(c, o.stream, [o.error], chunks[1..]);
      AloneExtends(c, o.stream, [o.error], chunks[1..][..n - 1]);
      assert [] + [o.error] == [o.error];
    }
  }

  // ---------------------------------------------------------------- a body at a time

  /** The body case of the loops takes as many bytes as there are, up to the end of the frame. */
  lemma {:induction false} RunBody(c: Config, s: Stream, bytes: seq<Byte>, n: nat)
    requires s.phase.Body? && |s.phase.received| <= c.max && 1 <= n <= |bytes| && n <= s.phase.required
    ensures var Body(received, required) := s.phase;
      Run(c, s, bytes) ==
      if |received| + n > c.max then Outcome(s.(phase := Idle), BODY_LEN_RANGE)
      else if n == required then
        var o := Deliver(c, s, received + bytes[..n]);
        if o.error != NO_ERROR then o else Run(c, o.stream, bytes[n..])
      else Run(c, s.(phase := Body(received + bytes[..n], required - n)), bytes[n..])
    decreases n
  {
    var Body(received, required) := s.phase;
    if |received| + 1 > c.max {
    } else if n == 1 {
      assert bytes[..1] == [bytes[0]];
    } else {
      var t := s.(phase := Body(received + [bytes[0]], required - 1));
      RunBody(c, t, bytes[1..], n - 1);
      assert bytes[..n] == [bytes[0]] + bytes[1..][..n - 1];
      assert received + [bytes[0]] + bytes[1..][..n - 1] == received + bytes[..n];
      assert bytes[1..][n - 1..] == bytes[n..];
    }
  }

  // ---------------------------------------------------------------- round trip

  function Digits(number: nat, n: nat): (header: seq<Byte>)
    ensures |header| == n
  {
    if n == 0 then [] else [number % 0x100] + Digits(number / 0x100, n - 1)
  }

  function Power256(n: nat): nat {
    if n == 0 then 1 else 0x100 * Power256(n - 1)
  }

  lemma PowersOf256()
    ensures Power256(2) == 0x1_0000 && Power256(4) == TWO_32
  {
    assert Power256(0) == 1 && Power256(1) == 0x100 && Power256(3) == 0x100_0000;
  }

  lemma {:induction false} NumberOfDigits(number: nat, n: nat)
    requires number < Power256(n)
    ensures Number(Digits(number, n)) == number
  {
    if n != 0 {
      assert number / 0x100 < Power256(n - 1);
      NumberOfDigits(number / 0x100, n - 1);
    }
  }

  /** The number a sender puts in front of a payload. */
  function HeaderNumber(v: Variant, payload: seq<Byte>): nat {
    if v == Exclusive16 then |payload| else HeaderLength(v) + |payload|
  }

  function Encode(v: Variant, payload: seq<Byte>): Frame {
    Digits(HeaderNumber(v, payload), HeaderLength(v)) + payload
  }

  /** The header can hold the number. */
  predicate Encodable(v: Variant, payload: seq<Byte>) {
    HeaderNumber(v, payload) < if v == Inclusive32 then TWO_32 else 0x1_0000
  }

  /** The payloads a framer lets through, by its code. */
  predicate Accepted(c: Config, payload: seq<Byte>) {
    && HeaderLength(c.variant) + |payload| <= c.max
    && (c.variant == Exclusive16 ==> 2 <= |payload|)
    && (c.variant == Inclusive32 ==> 4 <= |payload|)
  }

  /** The encoding of one payload, from idle: it is delivered exactly if it is accepted. */
  lemma FrameIsDeliveredIffAccepted(c: Config, delivered: seq<Frame>, payload: seq<Byte>)
    requires ValidConfig(c) && Encodable(c.variant, payload)
    ensures var frame := Encode(c.variant, payload);
      Run(c, Stream(Idle, delivered), frame) ==
      if Accepted(c, payload) then Deliver(c, Stream(Idle, delivered), frame)
      else Outcome(Stream(Idle, delivered),
                   if HeaderRefused(c.variant, HeaderNumber(c.variant, payload)) then HDR_LEN_RANGE else BODY_LEN_RANGE)
  {
    var v, s := c.variant, Stream(Idle, delivered);
    var header := Digits(HeaderNumber(v, payload), HeaderLength(v));
    PowersOf256();
    HeaderIsRead(c, s, HeaderNumber(v, payload), payload);
    if !HeaderRefused(v, HeaderNumber(v, payload)) && payload != [] {
      RunBody(c, s.(phase := Body(header, |payload|)), payload, |payload|);
      assert payload[..|payload|] == payload && payload[|payload|..] == [];
    } else if payload == [] {
      assert header + payload == header;
    }
  }

  /** The header bytes take an idle stream to the body, or to an error. */
  lemma HeaderIsRead(c: Config, s: Stream, number: nat, rest: seq<Byte>)
    requires s.phase == Idle && number < Power256(HeaderLength(c.variant))
    ensures var header := Digits(number, HeaderLength(c.variant));
      Run(c, s, header + rest) ==
      if HeaderRefused(c.variant, number) then Outcome(s, HDR_LEN_RANGE)
      else if BodyLength(c.variant, number) == 0 then
        var o := Deliver(c, s, header);
        if o.error != NO_ERROR then o else Run(c, o.stream, rest)
      else Run(c, s.(phase := Body(header, BodyLength(c.variant, number))), rest)
  {
    var header := Digits(number, HeaderLength(c.variant));
    NumberOfDigits(number, HeaderLength(c.variant));
    var b0, tail := header[0], header[1..] + rest;
    assert header + rest == [b0] + tail;
    HeaderGoesOn(c, s.(phase := Header([b0])), header, 1, rest);
  }

  lemma {:induction false} HeaderGoesOn(c: Config, s: Stream, header: seq<Byte>, k: nat, rest: seq<Byte>)
    requires |header| == HeaderLength(c.variant) && 1 <= k < |header| && s.phase == Header(header[..k])
    ensures Run(c, s, header[k..] + rest) ==
      if HeaderRefused(c.variant, Number(header)) then Outcome(s.(phase := Idle), HDR_LEN_RANGE)
      else if BodyLength(c.variant, Number(header)) == 0 then
        var o := Deliver(c, s, header);
        if o.error != NO_ERROR then o else Run(c, o.stream, rest)
      else Run(c, s.(phase := Body(header, BodyLength(c.variant, Number(header)))), rest)
    decreases |header| - k
  {
    var bytes := header[k..] + rest;
    assert bytes[0] == header[k] && bytes[1..] == header[k + 1..] + rest;
    assert header[..k] + [header[k]] == header[..k + 1];
    if k + 1 < |header| {
      HeaderGoesOn(c, s.(phase := Header(header[..k + 1])), header, k + 1, rest);
    } else {
      assert header[..k + 1] == header && header[k + 1..] + rest == rest;
    }
  }

  /**
    A four byte header below 4 wraps to a body no call can complete: nothing is delivered, and the
    stream fails on the body bound exactly if more bytes follow than the bound leaves room for.
   */
  lemma LowHeaderOnlyFails(c: Config, delivered: seq<Frame>, number: nat, rest: seq<Byte>)
    requires ValidConfig(c) && c.variant == Inclusive32 && c.max < TWO_32 && number < 4
    ensures var o := Run(c, Stream(Idle, delivered), Digits(number, 4) + rest);
      && o.stream.delivered == delivered
      && o.error == (if |rest| > c.max - 4 then BODY_LEN_RANGE else NO_ERROR)
      && (o.error == NO_ERROR ==> o.stream.phase.Body?)
  {
    var s, header, required := Stream(Idle, delivered), Digits(number, 4), BodyLength(c.variant, number);
    PowersOf256();
    HeaderIsRead(c, s, number, rest);
    var body := s.(phase := Body(header, required));
    if |rest| > c.max - 4 {
      RunBody(c, body, rest, c.max - 3);
    } else if rest != [] {
      RunBody(c, body, rest, |rest|);
    }
  }

  // ---------------------------------------------------------------- frames, and the answers of the handler

  /** A frame of the framer: its first bytes give its length, which the bound allows. */
  predicate IsFrame(c: Config, f: Frame) {
    && |f| <= c.max
    && match c.variant
       case Inclusive16 => |f| >= 2 && f[0] as int + 0x100 * f[1] as int == |f|
       case Exclusive16 => |f| >= 4 && f[0] as int + 0x100 * f[1] as int == |f| - 2
       case Inclusive32 =>
         && |f| >= 8
         && f[0] as int + 0x100 * f[1] as int + 0x1_0000 * f[2] as int + 0x100_0000 * f[3] as int == |f|
  }

  lemma NumberOfTwo(f: seq<Byte>)
    requires |f| >= 2
    ensures Number(f[..2]) == f[0] as int + 0x100 * f[1] as int
  {
    var h := f[..2];
    assert h[1..][1..] == [] && Number(h[1..][1..]) == 0;
    assert Number(h[1..]) == f[1] as int;
  }

  lemma NumberOfFour(f: seq<Byte>)
    requires |f| >= 4
    ensures Number(f[..4]) == f[0] as int + 0x100 * f[1] as int + 0x1_0000 * f[2] as int + 0x100_0000 * f[3] as int
  {
    var h := f[..4];
    assert h[1..][1..] == h[2..] && h[2..][1..] == h[3..] && h[3..][1..] == [];
    assert Number(h[3..]) == f[3] && Number(h[2..]) == f[2] + 0x100 * Number(h[3..]);
    assert Number(h[1..]) == f[1] + 0x100 * Number(h[2..]);
  }

  /**
    A frame in front of an idle stream is handed to the handler, whatever follows it.  If the handler
    answers with an error, that is the answer of the call, and the rest of it is dropped; otherwise the
    call goes on behind the frame.
   */
  lemma HandlerDecides(c: Config, delivered: seq<Frame>, f: Frame, rest: seq<Byte>)
    requires ValidConfig(c) && IsFrame(c, f)
    ensures var answer := c.handler(delivered + [f]);
      Run(c, Stream(Idle, delivered), f + rest) ==
      if answer != 0 then Outcome(Stream(Idle, delivered + [f]), answer)
      else Run(c, Stream(Idle, delivered + [f]), rest)
  {
    hide Run, Number, IsFrame, BodyLength, HeaderRefused;
    var k, s := HeaderLength(c.variant), Stream(Idle, delivered);
    NumberOfHeader(c, f);
    var header, body := f[..k], f[k..];
    FirstByte(c, s, f[0], header[1..] + (body + rest));
    HeaderGoesOn(c, s.(phase := Header([f[0]])), header, 1, body + rest);
    assert header[..1] == [f[0]] && f + rest == [f[0]] + (header[1..] + (body + rest));
    if body == [] {
      assert header == f && body + rest == rest;
    } else {
      FrameIsInside(c, f);
      RunBody(c, s.(phase := Body(header, |body|)), body + rest, |body|);
      assert (body + rest)[..|body|] == body && (body + rest)[|body|..] == rest && header + body == f;
    }
  }

  lemma FirstByte(c: Config, s: Stream, b: Byte, rest: seq<Byte>)
    requires s.phase == Idle
    ensures Run(c, s, [b] + rest) == Run(c, s.(phase := Header([b])), rest)
  {
    assert ([b] + rest)[0] == b && ([b] + rest)[1..] == rest;
  }

  lemma FrameIsInside(c: Config, f: Frame)
    requires IsFrame(c, f)
    ensures HeaderLength(c.variant) <= |f| <= c.max
  {
  }

  lemma NumberOfHeader(c: Config, f: Frame)
    requires IsFrame(c, f)
    ensures var k := HeaderLength(c.variant);
      && k <= |f| && !HeaderRefused(c.variant, Number(f[..k])) && BodyLength(c.variant, Number(f[..k])) == |f| - k
  {
    if c.variant == Inclusive32 {
      NumberOfFour(f);
    } else {
      NumberOfTwo(f);
    }
  }

  /** The bytes a stream holds of a frame that is not complete. */
  function Held(p: Phase): seq<Byte> {
    match p
    case Idle => []
    case Header(received) => received
    case Body(received, _) => received
  }

  /** What a stream in a body lacks is what its header announced. */
  predicate Honest(c: Config, p: Phase) {
    p.Body? ==>
      var k := HeaderLength(c.variant);
      && k <= |p.received| && !HeaderRefused(c.variant, Number(p.received[..k]))
      && |p.received| + p.required == k + BodyLength(c.variant, Number(p.received[..k]))
  }

  predicate AllFrames(c: Config, frames: seq<Frame>) {
    forall i :: 0 <= i < |frames| ==> IsFrame(c, frames[i])
  }

  /** The handler let every frame pass but perhaps the last, whose error is the answer of the call. */
  predicate Answered(c: Config, delivered: seq<Frame>, frames: seq<Frame>, error: int) {
    forall i :: 0 <= i < |frames| ==> AnsweredAt(c, delivered, frames, error, i)
  }

  predicate AnsweredAt(c: Config, delivered: seq<Frame>, frames: seq<Frame>, error: int, i: nat)
    requires i < |frames|
  {
    var answer := c.handler(delivered + frames[..i + 1]);
    answer == NO_ERROR || (i + 1 == |frames| && answer == error)
  }

  /** What one byte delivers, if anything. */
  lemma TakeDelivers(c: Config, s: Stream, b: Byte)
    requires ValidConfig(c) && ValidPhase(c, s.phase) && Honest(c, s.phase) && c.max < TWO_32
    ensures var o := Take(c, s, b);
      && ValidPhase(c, o.stream.phase) && Honest(c, o.stream.phase)
      && (o.stream.delivered == s.delivered || o.stream.delivered == s.delivered + [Held(s.phase) + [b]])
      && (o.stream.delivered == s.delivered ==> o.error == NO_ERROR ==> Held(o.stream.phase) == Held(s.phase) + [b])
      && (o.stream.delivered != s.delivered ==>
            && IsFrame(c, Held(s.phase) + [b]) && o.stream.phase == Idle
            && o.error == c.handler(s.delivered + [Held(s.phase) + [b]]))
  {
    var f, k := Held(s.phase) + [b], HeaderLength(c.variant);
    if |f| >= k {
      assert s.phase.Body? ==> f[..k] == s.phase.received[..k];
      assert s.phase.Header? ==> f[..k] == f;
      if c.variant == Inclusive32 {
        NumberOfFour(f);
      } else {
        NumberOfTwo(f);
      }
    }
    hide Number;
  }

  /**
    Nothing else is ever delivered: what a stream held and the bytes of a call are the frames delivered,
    in order and without gaps, and, if there was no error, what the stream holds then.
   */
  lemma {:induction false} DeliveredAreFrames(c: Config, s: Stream, bytes: seq<Byte>)
    returns (frames: seq<Frame>, rest: seq<Byte>)
    requires ValidConfig(c) && ValidPhase(c, s.phase) && Honest(c, s.phase) && c.max < TWO_32
    ensures var o := Run(c, s, bytes);
      && o.stream.delivered == s.delivered + frames && AllFrames(c, frames)
      && Held(s.phase) + bytes == Concat(frames) + rest
      && Answered(c, s.delivered, frames, o.error)
      && (o.error == NO_ERROR ==> rest == Held(o.stream.phase) && Honest(c, o.stream.phase))
    decreases |bytes|
  {
    hide Take, IsFrame, Honest;
    if bytes == [] {
      frames, rest := [], Held(s.phase);
      assert s.delivered + [] == s.delivered && Held(s.phase) + bytes == Concat([]) + rest;
    } else {
      var o, f := Take(c, s, bytes[0]), Held(s.phase) + [bytes[0]];
      TakeDelivers(c, s, bytes[0]);
      assert Held(s.phase) + bytes == f + bytes[1..];
      if o.error != NO_ERROR {
        frames := if o.stream.delivered == s.delivered then [] else [f];
        rest := if o.stream.delivered == s.delivered then Held(s.phase) + bytes else bytes[1..];
        ConcatOfOne(f);
        assert s.delivered + [] == s.delivered && [f][..1] == [f];
      } else {
        var more;
        more, rest := DeliveredAreFrames(c, o.stream, bytes[1..]);
        if o.stream.delivered == s.delivered {
          frames := more;
        } else {
          frames := [f] + more;
          FrameInFront(c, s.delivered, f, more, rest, bytes[1..], Run(c, s, bytes).error);
        }
      }
    }
  }

  lemma ConcatOfOne(f: Frame)
    ensures Concat([]) == [] && Concat([f]) == f
  {
    assert [f][1..] == [] && f + [] == f;
  }

  lemma FrameInFront(c: Config, delivered: seq<Frame>, f: Frame, more: seq<Frame>, rest: seq<Byte>, bytes: seq<Byte>,
                     error: int)
    requires IsFrame(c, f) && AllFrames(c, more) && c.handler(delivered + [f]) == NO_ERROR
    requires Answered(c, delivered + [f], more, error) && bytes == Concat(more) + rest
    ensures delivered + [f] + more == delivered + ([f] + more) && AllFrames(c, [f] + more)
    ensures f + bytes == Concat([f] + more) + rest
    ensures Answered(c, delivered, [f] + more, error)
  {
    hide IsFrame, Concat, AnsweredAt;
    BytesInFront(f, more, rest);
    forall i | 0 <= i < |[f] + more| ensures AnsweredAt(c, delivered, [f] + more, error, i) {
      AnsweredBehind(c, delivered, f, more, error, i);
    }
  }

  lemma BytesInFront(f: Frame, more: seq<Frame>, rest: seq<Byte>)
    ensures f + (Concat(more) + rest) == Concat([f] + more) + rest
  {
    assert ([f] + more)[1..] == more;
    assert f + (Concat(more) + rest) == (f + Concat(more)) + rest;
  }

  lemma AnsweredBehind(c: Config, delivered: seq<Frame>, f: Frame, more: seq<Frame>, error: int, i: nat)
    requires i < 1 + |more| && c.handler(delivered + [f]) == NO_ERROR && Answered(c, delivered + [f], more, error)
    ensures AnsweredAt(c, delivered, [f] + more, error, i)
  {
    if i == 0 {
      assert ([f] + more)[..1] == [f];
    } else {
      assert AnsweredAt(c, delivered + [f], more, error, i - 1);
      assert delivered + ([f] + more)[..i + 1] == delivered + [f] + more[..i];
    }
  }

  function Frames(v: Variant, payloads: seq<seq<Byte>>): (frames: seq<Frame>)
    ensures |frames| == |payloads|
  {
    if payloads == [] then [] else [Encode(v, payloads[0])] + Frames(v, payloads[1..])
  }

  /** Round trip: a list of accepted payloads, encoded and fed in any chunks, calls back exactly its frames. */
  lemma FramesReturn(c: Config, delivered: seq<Frame>, payloads: seq<seq<Byte>>, chunks: seq<seq<Byte>>)
    requires ValidConfig(c) && (forall all :: c.handler(all) == NO_ERROR)
    requires forall i :: 0 <= i < |payloads| ==> Encodable(c.variant, payloads[i]) && Accepted(c, payloads[i])
    requires Concat(chunks) == Concat(Frames(c.variant, payloads))
    ensures RunChunks(c, Stream(Idle, delivered), chunks) ==
            Outcome(Stream(Idle, delivered + Frames(c.variant, payloads)), NO_ERROR)
  {
    ChunkingDoesNotMatter(c, Stream(Idle, delivered), chunks);
    FramesAreDelivered(c, delivered, payloads);
  }

  lemma {:induction false} FramesAreDelivered(c: Config, delivered: seq<Frame>, payloads: seq<seq<Byte>>)
    requires ValidConfig(c) && (forall all :: c.handler(all) == NO_ERROR)
    requires forall i :: 0 <= i < |payloads| ==> Encodable(c.variant, payloads[i]) && Accepted(c, payloads[i])
    ensures Run(c, Stream(Idle, delivered), Concat(Frames(c.variant, payloads))) ==
            Outcome(Stream(Idle, delivered + Frames(c.variant, payloads)), NO_ERROR)
    decreases |payloads|
  {
    if payloads == [] {
      assert delivered + [] == delivered;
    } else {
      hide Run, Encode, Encodable, ValidConfig;
      var frame, rest := Encode(c.variant, payloads[0]), Frames(c.variant, payloads[1..]);
      FrameIsDeliveredIffAccepted(c, delivered, payloads[0]);
      FramesAreDelivered(c, delivered + [frame], payloads[1..]);
      RunInTurn(c, Stream(Idle, delivered), frame, Concat(rest));
      FirstFrame(delivered, frame, rest);
    }
  }

  lemma FirstFrame(delivered: seq<Frame>, frame: Frame, rest: seq<Frame>)
    ensures Concat([frame] + rest) == frame + Concat(rest) && delivered + [frame] + rest == delivered + ([frame] + rest)
  {
    assert ([frame] + rest)[1..] == rest;
  }
}
