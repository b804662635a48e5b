/**
  The hand-off of log buffers from the logging threads to the disk thread in
  util_lib/logger/src/logger.cpp, file output and asynchronous mode on throughout.  The logging
  threads hold `m_lock` while they work, so they are one writer here; `m_write_mutex` and the
  condition variable are explicit.  `open` succeeds, and `write` writes some of the bytes or is
  interrupted.
 */
module LoggerModel {

  type Byte = b: nat | b < 0x100

  /** A `pool_entry`, or `m_buf` with the bytes up to `m_cptr`. */
  datatype Buffer = Buffer(id: nat, text: seq<Byte>)

  datatype Mutex = Free | ByWriter | ByDisk

  /** `p_do_work` statement by statement, then the end of the destructor. */
  datatype WriterPc =
    | Open
    | Locking
    | Locked
    | Pushed
    | Switched
    | Signalled
    | Unlocked
    | Closing
    | CloseLocked
    | Terminated
    | CloseSignalled
    | Joining
    | Joined

  /** `disk_thread`: `Asleep` is in `pthread_cond_wait`, `woken` once a signal has reached it. */
  datatype DiskPc =
    | Starting
    | Testing
    | Looking
    | Asleep(woken: bool)
    | Draining
    | Emptied
    | Writing(at: nat, done: nat)
    | Relocking
    | Reclaiming
    | Exiting
    | Exited

  /** `logged` is every byte put in a buffer so far; `looped` says that the disk thread has entered its loop. */
  datatype World = World(
    file: seq<Byte>, logged: seq<Byte>,
    current: Buffer, dirty: seq<Buffer>, clean: seq<Buffer>, next: nat,
    terminate: bool, mutex: Mutex, writer: WriterPc,
    disk: DiskPc, waiting: seq<Buffer>, looped: bool)

  /** The constructor: the buffer in use, and one in the clean pool. */
  function Initial(): World {
    World([], [], Buffer(0, []), [], [Buffer(1, [])], 2, false, Free, Open, Starting, [], false)
  }

  // ---------------------------------------------------------------- steps

  /** `pthread_cond_signal`. */
  function Signal(d: DiskPc): DiskPc {
    if d.Asleep? then Asleep(true) else d
  }

  /** Bytes are put in the buffer, or the writer takes its next statement; `close` starts the end of the destructor. */
  datatype WriterMove = Log(bytes: seq<Byte>) | DoWork | Close | Go

  /** `m_buf` becomes a new buffer or the last of the clean pool. */
  function Switch(w: World): World {
    if w.clean == [] then w.(current := Buffer(w.next, w.current.text), next := w.next + 1, writer := Switched)
    else
      var last := |w.clean| - 1;
      w.(current := Buffer(w.clean[last].id, w.current.text), clean := w.clean[..last], writer := Switched)
  }

  function WriterStep(w: World, m: WriterMove): World {
    match w.writer
    case Open =>
      (match m
       case Log(bytes) => w.(current := w.current.(text := w.current.text + bytes), logged := w.logged + bytes)
       case DoWork => if w.current.text != [] then w.(writer := Locking) else w
       case Close => if w.current.text == [] then w.(writer := Closing) else w
       case Go => w)
    case Locking => if w.mutex.Free? then w.(mutex := ByWriter, writer := Locked) else w
    case Locked => w.(dirty := w.dirty + [w.current], writer := Pushed)
    case Pushed => Switch(w)
    case Switched => w.(disk := Signal(w.disk), writer := Signalled)
    case Signalled => w.(mutex := Free, writer := Unlocked)
    case Unlocked => w.(current := w.current.(text := []), writer := Open)
    case Closing => if w.mutex.Free? then w.(mutex := ByWriter, writer := CloseLocked) else w
    case CloseLocked => w.(terminate := true, writer := Terminated)
    case Terminated => w.(disk := Signal(w.disk), writer := CloseSignalled)
    case CloseSignalled => w.(mutex := Free, writer := Joining)
    case Joining => if w.disk.Exited? then w.(writer := Joined) else w
    case Joined => w
  }

  /** `send_to_files` of a pool: the next `write`. */
  function WriteSome(w: World, at: nat, done: nat, amount: nat): World {
    if at >= |w.waiting| then w.(disk := Relocking)
    else if done >= |w.waiting[at].text| then w.(disk := Writing(at + 1, 0))
    else
      var num := Least(amount, |w.waiting[at].text| - done);
      w.(file := w.file + w.waiting[at].text[done..done + num], disk := Writing(at, done + num))
  }

  function Least(a: nat, b: nat): (least: nat)
    ensures least <= b
  {
    if a > b then b else a
  }

  /** `amount` is how many bytes a `write` manages, 0 if it is interrupted; or, asleep, whether it wakes spuriously. */
  function DiskStep(w: World, amount: nat): World {
    match w.disk
    case Starting => if w.mutex.Free? then w.(mutex := ByDisk, disk := Testing) else w
    case Testing => if w.terminate then w.(disk := Exiting) else w.(disk := Looking, looped := true)
    case Looking => if w.dirty == [] then w.(mutex := Free, disk := Asleep(false)) else w.(disk := Draining)
    case Asleep(woken) => if (woken || amount > 0) && w.mutex.Free? then w.(mutex := ByDisk, disk := Draining) else w
    case Draining =>
      if w.dirty == [] then w.(disk := Testing)
      else w.(waiting := w.dirty, dirty := [], disk := Emptied)
    case Emptied => w.(mutex := Free, disk := Writing(0, 0))
    case Writing(at, done) => WriteSome(w, at, done, amount)
    case Relocking => if w.mutex.Free? then w.(mutex := ByDisk, disk := Reclaiming) else w
    case Reclaiming => w.(clean := w.clean + w.waiting, waiting := [], disk := Draining)
    case Exiting => w.(mutex := Free, disk := Exited)
    case Exited => w
  }

  datatype Move = Writer(m: WriterMove) | Disk(amount: nat)

  function Step(w: World, m: Move): World {
    match m
    case Writer(n) => WriterStep(w, n)
    case Disk(amount) => DiskStep(w, amount)
  }

  function RunAll(w: World, moves: seq<Move>): World
    decreases |moves|
  {
    if moves == [] then w else RunAll(Step(w, moves[0]), moves[1..])
  }

  // ---------------------------------------------------------------- the invariant

  function Texts(buffers: seq<Buffer>): seq<Byte> {
    if buffers == [] then [] else buffers[0].text + Texts(buffers[1..])
  }

  /** What the disk thread has taken and not yet written. */
  function Unwritten(w: World): seq<Byte> {
    match w.disk
    case Writing(at, done) =>
      if at < |w.waiting| && done <= |w.waiting[at].text|
          then w.waiting[at].text[done..] + Texts(w.waiting[at + 1..]) else []
    case Relocking => []
    case Reclaiming => []
    case _ => Texts(w.waiting)
  }

  /** From the push on, the bytes up to `m_cptr` are the disk thread's. */
  predicate HandedOver(w: World) {
    w.writer.Pushed? || w.writer.Switched? || w.writer.Signalled? || w.writer.Unlocked?
  }

  function InHand(w: World): seq<Byte> {
    if HandedOver(w) then [] else w.current.text
  }

  predicate WriterHolds(p: WriterPc) {
    p.Locked? || p.Pushed? || p.Switched? || p.Signalled? || p.CloseLocked? || p.Terminated? || p.CloseSignalled?
  }

  predicate DiskHolds(d: DiskPc) {
    d.Testing? || d.Looking? || d.Draining? || d.Emptied? || d.Reclaiming? || d.Exiting?
  }

  predicate Exclusive(w: World) {
    && (WriterHolds(w.writer) <==> w.mutex == ByWriter)
    && (DiskHolds(w.disk) <==> w.mutex == ByDisk)
  }

  predicate Over(p: WriterPc) {
    p.Closing? || p.CloseLocked? || p.Terminated? || p.CloseSignalled? || p.Joining? || p.Joined?
  }

  predicate Shutdown(w: World) {
    && (w.terminate <==> w.writer.Terminated? || w.writer.CloseSignalled? || w.writer.Joining? || w.writer.Joined?)
    && (Over(w.writer) ==> w.current.text == [])
    && (w.writer.Joined? ==> w.disk.Exited?)
    && (w.disk.Exiting? || w.disk.Exited? ==> w.terminate)
  }

  /** Nothing waits for a disk thread that no signal has reached, except while the writer is about to signal. */
  predicate NoLostSignal(w: World) {
    && (w.disk == Asleep(false) ==> w.dirty == [] || w.writer.Pushed? || w.writer.Switched?)
    && (w.disk == Asleep(false) ==> !w.terminate || w.writer.Terminated?)
    && (w.disk.Looking? ==> !w.terminate)
  }

  predicate WaitingMatches(w: World) {
    match w.disk
    case Writing(at, done) =>
      at <= |w.waiting| && (at < |w.waiting| ==> done <= |w.waiting[at].text|) && (at == |w.waiting| ==> done == 0)
    case Emptied => true
    case Relocking => true
    case Reclaiming => true
    case _ => w.waiting == []
  }

  /** Once it has entered its loop, the disk thread tests `m_terminate`, and exits, with nothing left to write. */
  predicate ExitsClean(w: World) {
    && (!w.looped ==> w.disk.Starting? || w.disk.Testing? || w.disk.Exiting? || w.disk.Exited?)
    && (w.looped ==> !w.disk.Starting?)
    && (!w.looped ==> w.file == [])
    && (w.looped && (w.disk.Testing? || w.disk.Exiting? || w.disk.Exited?) ==> w.dirty == [])
  }

  predicate InOrder(w: World) {
    w.file + Unwritten(w) + Texts(w.dirty) + InHand(w) == w.logged
  }

  function Uses(buffers: seq<Buffer>, id: nat): nat {
    if buffers == [] then 0 else (if buffers[0].id == id then 1 else 0) + Uses(buffers[1..], id)
  }

  /** In how many places a buffer is; while it is being handed over, `m_buf` does not count. */
  function Places(w: World, id: nat): nat {
    Uses(w.dirty, id) + Uses(w.clean, id) + Uses(w.waiting, id)
    + (if w.current.id == id && !w.writer.Pushed? then 1 else 0)
  }

  ghost predicate Distinct(w: World) {
    forall id: nat :: Places(w, id) == if id < w.next then 1 else 0
  }

  ghost predicate Inv(w: World) {
    && Exclusive(w) && Shutdown(w) && NoLostSignal(w) && WaitingMatches(w) && ExitsClean(w) && InOrder(w) && Distinct(w)
  }

  lemma InitiallyInv()
    ensures Inv(Initial())
  {
  }

  // ---------------------------------------------------------------- every step keeps it

  lemma {:induction false} ConcatTexts(a: seq<Buffer>, b: seq<Buffer>)
    ensures Texts(a + b) == Texts(a) + Texts(b)
    decreases |a|
  {
    if a == [] {
      assert a + b == b;
    } else {
      assert (a + b)[1..] == a[1..] + b;
      ConcatTexts(a[1..], b);
    }
  }

  predicate Control(w: World) {
    Exclusive(w) && Shutdown(w) && NoLostSignal(w) && WaitingMatches(w) && ExitsClean(w)
  }

  lemma WriterKeepsMutex(w: World, m: WriterMove)
    requires Control(w)
    ensures Exclusive(WriterStep(w, m)) && Shutdown(WriterStep(w, m))
  {
    hide NoLostSignal, WaitingMatches, ExitsClean;
  }

  lemma WriterKeepsSignals(w: World, m: WriterMove)
    requires Control(w)
    ensures NoLostSignal(WriterStep(w, m))
  {
    hide WaitingMatches, ExitsClean;
  }

  lemma WriterKeepsDisk(w: World, m: WriterMove)
    requires Control(w)
    ensures WaitingMatches(WriterStep(w, m)) && ExitsClean(WriterStep(w, m))
  {
    hide NoLostSignal;
  }

  lemma DiskKeepsMutex(w: World, amount: nat)
    requires Control(w)
    ensures Exclusive(DiskStep(w, amount)) && Shutdown(DiskStep(w, amount))
  {
    hide NoLostSignal, WaitingMatches, ExitsClean;
  }

  lemma DiskKeepsSignals(w: World, amount: nat)
    requires Control(w)
    ensures NoLostSignal(DiskStep(w, amount)) && ExitsClean(DiskStep(w, amount))
  {
  }

  lemma DiskKeepsWaiting(w: World, amount: nat)
    requires WaitingMatches(w)
    ensures WaitingMatches(DiskStep(w, amount))
  {
  }

  lemma SameOrder(w: World, v: World)
    requires InOrder(w) && v.file == w.file && Unwritten(v) == Unwritten(w) && v.dirty == w.dirty
    requires InHand(v) == InHand(w) && v.logged == w.logged
    ensures InOrder(v)
  {
  }

  lemma PushKeepsOrder(w: World, m: WriterMove)
    requires InOrder(w) && w.writer.Locked?
    ensures InOrder(WriterStep(w, m))
  {
    hide Texts;
    var v := WriterStep(w, m);
    SameUnwritten(w, v);
    ConcatTexts(w.dirty, [w.current]);
    OneText(w.current);
    assert w.file + Unwritten(w) + (Texts(w.dirty) + w.current.text)
        == w.file + Unwritten(w) + Texts(w.dirty) + w.current.text;
  }

  lemma LogKeepsOrder(w: World, bytes: seq<Byte>)
    requires InOrder(w) && w.writer.Open?
    ensures InOrder(WriterStep(w, Log(bytes)))
  {
    hide Texts;
    SameUnwritten(w, WriterStep(w, Log(bytes)));
    assert w.file + Unwritten(w) + Texts(w.dirty) + (w.current.text + bytes) == w.logged + bytes;
  }

  lemma WriterKeepsOrder(w: World, m: WriterMove)
    requires Control(w) && InOrder(w)
    ensures InOrder(WriterStep(w, m))
  {
    hide Control, Texts, Signal, Unwritten, InOrder;
    if w.writer.Locked? {
      PushKeepsOrder(w, m);
    } else if w.writer.Open? && m.Log? {
      LogKeepsOrder(w, m.bytes);
    } else {
      WriterHasNothing(w);
      SameUnwritten(w, WriterStep(w, m));
      SameOrder(w, WriterStep(w, m));
    }
  }

  lemma OneText(b: Buffer)
    ensures Texts([b]) == b.text
  {
    assert [b][1..] == [];
  }

  lemma WriterHasNothing(w: World)
    requires Control(w)
    ensures Over(w.writer) ==> w.current.text == []
  {
  }

  lemma SameUnwritten(w: World, v: World)
    requires v.waiting == w.waiting && (v.disk == w.disk || v.disk == Signal(w.disk))
    ensures Unwritten(v) == Unwritten(w)
  {
  }

  /** What the disk thread has before it: first what it took, then the dirty pool. */
  function Ahead(w: World): seq<Byte> {
    Unwritten(w) + Texts(w.dirty)
  }

  lemma DiskKeepsOrder(w: World, amount: nat)
    requires Control(w) && InOrder(w)
    ensures InOrder(DiskStep(w, amount))
  {
    hide DiskStep, Control, Unwritten, Texts, InHand;
    var v := DiskStep(w, amount);
    DiskWrites(w, amount);
    assert v.file + (Unwritten(v) + Texts(v.dirty)) == v.file + Unwritten(v) + Texts(v.dirty);
    assert w.file + (Unwritten(w) + Texts(w.dirty)) == w.file + Unwritten(w) + Texts(w.dirty);
  }

  /** It takes from the front of the dirty pool, and writes from the front of that. */
  lemma DiskWrites(w: World, amount: nat)
    requires Control(w)
    ensures var v := DiskStep(w, amount);
      v.file + Ahead(v) == w.file + Ahead(w) && InHand(v) == InHand(w) && v.logged == w.logged
  {
    hide Exclusive, Shutdown, NoLostSignal, ExitsClean, Texts, WriteSome;
    match w.disk
    case Writing(at, done) =>
      InRange(w);
      BytesWritten(w, amount);
      OnlyFileAndDisk(w, amount);
    case Emptied => EmptiedIsAhead(w);
    case Draining => DrainingIsAhead(w);
    case Reclaiming => DrainingIsAhead(DiskStep(w, amount));
    case _ => hide Ahead; SameAhead(w, DiskStep(w, amount));
  }

  lemma EmptiedIsAhead(w: World)
    requires w.disk.Emptied?
    ensures Ahead(w) == Ahead(w.(mutex := Free, disk := Writing(0, 0)))
  {
    hide Texts;
    if w.waiting != [] {
      FirstText(w.waiting);
    }
    NoTexts(w.waiting);
  }

  lemma DrainingIsAhead(w: World)
    requires w.disk.Draining? && w.waiting == []
    ensures Ahead(w) == Texts(w.dirty) == Ahead(w.(waiting := w.dirty, dirty := [], disk := Emptied))
  {
    hide Texts;
    NoTexts([]);
  }

  lemma SameAhead(w: World, v: World)
    requires v.waiting == w.waiting && v.dirty == w.dirty && !w.disk.Writing? && !v.disk.Writing?
    requires (w.disk.Relocking? || w.disk.Reclaiming?) <==> (v.disk.Relocking? || v.disk.Reclaiming?)
    ensures Ahead(v) == Ahead(w)
  {
    hide Texts;
  }

  lemma {:induction false} NoTexts(buffers: seq<Buffer>)
    ensures buffers == [] ==> Texts(buffers) == []
  {
  }

  lemma FirstText(buffers: seq<Buffer>)
    requires buffers != []
    ensures Texts(buffers) == buffers[0].text[0..] + Texts(buffers[1..])
  {
    assert buffers[0].text[0..] == buffers[0].text;
  }

  lemma InRange(w: World)
    requires WaitingMatches(w) && w.disk.Writing?
    ensures var Writing(at, done) := w.disk;
      at <= |w.waiting| && (at < |w.waiting| ==> done <= |w.waiting[at].text|) && (at == |w.waiting| ==> done == 0)
  {
  }

  lemma OnlyFileAndDisk(w: World, amount: nat)
    requires w.disk.Writing?
    ensures var v := DiskStep(w, amount); v == w.(file := v.file, disk := v.disk)
  {
  }

  lemma Associates(a: seq<Byte>, b: seq<Byte>, c: seq<Byte>)
    ensures (a + b) + c == a + (b + c)
  {
  }

  lemma BytesWritten(w: World, amount: nat)
    requires w.disk.Writing? && w.disk.at <= |w.waiting|
    requires (w.disk.at < |w.waiting| ==> w.disk.done <= |w.waiting[w.disk.at].text|)
    ensures var v := DiskStep(w, amount); v.file + Ahead(v) == w.file + Ahead(w)
  {
    hide Texts;
    var v, at, done := DiskStep(w, amount), w.disk.at, w.disk.done;
    if at < |w.waiting| {
      var text, rest, dirty := w.waiting[at].text, Texts(w.waiting[at + 1..]), Texts(w.dirty);
      if done >= |text| {
        NextText(w.waiting, at, text, done);
        assert Unwritten(v) == Unwritten(w);
      } else {
        hide Ahead, Unwritten;
        StillUnwritten(w);
        var num := v.disk.done - done;
        assert v.file == w.file + text[done..done + num];
        assert Unwritten(v) == text[done + num..] + rest by {
          StillUnwritten(v);
        }
        SomeWritten(w.file, text, done, num, rest + dirty);
        assert Ahead(w) == text[done..] + (rest + dirty) by {
          AheadIs(w);
          Associates(text[done..], rest, dirty);
        }
        assert Ahead(v) == text[done + num..] + (rest + dirty) by {
          AheadIs(v);
          Associates(text[done + num..], rest, dirty);
        }
      }
    }
  }

  lemma AheadIs(w: World)
    ensures Ahead(w) == Unwritten(w) + Texts(w.dirty)
  {
  }

  lemma StillUnwritten(w: World)
    requires w.disk.Writing? && w.disk.at < |w.waiting| && w.disk.done <= |w.waiting[w.disk.at].text|
    ensures Unwritten(w) == w.waiting[w.disk.at].text[w.disk.done..] + Texts(w.waiting[w.disk.at + 1..])
  {
  }

  lemma NextText(buffers: seq<Buffer>, at: nat, text: seq<Byte>, done: nat)
    requires at < |buffers| && done == |text|
    ensures text[done..] + Texts(buffers[at + 1..]) ==
            if at + 1 < |buffers| then buffers[at + 1].text[0..] + Texts(buffers[at + 2..]) else []
  {
    if at + 1 < |buffers| {
      FirstText(buffers[at + 1..]);
      assert buffers[at + 1..][1..] == buffers[at + 2..];
    }
  }

  lemma SomeWritten(file: seq<Byte>, text: seq<Byte>, done: nat, num: nat, rest: seq<Byte>)
    requires done + num <= |text|
    ensures (file + text[done..done + num]) + (text[done + num..] + rest) == file + (text[done..] + rest)
  {
    assert text[done..] == text[done..done + num] + text[done + num..];
  }

  // ---------------------------------------------------------------- buffers

  lemma {:induction false} UsesConcat(a: seq<Buffer>, b: seq<Buffer>, id: nat)
    ensures Uses(a + b, id) == Uses(a, id) + Uses(b, id)
    decreases |a|
  {
    if a == [] {
      assert a + b == b;
    } else {
      assert (a + b)[1..] == a[1..] + b;
      UsesConcat(a[1..], b, id);
    }
  }

  lemma UsesOne(b: Buffer, id: nat)
    ensures Uses([b], id) == if b.id == id then 1 else 0
  {
    assert [b][1..] == [];
  }

  lemma SwitchKeepsPlaces(w: World, id: nat)
    requires w.writer.Pushed?
    ensures var v := Switch(w);
      && (v.next == w.next || v.next == w.next + 1)
      && Places(v, id) == Places(w, id) + (if w.next <= id < v.next then 1 else 0)
  {
    hide Uses;
    if w.clean != [] {
      var last := |w.clean| - 1;
      UsesConcat(w.clean[..last], [w.clean[last]], id);
      UsesOne(w.clean[last], id);
      assert w.clean == w.clean[..last] + [w.clean[last]];
    }
  }

  lemma WriterKeepsPlaces(w: World, m: WriterMove, id: nat)
    ensures var v := WriterStep(w, m);
      && (v.next == w.next || v.next == w.next + 1)
      && Places(v, id) == Places(w, id) + (if w.next <= id < v.next then 1 else 0)
  {
    hide Uses, Switch, Signal;
    if w.writer.Pushed? {
      SwitchKeepsPlaces(w, id);
    } else if w.writer.Locked? {
      UsesConcat(w.dirty, [w.current], id);
      UsesOne(w.current, id);
    }
  }

  lemma DiskKeepsPlaces(w: World, amount: nat, id: nat)
    requires WaitingMatches(w)
    ensures DiskStep(w, amount).next == w.next && Places(DiskStep(w, amount), id) == Places(w, id)
  {
    hide Uses;
    UsesNone(id);
    UsesConcat(w.clean, w.waiting, id);
  }

  lemma UsesNone(id: nat)
    ensures Uses([], id) == 0
  {
  }

  lemma StepKeepsInv(w: World, m: Move)
    requires Inv(w)
    ensures Inv(Step(w, m))
  {
    hide InOrder, Exclusive, Shutdown, NoLostSignal, ExitsClean, WaitingMatches, Places, WriterStep, DiskStep;
    var v := Step(w, m);
    match m {
      case Writer(n) =>
        WriterKeepsMutex(w, n);
        WriterKeepsSignals(w, n);
        WriterKeepsDisk(w, n);
        WriterKeepsOrder(w, n);
        forall id: nat ensures Places(v, id) == if id < v.next then 1 else 0 {
          WriterKeepsPlaces(w, n, id);
          assert Places(w, id) == if id < w.next then 1 else 0;
        }
      case Disk(amount) =>
        DiskKeepsMutex(w, amount);
        DiskKeepsSignals(w, amount);
        DiskKeepsWaiting(w, amount);
        DiskKeepsOrder(w, amount);
        forall id: nat ensures Places(v, id) == if id < v.next then 1 else 0 {
          DiskKeepsPlaces(w, amount, id);
          assert Places(w, id) == if id < w.next then 1 else 0;
        }
    }
  }

  lemma {:induction false} RunKeepsInv(w: World, moves: seq<Move>)
    requires Inv(w)
    ensures Inv(RunAll(w, moves))
    decreases |moves|
  {
    hide Inv, Step;
    if moves != [] {
      StepKeepsInv(w, moves[0]);
      RunKeepsInv(Step(w, moves[0]), moves[1..]);
    }
  }

  // ---------------------------------------------------------------- what it means

  /**
    In every run the file, and what is on its way to it, are the bytes logged, in order; no buffer is in
    two places.
   */
  lemma NothingIsLost(moves: seq<Move>, id: nat)
    ensures var w := RunAll(Initial(), moves);
      && w.file + Unwritten(w) + Texts(w.dirty) + InHand(w) == w.logged
      && Places(w, id) == if id < w.next then 1 else 0
  {
    hide RunAll, Initial, Places, Unwritten, Texts, InHand;
    InitiallyInv();
    RunKeepsInv(Initial(), moves);
  }

  /** The disk thread never sleeps on work, or on its own end, that no signal will tell it of. */
  lemma NoLostWakeup(moves: seq<Move>)
    ensures var w := RunAll(Initial(), moves);
      w.disk == Asleep(false) && !w.mutex.ByWriter? ==> w.dirty == [] && !w.terminate
  {
    hide RunAll, Initial;
    InitiallyInv();
    RunKeepsInv(Initial(), moves);
  }

  /**
    After the destructor has joined: everything is in the file, unless the disk thread came too late to
    enter its loop.
   */
  lemma JoinedMeansWritten(moves: seq<Move>)
    ensures var w := RunAll(Initial(), moves);
      w.writer.Joined? ==> (w.file == w.logged <==> w.looped || w.logged == [])
  {
    hide RunAll, Initial;
    InitiallyInv();
    RunKeepsInv(Initial(), moves);
    var w := RunAll(Initial(), moves);
    NoTexts(w.dirty);
    NoTexts(w.waiting);
  }

  lemma RunNext(w: World, moves: seq<Move>, i: nat, v: World)
    requires i < |moves| && Step(w, moves[i]) == v
    ensures RunAll(w, moves[i..]) == RunAll(v, moves[i + 1..])
  {
    hide Step;
    assert moves[i..][1..] == moves[i + 1..];
  }

  /** The bytes are handed over and the destructor joins before the disk thread takes its mutex for the first time. */
  lemma LateThreadLoses(bytes: seq<Byte>) returns (moves: seq<Move>)
    requires bytes != []
    ensures var w := RunAll(Initial(), moves); w.writer.Joined? && !w.looped && w.logged == bytes && w.file == []
  {
    var go, disk := Writer(Go), Disk(1);
    moves := [Writer(Log(bytes)), Writer(DoWork), go, go, go, go, go, go, Writer(Close), go, go, go, go, disk, disk,
        disk, go];
    HandedOverUnseen(bytes, moves);
    ClosedUnseen(bytes, moves);
  }

  function Unseen(bytes: seq<Byte>): World {
    Initial().(logged := bytes, current := Buffer(1, []), dirty := [Buffer(0, bytes)], clean := [])
  }

  lemma HandedOverUnseen(bytes: seq<Byte>, moves: seq<Move>)
    requires bytes != [] && |moves| > 8 && moves[0] == Writer(Log(bytes)) && moves[1] == Writer(DoWork)
    requires forall i :: 2 <= i < 8 ==> moves[i] == Writer(Go)
    ensures RunAll(Initial(), moves) == RunAll(Unseen(bytes), moves[8..])
  {
    hide WriterStep;
    Filled(bytes, moves);
    LockedAndPushed(Initial().(logged := bytes, current := Buffer(0, bytes), writer := Locking), moves);
    SwitchedAndUnlocked(Unseen(bytes).(current := Buffer(0, bytes), clean := [Buffer(1, [])], mutex := ByWriter,
        writer := Pushed), moves);
    assert [] + [Buffer(0, bytes)] == [Buffer(0, bytes)];
  }

  lemma Filled(bytes: seq<Byte>, moves: seq<Move>)
    requires bytes != [] && |moves| > 2 && moves[0] == Writer(Log(bytes)) && moves[1] == Writer(DoWork)
    ensures RunAll(Initial(), moves) ==
            RunAll(Initial().(logged := bytes, current := Buffer(0, bytes), writer := Locking), moves[2..])
  {
    var w1 := Initial().(logged := bytes, current := Buffer(0, bytes));
    assert moves[0..] == moves && [] + bytes == bytes;
    RunNext(Initial(), moves, 0, w1);
    RunNext(w1, moves, 1, w1.(writer := Locking));
  }

  lemma LockedAndPushed(w: World, moves: seq<Move>)
    requires |moves| > 4 && moves[2] == moves[3] == Writer(Go) && w.writer == Locking && w.mutex == Free
    ensures RunAll(w, moves[2..])
        == RunAll(w.(mutex := ByWriter, dirty := w.dirty + [w.current], writer := Pushed), moves[4..])
  {
    var w1 := w.(mutex := ByWriter, writer := Locked);
    RunNext(w, moves, 2, w1);
    RunNext(w1, moves, 3, w1.(dirty := w.dirty + [w.current], writer := Pushed));
  }

  lemma SwitchedAndUnlocked(w: World, moves: seq<Move>)
    requires |moves| > 8 && (forall i :: 4 <= i < 8 ==> moves[i] == Writer(Go))
    requires w.writer == Pushed && w.mutex == ByWriter && w.disk == Starting && |w.clean| == 1
    ensures RunAll(w, moves[4..])
        == RunAll(w.(mutex := Free, current := Buffer(w.clean[0].id, []), clean := [], writer := Open), moves[8..])
  {
    var w1 := w.(current := Buffer(w.clean[0].id, w.current.text), clean := [], writer := Switched);
    var w2 := w1.(writer := Signalled);
    var w3 := w2.(mutex := Free, writer := Unlocked);
    RunNext(w, moves, 4, w1);
    RunNext(w1, moves, 5, w2);
    RunNext(w2, moves, 6, w3);
    RunNext(w3, moves, 7, w3.(current := Buffer(w.clean[0].id, []), writer := Open));
  }

  lemma ClosedUnseen(bytes: seq<Byte>, moves: seq<Move>)
    requires |moves| == 17 && moves[8] == Writer(Close) && moves[16] == Writer(Go)
    requires (forall i :: 9 <= i < 13 ==> moves[i] == Writer(Go)) && (forall i :: 13 <= i < 16 ==> moves[i] == Disk(1))
    ensures RunAll(Unseen(bytes), moves[8..]) == Unseen(bytes).(terminate := true, writer := Joined, disk := Exited)
  {
    hide Unseen;
    var w0 := Unseen(bytes);
    assert w0 == w0.(writer := Open, mutex := Free, disk := Starting, terminate := false, current := Buffer(1, [])) by {
      UnseenIs(bytes);
    }
    CloseMoves(w0, moves);
    var w5 := w0.(terminate := true, writer := Joining);
    var w6 := w5.(mutex := ByDisk, disk := Testing);
    var w7 := w6.(disk := Exiting);
    var w8 := w7.(mutex := Free, disk := Exited);
    RunNext(w5, moves, 13, w6);
    RunNext(w6, moves, 14, w7);
    RunNext(w7, moves, 15, w8);
    RunNext(w8, moves, 16, w8.(writer := Joined));
    assert moves[17..] == [];
  }

  lemma UnseenIs(bytes: seq<Byte>)
    ensures var w := Unseen(bytes);
        w == w.(writer := Open, mutex := Free, disk := Starting, terminate := false, current := Buffer(1, []))
  {
  }

  lemma CloseMoves(w: World, moves: seq<Move>)
    requires |moves| == 17 && moves[8] == Writer(Close) && forall i :: 9 <= i < 13 ==> moves[i] == Writer(Go)
    requires w.writer == Open && w.mutex == Free && w.disk == Starting && w.current.text == []
    ensures RunAll(w, moves[8..]) == RunAll(w.(terminate := true, writer := Joining), moves[13..])
  {
    var w1 := w.(writer := Closing);
    RunNext(w, moves, 8, w1);
    RunNext(w1, moves, 9, w1.(mutex := ByWriter, writer := CloseLocked));
    TerminateMoves(w1.(mutex := ByWriter, writer := CloseLocked), moves);
  }

  lemma TerminateMoves(w: World, moves: seq<Move>)
    requires |moves| == 17 && (forall i :: 10 <= i < 13 ==> moves[i] == Writer(Go))
    requires w.writer == CloseLocked && w.mutex == ByWriter && w.disk == Starting
    ensures RunAll(w, moves[10..]) == RunAll(w.(mutex := Free, terminate := true, writer := Joining), moves[13..])
  {
    var w1 := w.(terminate := true, writer := Terminated);
    var w2 := w1.(writer := CloseSignalled);
    RunNext(w, moves, 10, w1);
    RunNext(w1, moves, 11, w2);
    RunNext(w2, moves, 12, w2.(mutex := Free, writer := Joining));
  }

  // ---------------------------------------------------------------- the destructor returns

  /** How far the disk thread is from its next rest; `more` says that there are dirty buffers. */
  function DiskRank(d: DiskPc, more: bool): nat {
    match d
    case Emptied => 14
    case Writing(_, _) => 13
    case Relocking => 12
    case Reclaiming => 11
    case Starting => if more then 8 else 5
    case Testing => if more then 7 else 3
    case Looking => if more then 6 else 2
    case Asleep(_) => 6
    case Draining => if more then 5 else 4
    case Exiting => 1
    case Exited => 0
  }

  /** How much the disk thread has left to do once nothing more is coming. */
  function Left(w: World): nat {
    var buffers := if w.disk.Writing? && w.disk.at <= |w.waiting| then |w.waiting| - w.disk.at
                   else if w.disk.Emptied? then |w.waiting| else 0;
    20 * (|Unwritten(w)| + |Texts(w.dirty)| + buffers + 2 * |w.dirty|) + DiskRank(w.disk, w.dirty != [])
  }

  /** While the writer does not hold the mutex, every step of the disk thread brings it nearer a rest, or is one. */
  lemma DiskGetsCloser(w: World, amount: nat)
    requires Control(w) && !WriterHolds(w.writer) && !w.disk.Exited? && amount > 0
    ensures Left(DiskStep(w, amount)) < Left(w) || (w.disk.Looking? && w.dirty == [])
  {
    hide Texts, Left, Unwritten, WriteSome;
    match w.disk
    case Writing(at, done) =>
      InRange(w);
      WritingGetsCloser(w, at, done, amount);
    case Emptied => EmptiedGetsCloser(w);
    case Draining => DrainingGetsCloser(w);
    case Looking =>
      if w.dirty != [] {
        OthersGetCloser(w, DiskStep(w, amount));
      }
    case Starting => OthersGetCloser(w, DiskStep(w, amount));
    case Testing => OthersGetCloser(w, DiskStep(w, amount));
    case Asleep(_) => OthersGetCloser(w, DiskStep(w, amount));
    case Relocking => OthersGetCloser(w, DiskStep(w, amount));
    case Reclaiming => OthersGetCloser(w, DiskStep(w, amount));
    case Exiting => OthersGetCloser(w, DiskStep(w, amount));
  }

  /**
    While the destructor waits, every step of the disk thread, a `write` that writes something, brings
    it nearer its end.
   */
  lemma JoinGetsCloser(w: World, amount: nat)
    requires Control(w) && w.writer.Joining? && !w.disk.Exited? && amount > 0
    ensures Left(DiskStep(w, amount)) < Left(w)
  {
    hide Left, DiskStep;
    DiskGetsCloser(w, amount);
  }

  lemma WrittenIsLess(w: World, at: nat, done: nat, amount: nat)
    requires w.disk == Writing(at, done) && at < |w.waiting| && done < |w.waiting[at].text| && amount > 0
    ensures var v := WriteSome(w, at, done, amount);
      |Unwritten(v)| < |Unwritten(w)| && v == w.(file := v.file, disk := Writing(at, v.disk.done))
  {
    hide Texts;
  }

  lemma WritingGetsCloser(w: World, at: nat, done: nat, amount: nat)
    requires w.disk == Writing(at, done) && at <= |w.waiting|
    requires (at < |w.waiting| ==> done <= |w.waiting[at].text|) && amount > 0
    ensures Left(WriteSome(w, at, done, amount)) < Left(w)
  {
    hide Texts;
    if at < |w.waiting| {
      if done >= |w.waiting[at].text| {
        NextText(w.waiting, at, w.waiting[at].text, done);
      } else {
        WrittenIsLess(w, at, done, amount);
        hide WriteSome, Unwritten;
      }
    } else {
      NoTexts(w.waiting[at..]);
    }
  }

  lemma EmptiedGetsCloser(w: World)
    requires w.disk.Emptied?
    ensures Left(w.(mutex := Free, disk := Writing(0, 0))) < Left(w)
  {
    hide Texts;
    if w.waiting != [] {
      FirstText(w.waiting);
    }
  }

  lemma DrainingGetsCloser(w: World)
    requires w.disk.Draining? && w.waiting == []
    ensures Left(DiskStep(w, 1)) < Left(w)
  {
    hide Texts;
    NoTexts([]);
  }

  lemma OthersGetCloser(w: World, v: World)
    requires v.dirty == w.dirty && DiskRank(v.disk, v.dirty != []) < DiskRank(w.disk, w.dirty != [])
    requires !w.disk.Writing? && !w.disk.Emptied? && !v.disk.Writing? && !v.disk.Emptied?
    requires v.waiting == w.waiting || v.waiting == []
    requires v.disk.Relocking? || v.disk.Reclaiming? || v.waiting == []
          || (v.waiting == w.waiting && !w.disk.Relocking? && !w.disk.Reclaiming?)
    ensures Left(v) < Left(w)
  {
    hide Texts;
    NoTexts([]);
  }

  predicate AllPositive(amounts: seq<nat>) {
    forall i :: 0 <= i < |amounts| ==> amounts[i] > 0
  }

  function DiskMoves(amounts: seq<nat>): (moves: seq<Move>)
    ensures |moves| == |amounts|
  {
    if amounts == [] then [] else [Disk(amounts[0])] + DiskMoves(amounts[1..])
  }

  /** So `pthread_join` returns, whatever sizes the writes come in. */
  lemma {:induction false} JoinReturns(w: World, amounts: seq<nat>)
    requires Inv(w) && w.writer.Joining? && AllPositive(amounts) && Left(w) <= |amounts|
    ensures RunAll(w, DiskMoves(amounts)).disk.Exited?
    decreases |amounts|
  {
    hide Inv, Left, DiskStep;
    assert Control(w) by {
      hide *;
      InvIsControl(w);
    }
    if amounts == [] {
      assert w.disk.Exited? by {
        NothingLeft(w);
      }
    } else if w.disk.Exited? {
      ExitedStays(w, DiskMoves(amounts));
    } else {
      var v := Step(w, Disk(amounts[0]));
      StepKeepsInv(w, Disk(amounts[0]));
      JoinGetsCloser(w, amounts[0]);
      DiskLeavesWriter(w, amounts[0]);
      assert DiskMoves(amounts)[1..] == DiskMoves(amounts[1..]);
      JoinReturns(v, amounts[1..]);
    }
  }

  lemma InvIsControl(w: World)
    requires Inv(w)
    ensures Control(w)
  {
  }

  lemma NothingLeft(w: World)
    requires Left(w) == 0
    ensures w.disk.Exited?
  {
  }

  lemma DiskLeavesWriter(w: World, amount: nat)
    ensures DiskStep(w, amount).writer == w.writer
  {
  }

  lemma {:induction false} ExitedStays(w: World, moves: seq<Move>)
    requires w.disk.Exited?
    ensures RunAll(w, moves).disk.Exited?
    decreases |moves|
  {
    if moves != [] {
      ExitedStays(Step(w, moves[0]), moves[1..]);
    }
  }

  // ---------------------------------------------------------------- the disk thread catches up

  /** The disk thread waits, or is gone, and nothing that was handed over is unwritten. */
  predicate AtRest(w: World) {
    (w.disk.Asleep? || w.disk.Exited?) && w.dirty == [] && w.waiting == [] && w.file + InHand(w) == w.logged
  }

  /**
    From every moment at which the writer does not hold the mutex, and as long as it does not take it,
    the disk thread writes all that was handed over and comes to rest, in a bounded number of steps,
    unless it never gets into its loop.
   */
  lemma {:induction false} DiskCatchesUp(w: World, amounts: seq<nat>) returns (n: nat)
    requires Inv(w) && !WriterHolds(w.writer) && (w.terminate ==> w.looped)
    requires AllPositive(amounts) && Left(w) < |amounts|
    ensures n <= |amounts| && AtRest(RunAll(w, DiskMoves(amounts[..n])))
    decreases |amounts|
  {
    hide Inv, Left, DiskStep, AtRest;
    InvIsControl(w);
    if w.disk.Exited? {
      ExitedIsAtRest(w);
      n := 0;
    } else {
      var a := amounts[0];
      StepKeepsInv(w, Disk(a));
      DiskLeavesWriter(w, a);
      DiskGetsCloser(w, a);
      DiskLeavesRequest(w, a);
      var v := Step(w, Disk(a));
      if w.disk.Looking? && w.dirty == [] {
        RestsAfterLooking(w, a);
        n := 1;
        assert amounts[..1] == [a] && DiskMoves([a])[1..] == [];
      } else {
        var m := DiskCatchesUp(v, amounts[1..]);
        n := m + 1;
        assert amounts[..n][0] == a && amounts[..n][1..] == amounts[1..][..m];
        assert DiskMoves(amounts[..n])[1..] == DiskMoves(amounts[1..][..m]);
      }
    }
  }

  lemma ExitedIsAtRest(w: World)
    requires Inv(w) && w.disk.Exited? && (w.terminate ==> w.looped)
    ensures AtRest(w)
  {
    hide Distinct;
    assert Unwritten(w) == [] && w.file + [] + [] + InHand(w) == w.file + InHand(w);
  }

  lemma RestsAfterLooking(w: World, amount: nat)
    requires Inv(w) && w.disk.Looking? && w.dirty == []
    ensures AtRest(DiskStep(w, amount))
  {
    hide Distinct;
    assert Unwritten(w) == [] && w.file + [] + [] + InHand(w) == w.file + InHand(w);
  }

  lemma DiskLeavesRequest(w: World, amount: nat)
    ensures DiskStep(w, amount).terminate == w.terminate && (w.looped ==> DiskStep(w, amount).looped)
  {
  }

  // ---------------------------------------------------------------- when nothing happens

  /** An empty buffer is not handed over, and a buffer that is not empty is on its way as soon as the mutex is free. */
  lemma HandOverStarts(w: World)
    requires w.writer.Open?
    ensures w.current.text == [] ==> WriterStep(w, DoWork) == w
    ensures w.current.text != [] ==> WriterStep(w, DoWork) == w.(writer := Locking)
  {
  }

  /**
    The disk thread goes to sleep, and gives the mutex up, only with nothing to write, and wakes only by
    a signal or by itself.
   */
  lemma SleepsAndWakes(w: World, amount: nat)
    ensures w.disk.Looking? && w.dirty == [] ==>
      DiskStep(w, amount).disk == Asleep(false) && DiskStep(w, amount).mutex == Free
    ensures w.disk.Looking? && w.dirty != [] ==> !DiskStep(w, amount).disk.Asleep?
    ensures w.disk.Asleep? ==>
      (DiskStep(w, amount) != w <==> w.mutex == Free && (w.disk.woken || amount > 0))
  {
  }

  /** A `write` puts in the file as many bytes as it manages, of those that are left of the buffer. */
  lemma WriteWrites(w: World, at: nat, done: nat, amount: nat)
    requires w.disk == Writing(at, done) && at < |w.waiting| && done < |w.waiting[at].text|
    ensures var v, rest := DiskStep(w, amount), w.waiting[at].text[done..];
      v.file == w.file + rest[..if amount < |rest| then amount else |rest|]
  {
    var rest := w.waiting[at].text[done..];
    var num := if amount < |rest| then amount else |rest|;
    assert rest[..num] == w.waiting[at].text[done..done + num];
  }
}
