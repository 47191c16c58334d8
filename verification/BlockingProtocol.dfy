/**
 writeBlocking and readBlocking, with and without a timeout, as a step system composed of the two others:
 the queue's steps and the event flag's steps, glued by the control flow of the two methods.
 The writer waits on `readMask` and wakes `writeMask`; the reader the other way round. A timed call
 may find its time used up wherever it looks at a clock or the kernel does; an untimed one never does.
 */
module BlockingProtocol {
  import opened Prelude
  import Ring
  import Q = QueueProtocol
  import Sync = SynchronizedQueue
  import F = FutexProtocol

  const WRITER: nat := 0
  const READER: nat := 1

  /**
   `writeArg` and `readArg` are the arguments of the calls in progress, `writeLast` and `readLast` whether a call has
   used up its time and makes its last attempt.
   */
  datatype State<T> = State(
    q: Q.State<T>,
    f: F.State,
    readMask: F.Bits,
    writeMask: F.Bits,
    writeArg: Option<seq<T>>,
    readArg: Option<nat>,
    writeLast: bool,
    readLast: bool)

  datatype Action<T> =
    | CallWrite(data: seq<T>)
    | CallRead(n: nat)
    | WriterQueue(writerAct: Q.WriterAct<T>)
    | ReaderQueue(readerAct: Q.ReaderAct)
    | WriterFlag(act: F.Act)
    | ReaderFlag(act: F.Act)
    | WriterTurn
    | ReaderTurn
    | WriterExpires
    | ReaderExpires

  /** Inside wake(), or a wait with retry: the thread does not give up, but it may be timed out. */
  predicate InFlag(act: F.Act) {
    act.Step? || act.WakeSpuriously? || act.Signal? || act.KernelError? || act.Retry? || act.Expire?
  }

  function Flag<T>(s: State<T>, thread: nat, act: F.Act): State<T> {
    s.(f := F.Next(s.f, F.Action(thread, act)))
  }

  /** writeBlocking between its calls to write(), wake() and wait(). */
  function WriterTurnNext<T>(s: State<T>): State<T>
    requires s.writeArg.Some? && WRITER in s.f.threads
  {
    match (s.q.writer, s.f.threads[WRITER])
    case (WDone(ok), _) =>
      if !ok && s.writeLast then s.(q := Q.WriterNext(s.q, Q.WReturn), writeArg := None) else
      Flag(s.(q := Q.WriterNext(s.q, Q.WReturn)), WRITER,
           if ok then F.StartWake(s.writeMask) else F.StartWait(s.readMask))
    case (WIdle, WakeDone) =>
      Flag(s, WRITER, F.Return).(writeArg := None)
    case (WIdle, WaitDone(status, efState)) =>
      var out := Flag(s, WRITER, F.Return);
      if status != F.NoError then out.(writeArg := None)
      else if efState * s.readMask != {} then out.(q := Q.WriterNext(s.q, Q.WStart(s.writeArg.value)))
      else Flag(out, WRITER, F.StartWait(s.readMask))
    case _ => s
  }

  /** readBlocking between its calls to read(), wake() and wait(). */
  function ReaderTurnNext<T>(s: State<T>): State<T>
    requires s.readArg.Some? && 0 in s.q.readers && READER in s.f.threads
  {
    match (s.q.readers[0].pc, s.f.threads[READER])
    case (RDone(ok, _), _) =>
      if !ok && s.readLast then s.(q := Q.Next(s.q, Q.Read(0, Q.RReturn)), readArg := None) else
      Flag(s.(q := Q.Next(s.q, Q.Read(0, Q.RReturn))), READER,
           if ok then F.StartWake(s.readMask) else F.StartWait(s.writeMask))
    case (RIdle, WakeDone) =>
      Flag(s, READER, F.Return).(readArg := None)
    case (RIdle, WaitDone(status, efState)) =>
      var out := Flag(s, READER, F.Return);
      if status != F.NoError then out.(readArg := None)
      else if efState * s.writeMask != {} then out.(q := Q.Next(s.q, Q.Read(0, Q.RStart(s.readArg.value))))
      else Flag(out, READER, F.StartWait(s.writeMask))
    case _ => s
  }

  /** After a refusal, at the top of its loop, writeBlocking finds its time used up and attempts write() once more. */
  function WriterLast<T>(s: State<T>): State<T>
    requires s.writeArg.Some?
  {
    s.(q := Q.WriterNext(Q.WriterNext(s.q, Q.WReturn), Q.WStart(s.writeArg.value)), writeLast := true)
  }

  function ReaderLast<T>(s: State<T>): State<T>
    requires s.readArg.Some?
  {
    s.(q := Q.Next(Q.Next(s.q, Q.Read(0, Q.RReturn)), Q.Read(0, Q.RStart(s.readArg.value))), readLast := true)
  }

  /** A call for more messages than the queue holds returns at once. */
  function Next<T>(s: State<T>, a: Action<T>): State<T> {
    if !Running(s) then s else
    match a
    case CallWrite(data) =>
      if s.writeArg.Some? || |data| > s.q.cfg.capacity then s
      else s.(writeArg := Some(data), q := Q.WriterNext(s.q, Q.WStart(data)), writeLast := false)
    case CallRead(n) =>
      if s.readArg.Some? || n > s.q.cfg.capacity then s
      else s.(readArg := Some(n), q := Q.Next(s.q, Q.Read(0, Q.RStart(n))), readLast := false)
    case WriterQueue(act) =>
      if act.WStep? || act.WCopy? then s.(q := Q.WriterNext(s.q, act)) else s
    case ReaderQueue(act) =>
      if act.RStep? || act.RCopy? then s.(q := Q.Next(s.q, Q.Read(0, act))) else s
    case WriterFlag(act) => if InFlag(act) then Flag(s, WRITER, act) else s
    case ReaderFlag(act) => if InFlag(act) then Flag(s, READER, act) else s
    case WriterTurn => if s.writeArg.Some? then WriterTurnNext(s) else s
    case ReaderTurn => if s.readArg.Some? then ReaderTurnNext(s) else s
    case WriterExpires => if s.writeArg.Some? && !s.writeLast && s.q.writer == Q.WDone(false) then WriterLast(s) else s
    case ReaderExpires =>
      if s.readArg.Some? && !s.readLast && s.q.readers[0].pc.RDone? && !s.q.readers[0].pc.ok then ReaderLast(s) else s
  }

  function Exec<T>(s: State<T>, run: seq<Action<T>>): State<T>
    decreases |run|
  {
    if run == [] then s else Next(Exec(s, run[..|run| - 1]), run[|run| - 1])
  }

  function Init<T>(cfg: Ring.Config, ring: seq<T>, word: F.Bits, readMask: F.Bits, writeMask: F.Bits): State<T>
    requires |ring| == cfg.capacity
  {
    State(Q.Init(cfg, ring), F.Init(word, {WRITER, READER}), readMask, writeMask, None, None, false, false)
  }

  predicate Running<T>(s: State<T>) {
    0 in s.q.readers && WRITER in s.f.threads && READER in s.f.threads
  }

  // ----- who waits, who owes -----

  function Available<T>(s: State<T>): int
    requires 0 in s.q.readers
  {
    |s.q.written| - s.q.readers[0].position
  }

  function Free<T>(s: State<T>): int
    requires 0 in s.q.readers
  {
    s.q.cfg.capacity - Available(s)
  }

  /** Inside wait(), with no notification in hand. */
  predicate Waiting(pc: F.Pc) {
    pc.Clear? || pc.Compare? || pc.Asleep? || pc.Woken? || pc.Failed?
  }

  /** Inside the flag for a wait on `waits` or a wake of `wakes`. */
  predicate UsesMasks(pc: F.Pc, waits: F.Bits, wakes: F.Bits) {
    match pc
    case Outside => false
    case WakeOr(mask) => mask == wakes
    case WakeSys(mask) => mask == wakes
    case Clear(mask) => mask == waits
    case Compare(mask, _) => mask == waits
    case Asleep(mask) => mask == waits
    case Woken(mask) => mask == waits
    case Failed(mask, _) => mask == waits
    case WaitDone(status, efState) => status.NoError? ==> efState * waits != {}
    case WakeDone => true
  }

  /** The writer's last look found too little room, and it is on its way to sleep or asleep. */
  predicate WriterStuck<T>(pc: Q.WriterPc<T>, flag: F.Pc) {
    (pc.WDone? && !pc.ok) || Waiting(flag)
  }

  /** The reader's last look found too few messages. */
  predicate ReaderStuck<T>(rd: Q.Reader<T>, flag: F.Pc, n: nat) {
    || (rd.pc.RDone? && !rd.pc.ok) || Waiting(flag)
    || (rd.pc.RLoadedWrite? && rd.pc.seen - rd.position < n)
  }

  /** The writer has committed and not yet set the flag. */
  predicate WriterOwes<T>(pc: Q.WriterPc<T>, flag: F.Pc) {
    (pc.WDone? && pc.ok) || flag.WakeOr?
  }

  predicate ReaderOwes<T>(pc: Q.ReaderPc<T>, flag: F.Pc) {
    (pc.RDone? && pc.ok) || flag.WakeOr?
  }

  /** A side that is stuck though it could proceed has a notification set, or its peer is about to set one. */
  predicate Notified(stuck: bool, could: bool, waits: F.Bits, word: F.Bits, peerOwes: bool) {
    stuck && could ==> waits * word != {} || peerOwes
  }

  ghost predicate WriterOk<T>(pc: Q.WriterPc<T>, flag: F.Pc, arg: Option<seq<T>>, cap: nat, free: int,
                              word: F.Bits, waits: F.Bits, wakes: F.Bits, peerOwes: bool) {
    match arg
    case None => pc.WIdle? && flag.Outside?
    case Some(data) =>
      && |data| <= cap
      && (match pc
          case WIdle => UsesMasks(flag, waits, wakes)
          case WDone(_) => flag.Outside?
          case _ => flag.Outside? && pc.data == data)
      && Notified(WriterStuck(pc, flag), |data| <= free, waits, word, peerOwes)
  }

  ghost predicate ReaderOk<T>(rd: Q.Reader<T>, flag: F.Pc, arg: Option<nat>, available: int,
                              word: F.Bits, waits: F.Bits, wakes: F.Bits, peerOwes: bool) {
    match arg
    case None => rd.pc.RIdle? && flag.Outside?
    case Some(n) =>
      && (match rd.pc
          case RIdle => UsesMasks(flag, waits, wakes)
          case RDone(_, _) => flag.Outside?
          case RStore(_, _, _, _) => flag.Outside?
          case RReset(_, _) => flag.Outside?
          case _ => flag.Outside? && rd.pc.n == n)
      && Notified(ReaderStuck(rd, flag, n), n <= available, waits, word, peerOwes)
  }

  ghost predicate WriterSide<T>(s: State<T>)
    requires Running(s)
  {
    WriterOk(s.q.writer, s.f.threads[WRITER], s.writeArg, s.q.cfg.capacity, Free(s), s.f.word, s.readMask, s.writeMask,
             ReaderOwes(s.q.readers[0].pc, s.f.threads[READER]))
  }

  ghost predicate ReaderSide<T>(s: State<T>)
    requires Running(s)
  {
    ReaderOk(s.q.readers[0], s.f.threads[READER], s.readArg, Available(s), s.f.word, s.writeMask, s.readMask,
             WriterOwes(s.q.writer, s.f.threads[WRITER]))
  }

  ghost predicate Inv<T>(s: State<T>) {
    && Sync.SyncInv(s.q) && 0 in s.q.readers && F.NoneLost(s.f)
    && s.f.threads.Keys == {WRITER, READER}
    && s.readMask != {} && s.writeMask != {} && s.readMask * s.writeMask == {}
    && WriterSide(s) && ReaderSide(s)
  }

  // ----- what one step of each part does -----

  /** A refused write had too little room; only a successful one extends the history. */
  ghost predicate WriterMoves<T>(q: Q.State<T>, q': Q.State<T>)
    requires 0 in q.readers
  {
    && q'.cfg == q.cfg && q'.readers == q.readers
    && (q'.written == q.written || (q'.writer.WDone? && q'.writer.ok))
    && (q.writer.WIdle? || q.writer.WDone? ==> q' == q)
    && (!q.writer.WIdle? && !q.writer.WDone? ==>
          && !q'.writer.WIdle?
          && (!q'.writer.WDone? ==> q'.writer.data == q.writer.data)
          && (q'.writer.WDone? && !q'.writer.ok ==>
                q.cfg.capacity - (|q.written| - q.readers[0].position) < |q.writer.data| ||
                |q.writer.data| > q.cfg.capacity))
  }

  lemma WriterProgress<T>(q: Q.State<T>, act: Q.WriterAct<T>)
    requires Sync.SyncInv(q) && (act.WStep? || act.WCopy?)
    ensures WriterMoves(q, Q.WriterNext(q, act))
  {
    if q.writer.WLoadedWrite? {
      WriterDecides(q, act);
    } else {
      WriterGoesOn(q, act);
    }
  }

  lemma WriterDecides<T>(q: Q.State<T>, act: Q.WriterAct<T>)
    requires Sync.SyncInv(q) && (act.WStep? || act.WCopy?) && q.writer.WLoadedWrite?
    ensures WriterMoves(q, Q.WriterNext(q, act))
  {
    assert Q.WriterInv(q) && Q.CursorInv(q.cfg, q.written, q.readers[0]);
    hide Sync.SyncInv, Q.WriterInv, Q.CursorInv, Ring.AvailableToWrite, Ring.Regions, Ring.GetSlot;
    Ring.QuantumCountIsCapacity(q.cfg);
    Ring.AvailabilityMeaning(q.cfg, |q.written|, q.readers[0].position);
  }

  lemma WriterGoesOn<T>(q: Q.State<T>, act: Q.WriterAct<T>)
    requires Sync.SyncInv(q) && (act.WStep? || act.WCopy?) && !q.writer.WLoadedWrite?
    ensures WriterMoves(q, Q.WriterNext(q, act))
  {
    hide Ring.AvailableToWrite, Ring.Regions, Ring.GetSlot, Ring.Misaligned;
    WriterAligned(q);
    hide Sync.SyncInv;
    if q.writer.WCopying? {
      WriterCopies(q, act);
    }
  }

  lemma WriterCopies<T>(q: Q.State<T>, act: Q.WriterAct<T>)
    requires 0 in q.readers && (act.WStep? || act.WCopy?) && q.writer.WCopying?
    ensures WriterMoves(q, Q.WriterNext(q, act))
  {
    hide Ring.GetSlot;
  }

  lemma WriterAligned<T>(q: Q.State<T>)
    requires Sync.SyncInv(q)
    ensures !Ring.Misaligned(q.cfg, q.writePtr)
  {
    assert Q.WriterInv(q);
    Ring.CounterCell(q.cfg, |q.written|);
  }

  /** A refused read had too little to read when it loaded the write counter; only a successful one moves the cursor. */
  ghost predicate ReaderMoves<T>(rd: Q.Reader<T>, rd': Q.Reader<T>, total: nat) {
    && (rd'.position == rd.position || (rd'.position >= rd.position && rd'.pc.RDone? && rd'.pc.ok))
    && match rd.pc
       case RIdle => rd' == rd
       case RDone(_, _) => rd' == rd
       case RBegin(n) => rd' == rd || (rd'.pc.RLoadedWrite? && rd'.pc.n == n && rd'.pc.seen == total)
       case RLoadedWrite(n, _, seen) =>
         || rd' == rd || (rd'.pc.RCopying? && rd'.pc.n == n)
         || (rd'.pc.RDone? && !rd'.pc.ok && seen - rd.position < n && rd'.position == rd.position)
       case RCopying(n, _, _) => (rd'.pc.RCopying? || rd'.pc.RCommit?) && rd'.pc.n == n
       case RCommit(n, _) => (rd'.pc.RCommit? || rd'.pc.RLoadedRead?) && rd'.pc.n == n
       case RLoadedRead(n, _, _) => rd' == rd || rd'.pc.RStore?
       case RStore(_, _, _, _) => rd' == rd || (rd'.pc.RDone? && rd'.pc.ok)
       case RReset(_, _) => false
  }

  lemma ReaderProgress<T>(q: Q.State<T>, act: Q.ReaderAct)
    requires Sync.SyncInv(q) && (act.RStep? || act.RCopy?)
    ensures ReaderMoves(q.readers[0], Q.ReaderNext(q, q.readers[0], act), |q.written|)
  {
    if q.readers[0].pc.RLoadedWrite? {
      ReaderDecides(q, act);
    } else {
      ReaderGoesOn(q, act);
    }
  }

  lemma ReaderDecides<T>(q: Q.State<T>, act: Q.ReaderAct)
    requires Sync.SyncInv(q) && (act.RStep? || act.RCopy?) && q.readers[0].pc.RLoadedWrite?
    ensures ReaderMoves(q.readers[0], Q.ReaderNext(q, q.readers[0], act), |q.written|)
  {
    var rd := q.readers[0];
    Sync.NoReset(q, act);
    assert Q.ReaderPcInv(q.cfg, q.written, Q.High(q), rd) && Q.CursorInv(q.cfg, q.written, rd);
    hide Sync.SyncInv, Q.Ascending, Q.Delivered, Ring.Regions, Ring.BeginRead;
    Ring.BeginReadMeaning(q.cfg, rd.pc.seen, rd.position, rd.pc.n);
  }

  lemma ReaderGoesOn<T>(q: Q.State<T>, act: Q.ReaderAct)
    requires Sync.SyncInv(q) && (act.RStep? || act.RCopy?) && !q.readers[0].pc.RLoadedWrite?
    ensures ReaderMoves(q.readers[0], Q.ReaderNext(q, q.readers[0], act), |q.written|)
  {
    assert !q.readers[0].pc.RReset?;
    hide Sync.SyncInv, Q.Delivered, Q.Assemble, Q.Complete, Ring.GetSlot, Ring.Overrun;
    Sync.NoReset(q, act);
    if !q.readers[0].pc.RLoadedRead? {
      ReaderCopies(q, act);
    }
  }

  lemma ReaderCopies<T>(q: Q.State<T>, act: Q.ReaderAct)
    requires 0 in q.readers && (act.RStep? || act.RCopy?)
    requires var pc := q.readers[0].pc; !pc.RLoadedWrite? && !pc.RLoadedRead? && !pc.RReset?
    ensures ReaderMoves(q.readers[0], Q.ReaderNext(q, q.readers[0], act), |q.written|)
  {
    hide Q.Complete, Ring.GetSlot;
  }

  /** The effect of one thread's step inside the flag on the word, on itself and on the other thread. */
  lemma FlagProgress(f: F.State, t: nat, o: nat, act: F.Act, waits: F.Bits, wakes: F.Bits)
    requires f.threads.Keys == {t, o} && t != o && InFlag(act) && UsesMasks(f.threads[t], waits, wakes)
    ensures var f' := F.Next(f, F.Action(t, act));
            && f'.threads.Keys == f.threads.Keys
            && UsesMasks(f'.threads[t], waits, wakes)
            && (f'.word == f.word
                || (f'.word == f.word + wakes && f.threads[t].WakeOr?)
                || f'.word == f.word - waits)
            && (f.threads[t].WakeOr? ==> f' == f || f'.word == f.word + wakes)
            && (f'.threads[t].WakeOr? ==> f.threads[t].WakeOr?)
            && (Waiting(f'.threads[t]) ==> Waiting(f.threads[t]) && waits * f'.word == waits * f.word)
            && (f'.threads[o] == f.threads[o] || (f.threads[o].Asleep? && f'.threads[o] == F.Woken(f.threads[o].mask)))
  {
    assert waits * (f.word - waits) == {} && waits * f.word == f.word * waits;
    assert (f.word * waits) * waits == f.word * waits;
  }

  // ----- every step keeps the invariant -----

  /** The writer stays as it is while the reader moves: only what it waits for may come closer. */
  lemma ReaderMoved<T>(s: State<T>, s': State<T>)
    requires 0 in s.q.readers && 0 in s'.q.readers && s.f.threads.Keys == s'.f.threads.Keys == {WRITER, READER}
    requires WriterSide(s)
    requires s'.q.writer == s.q.writer && s'.writeArg == s.writeArg && s'.q.cfg == s.q.cfg
    requires s'.readMask == s.readMask && s'.writeMask == s.writeMask
    requires || s'.f.threads[WRITER] == s.f.threads[WRITER]
             || (s.f.threads[WRITER].Asleep? && s'.f.threads[WRITER] == F.Woken(s.f.threads[WRITER].mask))
    requires var owed, owes := ReaderOwes(s.q.readers[0].pc, s.f.threads[READER]),
                               ReaderOwes(s'.q.readers[0].pc, s'.f.threads[READER]);
             && (Free(s') <= Free(s) || owes)
             && (s.readMask * s'.f.word == s.readMask * s.f.word || s.readMask * s'.f.word != {})
             && (owed ==> owes || s.readMask * s'.f.word != {})
    ensures WriterSide(s')
  {
  }

  /** The reader stays as it is while the writer moves. */
  lemma WriterMoved<T>(s: State<T>, s': State<T>)
    requires 0 in s.q.readers && 0 in s'.q.readers && s.f.threads.Keys == s'.f.threads.Keys == {WRITER, READER}
    requires ReaderSide(s)
    requires s'.q.readers[0] == s.q.readers[0] && s'.readArg == s.readArg
    requires s'.readMask == s.readMask && s'.writeMask == s.writeMask
    requires || s'.f.threads[READER] == s.f.threads[READER]
             || (s.f.threads[READER].Asleep? && s'.f.threads[READER] == F.Woken(s.f.threads[READER].mask))
    requires var owed, owes := WriterOwes(s.q.writer, s.f.threads[WRITER]),
                               WriterOwes(s'.q.writer, s'.f.threads[WRITER]);
             && (Available(s') <= Available(s) || owes)
             && (s.writeMask * s'.f.word == s.writeMask * s.f.word || s.writeMask * s'.f.word != {})
             && (owed ==> owes || s.writeMask * s'.f.word != {})
    ensures ReaderSide(s')
  {
  }

  /** A moving reader keeps its side: it is stuck only for lack of messages. */
  lemma ReaderOkMoves<T>(rd: Q.Reader<T>, rd': Q.Reader<T>, flag: F.Pc, arg: Option<nat>, total: nat,
                         word: F.Bits, waits: F.Bits, wakes: F.Bits, peerOwes: bool)
    requires ReaderOk(rd, flag, arg, total - rd.position, word, waits, wakes, peerOwes) && ReaderMoves(rd, rd', total)
    ensures ReaderOk(rd', flag, arg, total - rd'.position, word, waits, wakes, peerOwes)
    ensures ReaderOwes(rd.pc, flag) ==> ReaderOwes(rd'.pc, flag)
  {
  }

  /** A moving writer keeps its side: it is stuck only for lack of room. */
  lemma WriterOkMoves<T>(q: Q.State<T>, q': Q.State<T>, flag: F.Pc, arg: Option<seq<T>>, free: int, free': int,
                         word: F.Bits, waits: F.Bits, wakes: F.Bits, peerOwes: bool)
    requires 0 in q.readers && free == q.cfg.capacity - (|q.written| - q.readers[0].position)
    requires WriterOk(q.writer, flag, arg, q.cfg.capacity, free, word, waits, wakes, peerOwes) && WriterMoves(q, q')
    requires free' == q.cfg.capacity - (|q'.written| - q.readers[0].position)
    ensures WriterOk(q'.writer, flag, arg, q.cfg.capacity, free', word, waits, wakes, peerOwes)
    ensures WriterOwes(q.writer, flag) ==> WriterOwes(q'.writer, flag)
  {
  }

  lemma QueueSteps<T>(s: State<T>, w: Q.WriterAct<T>, r: Q.ReaderAct)
    requires Running(s)
    requires (w.WStep? || w.WCopy?) && (r.RStep? || r.RCopy?)
    ensures Next(s, WriterQueue(w)) == s.(q := Q.WriterNext(s.q, w)) && Q.Next(s.q, Q.Write(w)) == Q.WriterNext(s.q, w)
    ensures var q' := s.q.(readers := s.q.readers[0 := Q.ReaderNext(s.q, s.q.readers[0], r)]);
            Next(s, ReaderQueue(r)) == s.(q := q') && Q.Next(s.q, Q.Read(0, r)) == q'
  {
    hide Q.WriterNext, Q.ReaderNext;
  }

  lemma WriterQueueKeeps<T>(s: State<T>, act: Q.WriterAct<T>)
    requires Inv(s) && (act.WStep? || act.WCopy?)
    ensures Inv(Next(s, WriterQueue(act)))
  {
    hide Sync.SyncInv, F.NoneLost, Q.WriterNext, Next, Q.Next, WriterOk, ReaderOk;
    var s' := Next(s, WriterQueue(act));
    QueueSteps(s, act, Q.RStep);
    Sync.StepSync(s.q, Q.Write(act));
    WriterProgress(s.q, act);
    WriterOkMoves(s.q, s'.q, s.f.threads[WRITER], s.writeArg, Free(s), Free(s'), s.f.word, s.readMask, s.writeMask,
                  ReaderOwes(s.q.readers[0].pc, s.f.threads[READER]));
    WriterMoved(s, s');
  }

  lemma ReaderQueueKeeps<T>(s: State<T>, act: Q.ReaderAct)
    requires Inv(s) && (act.RStep? || act.RCopy?)
    ensures Inv(Next(s, ReaderQueue(act)))
  {
    hide Sync.SyncInv, F.NoneLost, Q.ReaderNext, Next, Q.Next, WriterOk, ReaderOk;
    var s' := Next(s, ReaderQueue(act));
    var rd, rd' := s.q.readers[0], Q.ReaderNext(s.q, s.q.readers[0], act);
    QueueSteps(s, Q.WStep, act);
    Sync.StepSync(s.q, Q.Read(0, act));
    ReaderProgress(s.q, act);
    ReaderOkMoves(rd, rd', s.f.threads[READER], s.readArg, |s.q.written|, s.f.word, s.writeMask, s.readMask,
                  WriterOwes(s.q.writer, s.f.threads[WRITER]));
    ReaderMoved(s, s');
  }

  /** Bits the other side waits for survive this side's clearing, and appear with this side's wake. */
  lemma OtherBitsKept(word: F.Bits, mine: F.Bits, others: F.Bits)
    requires mine * others == {} && others != {}
    ensures others * (word - mine) == others * word
    ensures others * (word + others) != {}
  {
    forall b | b in others
      ensures b !in mine
    {
      assert b !in mine * others;
    }
    var b :| b in others;
    assert b in others * (word + others);
  }

  /** A thread outside the flag takes no step in it. */
  lemma OutsideFlag<T>(s: State<T>, act: F.Act)
    requires Running(s) && InFlag(act)
    ensures s.f.threads[WRITER].Outside? ==> Next(s, WriterFlag(act)) == s
    ensures s.f.threads[READER].Outside? ==> Next(s, ReaderFlag(act)) == s
  {
  }

  lemma FlagSteps<T>(s: State<T>, act: F.Act)
    requires Running(s) && InFlag(act)
    ensures Next(s, WriterFlag(act)) == s.(f := F.Next(s.f, F.Action(WRITER, act)))
    ensures Next(s, ReaderFlag(act)) == s.(f := F.Next(s.f, F.Action(READER, act)))
  {
    hide F.Next;
  }

  lemma WriterFlagKeeps<T>(s: State<T>, act: F.Act)
    requires Inv(s) && InFlag(act)
    ensures Inv(Next(s, WriterFlag(act)))
  {
    hide Next, Sync.SyncInv, F.NoneLost, F.Next, WriterSide, ReaderSide;
    FlagSteps(s, act);
    if s.f.threads[WRITER].Outside? {
      OutsideFlag(s, act);
    } else {
      F.StepNoneLost(s.f, F.Action(WRITER, act));
      WriterFlagSides(s, act);
    }
  }

  lemma ReaderFlagKeeps<T>(s: State<T>, act: F.Act)
    requires Inv(s) && InFlag(act)
    ensures Inv(Next(s, ReaderFlag(act)))
  {
    hide Next, Sync.SyncInv, F.NoneLost, F.Next, WriterSide, ReaderSide;
    FlagSteps(s, act);
    if s.f.threads[READER].Outside? {
      OutsideFlag(s, act);
    } else {
      F.StepNoneLost(s.f, F.Action(READER, act));
      ReaderFlagSides(s, act);
    }
  }

  /** Both sides, when the writer takes a step inside the flag. */
  lemma WriterFlagSides<T>(s: State<T>, act: F.Act)
    requires Inv(s) && InFlag(act) && !s.f.threads[WRITER].Outside?
    ensures var s' := Next(s, WriterFlag(act));
            s'.f.threads.Keys == {WRITER, READER} && Running(s') && WriterSide(s') && ReaderSide(s')
  {
    var s' := Next(s, WriterFlag(act));
    hide Sync.SyncInv, F.NoneLost, F.Next, ReaderOk;
    OtherBitsKept(s.f.word, s.readMask, s.writeMask);
    FlagProgress(s.f, WRITER, READER, act, s.readMask, s.writeMask);
    WriterMoved(s, s');
  }

  lemma ReaderFlagSides<T>(s: State<T>, act: F.Act)
    requires Inv(s) && InFlag(act) && !s.f.threads[READER].Outside?
    ensures var s' := Next(s, ReaderFlag(act));
            s'.f.threads.Keys == {WRITER, READER} && Running(s') && WriterSide(s') && ReaderSide(s')
  {
    var s' := Next(s, ReaderFlag(act));
    hide Sync.SyncInv, F.NoneLost, F.Next, WriterOk;
    OtherBitsKept(s.f.word, s.writeMask, s.readMask);
    FlagProgress(s.f, READER, WRITER, act, s.writeMask, s.readMask);
    ReaderMoved(s, s');
  }

  /** A call into the flag or out of it moves only the thread's own pc. */
  lemma FlagEdge(f: F.State, t: nat, o: nat, act: F.Act)
    requires F.NoneLost(f) && f.threads.Keys == {t, o} && t != o && (act.StartWake? || act.StartWait? || act.Return?)
    ensures var f' := F.Next(f, F.Action(t, act));
            && F.NoneLost(f') && f'.word == f.word
            && f'.threads.Keys == {t, o} && f'.threads[o] == f.threads[o]
            && (f.threads[t].Outside? && act.StartWake? && act.mask != {} ==> f'.threads[t] == F.WakeOr(act.mask))
            && (f.threads[t].Outside? && act.StartWait? && act.mask != {} ==> f'.threads[t] == F.Clear(act.mask))
            && ((f.threads[t].WakeDone? || f.threads[t].WaitDone?) && act.Return? ==> f'.threads[t] == F.Outside)
  {
    F.StepNoneLost(f, F.Action(t, act));
    hide F.NoneLost;
  }

  /** Entering wake() after success, or wait() after a refusal, keeps the writer's side. */
  lemma WriterOkEnters<T>(pc: Q.WriterPc<T>, arg: Option<seq<T>>, cap: nat, free: int,
                          word: F.Bits, waits: F.Bits, wakes: F.Bits, peerOwes: bool)
    requires pc.WDone? && arg.Some? && WriterOk(pc, F.Outside, arg, cap, free, word, waits, wakes, peerOwes)
    ensures WriterOk(Q.WIdle, if pc.ok then F.WakeOr(wakes) else F.Clear(waits), arg, cap, free,
                     word, waits, wakes, peerOwes)
  {
  }

  lemma ReaderOkEnters<T>(rd: Q.Reader<T>, arg: Option<nat>, available: int,
                          word: F.Bits, waits: F.Bits, wakes: F.Bits, peerOwes: bool)
    requires rd.pc.RDone? && arg.Some? && ReaderOk(rd, F.Outside, arg, available, word, waits, wakes, peerOwes)
    ensures ReaderOk(rd.(pc := Q.RIdle), if rd.pc.ok then F.WakeOr(wakes) else F.Clear(waits), arg, available,
                     word, waits, wakes, peerOwes)
  {
  }

  /** What the writer does when write() has returned. */
  lemma WriterReturnStep<T>(s: State<T>, act: F.Act)
    requires Running(s) && s.writeArg.Some? && s.q.writer.WDone? && (s.q.writer.ok || !s.writeLast)
    requires act == if s.q.writer.ok then F.StartWake(s.writeMask) else F.StartWait(s.readMask)
    ensures Next(s, WriterTurn) == s.(q := s.q.(writer := Q.WIdle), f := F.Next(s.f, F.Action(WRITER, act)))
    ensures Q.Next(s.q, Q.Write(Q.WReturn)) == s.q.(writer := Q.WIdle)
  {
    hide F.Next;
  }

  /** What it does when wake() or wait() has returned: the call ends, or write() is tried again. */
  lemma WriterResumeStep<T>(s: State<T>, again: bool)
    requires Running(s) && s.writeArg.Some? && s.q.writer.WIdle?
    requires s.f.threads[WRITER].WakeDone? || s.f.threads[WRITER].WaitDone?
    requires UsesMasks(s.f.threads[WRITER], s.readMask, s.writeMask)
    requires again == (s.f.threads[WRITER].WaitDone? && s.f.threads[WRITER].status.NoError?)
    ensures Next(s, WriterTurn) ==
            s.(f := F.Next(s.f, F.Action(WRITER, F.Return)),
               q := if again then s.q.(writer := Q.WBegin(s.writeArg.value)) else s.q,
               writeArg := if again then s.writeArg else None)
    ensures Q.Next(s.q, Q.Write(Q.WStart(s.writeArg.value))) == s.q.(writer := Q.WBegin(s.writeArg.value))
  {
    hide F.Next;
  }

  lemma ReaderReturnStep<T>(s: State<T>, act: F.Act)
    requires Running(s) && s.readArg.Some? && s.q.readers[0].pc.RDone? && (s.q.readers[0].pc.ok || !s.readLast)
    requires act == if s.q.readers[0].pc.ok then F.StartWake(s.readMask) else F.StartWait(s.writeMask)
    ensures var q' := s.q.(readers := s.q.readers[0 := s.q.readers[0].(pc := Q.RIdle)]);
            && Next(s, ReaderTurn) == s.(q := q', f := F.Next(s.f, F.Action(READER, act)))
            && Q.Next(s.q, Q.Read(0, Q.RReturn)) == q'
  {
    hide F.Next;
  }

  lemma ReaderResumeStep<T>(s: State<T>, again: bool)
    requires Running(s) && s.readArg.Some? && s.q.readers[0].pc.RIdle?
    requires s.f.threads[READER].WakeDone? || s.f.threads[READER].WaitDone?
    requires UsesMasks(s.f.threads[READER], s.writeMask, s.readMask)
    requires again == (s.f.threads[READER].WaitDone? && s.f.threads[READER].status.NoError?)
    ensures var q' := s.q.(readers := s.q.readers[0 := s.q.readers[0].(pc := Q.RBegin(s.readArg.value))]);
            && Next(s, ReaderTurn) ==
               s.(f := F.Next(s.f, F.Action(READER, F.Return)), q := if again then q' else s.q,
                  readArg := if again then s.readArg else None)
            && Q.Next(s.q, Q.Read(0, Q.RStart(s.readArg.value))) == q'
  {
    hide F.Next;
  }

  lemma WriterReturns<T>(s: State<T>)
    requires Inv(s) && s.writeArg.Some? && s.q.writer.WDone? && (s.q.writer.ok || !s.writeLast)
    ensures Inv(Next(s, WriterTurn))
  {
    hide Sync.SyncInv, F.NoneLost, F.Next, Next, Q.Next, Q.WriterNext, ReaderOk;
    var act := if s.q.writer.ok then F.StartWake(s.writeMask) else F.StartWait(s.readMask);
    WriterReturnStep(s, act);
    Sync.StepSync(s.q, Q.Write(Q.WReturn));
    FlagEdge(s.f, WRITER, READER, act);
    assert s.f.threads[WRITER].Outside?;
    hide WriterOk;
    WriterOkEnters(s.q.writer, s.writeArg, s.q.cfg.capacity, Free(s), s.f.word, s.readMask, s.writeMask,
                   ReaderOwes(s.q.readers[0].pc, s.f.threads[READER]));
    WriterMoved(s, Next(s, WriterTurn));
  }

  lemma WriterResumes<T>(s: State<T>)
    requires Inv(s) && s.writeArg.Some? && s.q.writer.WIdle?
    requires s.f.threads[WRITER].WakeDone? || s.f.threads[WRITER].WaitDone?
    ensures Inv(Next(s, WriterTurn))
  {
    hide Sync.SyncInv, F.NoneLost, F.Next, Next, Q.Next, Q.WriterNext, ReaderOk;
    WriterResumeStep(s, s.f.threads[WRITER].WaitDone? && s.f.threads[WRITER].status.NoError?);
    Sync.StepSync(s.q, Q.Write(Q.WStart(s.writeArg.value)));
    FlagEdge(s.f, WRITER, READER, F.Return);
    WriterMoved(s, Next(s, WriterTurn));
  }

  lemma ReaderReturns<T>(s: State<T>)
    requires Inv(s) && s.readArg.Some? && s.q.readers[0].pc.RDone? && (s.q.readers[0].pc.ok || !s.readLast)
    ensures Inv(Next(s, ReaderTurn))
  {
    hide Sync.SyncInv, F.NoneLost, F.Next, Next, Q.Next, Q.ReaderNext, WriterOk;
    var rd := s.q.readers[0];
    var act := if rd.pc.ok then F.StartWake(s.readMask) else F.StartWait(s.writeMask);
    ReaderReturnStep(s, act);
    Sync.StepSync(s.q, Q.Read(0, Q.RReturn));
    FlagEdge(s.f, READER, WRITER, act);
    assert s.f.threads[READER].Outside?;
    hide ReaderOk;
    ReaderOkEnters(rd, s.readArg, Available(s), s.f.word, s.writeMask, s.readMask,
                   WriterOwes(s.q.writer, s.f.threads[WRITER]));
    ReaderMoved(s, Next(s, ReaderTurn));
  }

  lemma ReaderResumes<T>(s: State<T>)
    requires Inv(s) && s.readArg.Some? && s.q.readers[0].pc.RIdle?
    requires s.f.threads[READER].WakeDone? || s.f.threads[READER].WaitDone?
    ensures Inv(Next(s, ReaderTurn))
  {
    hide Sync.SyncInv, F.NoneLost, F.Next, Next, Q.Next, Q.ReaderNext, WriterOk;
    ReaderResumeStep(s, s.f.threads[READER].WaitDone? && s.f.threads[READER].status.NoError?);
    Sync.StepSync(s.q, Q.Read(0, Q.RStart(s.readArg.value)));
    FlagEdge(s.f, READER, WRITER, F.Return);
    ReaderMoved(s, Next(s, ReaderTurn));
  }

  /** What the writer does when its time is used up: a last attempt, and the end of the call if that is refused. */
  lemma WriterLastSteps<T>(s: State<T>)
    requires Running(s) && s.writeArg.Some? && s.q.writer == Q.WDone(false)
    ensures var idle := s.q.(writer := Q.WIdle);
            && Q.Next(s.q, Q.Write(Q.WReturn)) == idle
            && Q.Next(idle, Q.Write(Q.WStart(s.writeArg.value))) == s.q.(writer := Q.WBegin(s.writeArg.value))
            && (s.writeLast ==> Next(s, WriterTurn) == s.(q := idle, writeArg := None))
            && (!s.writeLast ==>
                  Next(s, WriterExpires) == s.(q := s.q.(writer := Q.WBegin(s.writeArg.value)), writeLast := true))
  {
    hide F.Next;
  }

  lemma WriterGivesUp<T>(s: State<T>)
    requires Inv(s) && s.writeArg.Some? && s.q.writer == Q.WDone(false) && s.writeLast
    ensures Inv(Next(s, WriterTurn))
  {
    hide Sync.SyncInv, F.NoneLost, Next, Q.Next, ReaderOk;
    WriterLastSteps(s);
    Sync.StepSync(s.q, Q.Write(Q.WReturn));
    WriterMoved(s, Next(s, WriterTurn));
  }

  lemma WriterLastKeeps<T>(s: State<T>)
    requires Inv(s) && s.writeArg.Some? && s.q.writer == Q.WDone(false) && !s.writeLast
    ensures Inv(Next(s, WriterExpires))
  {
    hide Sync.SyncInv, F.NoneLost, Next, Q.Next, ReaderOk;
    WriterLastSteps(s);
    Sync.StepSync(s.q, Q.Write(Q.WReturn));
    Sync.StepSync(s.q.(writer := Q.WIdle), Q.Write(Q.WStart(s.writeArg.value)));
    WriterMoved(s, Next(s, WriterExpires));
  }

  lemma ReaderLastSteps<T>(s: State<T>)
    requires Running(s) && s.readArg.Some? && s.q.readers[0].pc.RDone? && !s.q.readers[0].pc.ok
    ensures var rd := s.q.readers[0];
            var idle := s.q.(readers := s.q.readers[0 := rd.(pc := Q.RIdle)]);
            var asking := s.q.(readers := s.q.readers[0 := rd.(pc := Q.RBegin(s.readArg.value))]);
            && Q.Next(s.q, Q.Read(0, Q.RReturn)) == idle
            && Q.Next(idle, Q.Read(0, Q.RStart(s.readArg.value))) == asking
            && (s.readLast ==> Next(s, ReaderTurn) == s.(q := idle, readArg := None))
            && (!s.readLast ==> Next(s, ReaderExpires) == s.(q := asking, readLast := true))
  {
    hide F.Next;
    var rd := s.q.readers[0];
    assert s.q.readers[0 := rd.(pc := Q.RIdle)][0 := rd.(pc := Q.RBegin(s.readArg.value))] ==
           s.q.readers[0 := rd.(pc := Q.RBegin(s.readArg.value))];
  }

  lemma ReaderGivesUp<T>(s: State<T>)
    requires Inv(s) && s.readArg.Some? && s.q.readers[0].pc.RDone? && !s.q.readers[0].pc.ok && s.readLast
    ensures Inv(Next(s, ReaderTurn))
  {
    hide Sync.SyncInv, F.NoneLost, Next, Q.Next, WriterOk;
    ReaderLastSteps(s);
    Sync.StepSync(s.q, Q.Read(0, Q.RReturn));
    ReaderMoved(s, Next(s, ReaderTurn));
  }

  lemma ReaderLastKeeps<T>(s: State<T>)
    requires Inv(s) && s.readArg.Some? && s.q.readers[0].pc.RDone? && !s.q.readers[0].pc.ok && !s.readLast
    ensures Inv(Next(s, ReaderExpires))
  {
    hide Sync.SyncInv, F.NoneLost, Next, Q.Next, WriterOk;
    ReaderLastSteps(s);
    Sync.StepSync(s.q, Q.Read(0, Q.RReturn));
    Sync.StepSync(Q.Next(s.q, Q.Read(0, Q.RReturn)), Q.Read(0, Q.RStart(s.readArg.value)));
    ReaderMoved(s, Next(s, ReaderExpires));
  }

  /** What entering writeBlocking and readBlocking does. */
  lemma CallSteps<T>(s: State<T>, data: seq<T>, n: nat)
    requires Running(s)
    ensures s.writeArg.None? && |data| <= s.q.cfg.capacity && s.q.writer.WIdle? ==>
              && Next(s, CallWrite(data)) ==
                  s.(writeArg := Some(data), q := s.q.(writer := Q.WBegin(data)), writeLast := false)
              && Q.Next(s.q, Q.Write(Q.WStart(data))) == s.q.(writer := Q.WBegin(data))
    ensures !(s.writeArg.None? && |data| <= s.q.cfg.capacity) ==> Next(s, CallWrite(data)) == s
    ensures s.readArg.None? && n <= s.q.cfg.capacity && s.q.readers[0].pc.RIdle? ==>
              var q' := s.q.(readers := s.q.readers[0 := s.q.readers[0].(pc := Q.RBegin(n))]);
              && Next(s, CallRead(n)) == s.(readArg := Some(n), q := q', readLast := false)
              && Q.Next(s.q, Q.Read(0, Q.RStart(n))) == q'
    ensures !(s.readArg.None? && n <= s.q.cfg.capacity) ==> Next(s, CallRead(n)) == s
  {
  }

  lemma CallWriteKeeps<T>(s: State<T>, data: seq<T>)
    requires Inv(s)
    ensures Inv(Next(s, CallWrite(data)))
  {
    hide Sync.SyncInv, F.NoneLost, Next, Q.Next, ReaderOk;
    CallSteps(s, data, 0);
    Sync.StepSync(s.q, Q.Write(Q.WStart(data)));
    WriterMoved(s, Next(s, CallWrite(data)));
  }

  lemma CallReadKeeps<T>(s: State<T>, n: nat)
    requires Inv(s)
    ensures Inv(Next(s, CallRead(n)))
  {
    hide Sync.SyncInv, F.NoneLost, Next, Q.Next, WriterOk;
    CallSteps(s, [], n);
    Sync.StepSync(s.q, Q.Read(0, Q.RStart(n)));
    ReaderMoved(s, Next(s, CallRead(n)));
  }

  lemma StepKeeps<T>(s: State<T>, a: Action<T>)
    requires Inv(s)
    ensures Inv(Next(s, a))
  {
    match a {
      case CallWrite(data) => CallWriteKeeps(s, data);
      case CallRead(n) => CallReadKeeps(s, n);
      case WriterQueue(act) =>
        if act.WStep? || act.WCopy? {
          WriterQueueKeeps(s, act);
        }
      case ReaderQueue(act) =>
        if act.RStep? || act.RCopy? {
          ReaderQueueKeeps(s, act);
        }
      case WriterFlag(act) =>
        if InFlag(act) {
          WriterFlagKeeps(s, act);
        }
      case ReaderFlag(act) =>
        if InFlag(act) {
          ReaderFlagKeeps(s, act);
        }
      case WriterTurn => WriterTurnKeeps(s);
      case ReaderTurn => ReaderTurnKeeps(s);
      case WriterExpires =>
        if s.writeArg.Some? && !s.writeLast && s.q.writer == Q.WDone(false) {
          WriterLastKeeps(s);
        }
      case ReaderExpires =>
        if s.readArg.Some? && !s.readLast && s.q.readers[0].pc.RDone? && !s.q.readers[0].pc.ok {
          ReaderLastKeeps(s);
        }
    }
  }

  lemma WriterTurnKeeps<T>(s: State<T>)
    requires Inv(s)
    ensures Inv(Next(s, WriterTurn))
  {
    if s.writeArg.Some? && s.q.writer == Q.WDone(false) && s.writeLast {
      WriterGivesUp(s);
    } else if s.writeArg.Some? && s.q.writer.WDone? {
      WriterReturns(s);
    } else if s.writeArg.Some? && s.q.writer.WIdle? &&
              (s.f.threads[WRITER].WakeDone? || s.f.threads[WRITER].WaitDone?) {
      WriterResumes(s);
    }
  }

  lemma ReaderTurnKeeps<T>(s: State<T>)
    requires Inv(s)
    ensures Inv(Next(s, ReaderTurn))
  {
    if s.readArg.Some? && s.q.readers[0].pc.RDone? && !s.q.readers[0].pc.ok && s.readLast {
      ReaderGivesUp(s);
    } else if s.readArg.Some? && s.q.readers[0].pc.RDone? {
      ReaderReturns(s);
    } else if s.readArg.Some? && s.q.readers[0].pc.RIdle? &&
              (s.f.threads[READER].WakeDone? || s.f.threads[READER].WaitDone?) {
      ReaderResumes(s);
    }
  }

  lemma {:induction false} RunKeeps<T>(s: State<T>, run: seq<Action<T>>)
    requires Inv(s)
    ensures Inv(Exec(s, run))
    decreases |run|
  {
    if run != [] {
      RunKeeps(s, run[..|run| - 1]);
      StepKeeps(Exec(s, run[..|run| - 1]), run[|run| - 1]);
    }
  }

  lemma InitInv<T>(cfg: Ring.Config, ring: seq<T>, word: F.Bits, readMask: F.Bits, writeMask: F.Bits)
    requires |ring| == cfg.capacity && cfg.width.Unbounded? && cfg.flavor.Synchronized?
    requires readMask != {} && writeMask != {} && readMask * writeMask == {}
    ensures Inv(Init(cfg, ring, word, readMask, writeMask))
  {
    Sync.RunSync(cfg, ring, []);
    assert F.Init(word, {WRITER, READER}).threads.Keys == {WRITER, READER};
  }

  // ----- main results -----

  /** Between its commit and the end of its wake(). */
  predicate WriterFinishing<T>(s: State<T>)
    requires WRITER in s.f.threads
  {
    WriterOwes(s.q.writer, s.f.threads[WRITER]) || s.f.threads[WRITER].WakeSys?
  }

  predicate ReaderFinishing<T>(s: State<T>)
    requires 0 in s.q.readers && READER in s.f.threads
  {
    ReaderOwes(s.q.readers[0].pc, s.f.threads[READER]) || s.f.threads[READER].WakeSys?
  }

  /** A sleeper whose notification is set has a peer that owes it a wake. */
  lemma SleeperCovered<T>(s: State<T>, t: nat, o: nat)
    requires F.NoneLost(s.f) && s.f.threads.Keys == {t, o} && s.f.threads[t].Asleep?
    ensures s.f.threads[t].mask * s.f.word != {} ==> s.f.threads[o].WakeSys?
  {
    if s.f.threads[t].mask * s.f.word != {} {
      var u :| u in s.f.threads && F.Owes(s.f.threads[u], s.f.threads[t].mask);
    }
  }

  lemma WriterNotStranded<T>(s: State<T>)
    requires Inv(s) && s.f.threads[WRITER].Asleep? && !ReaderFinishing(s)
    ensures s.writeArg.Some? && Free(s) < |s.writeArg.value|
  {
    hide Sync.SyncInv, F.NoneLost, ReaderOk;
    SleeperCovered(s, WRITER, READER);
  }

  lemma ReaderNotStranded<T>(s: State<T>)
    requires Inv(s) && s.f.threads[READER].Asleep? && !WriterFinishing(s)
    ensures s.readArg.Some? && Available(s) < s.readArg.value
  {
    hide Sync.SyncInv, F.NoneLost, WriterOk;
    SleeperCovered(s, READER, WRITER);
  }

  /**
   Unless the peer is between its commit and the end of its wake(), a sleeping writer has too little room for its call
   and a sleeping reader too few messages for its own.
   */
  ghost predicate NoneStranded<T>(s: State<T>) {
    && Running(s)
    && (s.f.threads[WRITER].Asleep? && !ReaderFinishing(s) ==>
          s.writeArg.Some? && Free(s) < |s.writeArg.value|)
    && (s.f.threads[READER].Asleep? && !WriterFinishing(s) ==>
          s.readArg.Some? && Available(s) < s.readArg.value)
  }

  /**
   No stranded sleeper, in every reachable state of any sequence of blocking calls, timed or not, with spurious wakes,
   signals and timeouts.
   */
  lemma NoStrandedSleeper<T>(cfg: Ring.Config, ring: seq<T>, word: F.Bits, readMask: F.Bits, writeMask: F.Bits,
                             run: seq<Action<T>>)
    requires |ring| == cfg.capacity && cfg.width.Unbounded? && cfg.flavor.Synchronized?
    requires readMask != {} && writeMask != {} && readMask * writeMask == {}
    ensures NoneStranded(Exec(Init(cfg, ring, word, readMask, writeMask), run))
  {
    var start := Init(cfg, ring, word, readMask, writeMask);
    var s := Exec(start, run);
    InitInv(cfg, ring, word, readMask, writeMask);
    RunKeeps(start, run);
    hide Exec, Init, Sync.SyncInv, F.NoneLost, WriterOk, ReaderOk, WriterFinishing, ReaderFinishing;
    if s.f.threads[WRITER].Asleep? && !ReaderFinishing(s) {
      WriterNotStranded(s);
    }
    if s.f.threads[READER].Asleep? && !WriterFinishing(s) {
      ReaderNotStranded(s);
    }
  }

  // ----- a sleeper is served -----

  /** The reader finishes its wake(): it enters it if it has not yet, ORs, and makes the futex call if that is owed. */
  function ReaderWakes<T>(s: State<T>): State<T>
    requires Running(s)
  {
    var entered := if s.q.readers[0].pc.RDone? then Next(s, ReaderTurn) else s;
    var ored := Next(entered, ReaderFlag(F.Step));
    if READER in ored.f.threads && ored.f.threads[READER].WakeSys? then Next(ored, ReaderFlag(F.Step)) else ored
  }

  function WriterWakes<T>(s: State<T>): State<T>
    requires Running(s)
  {
    var entered := if s.q.writer.WDone? then Next(s, WriterTurn) else s;
    var ored := Next(entered, WriterFlag(F.Step));
    if WRITER in ored.f.threads && ored.f.threads[WRITER].WakeSys? then Next(ored, WriterFlag(F.Step)) else ored
  }

  /** A wake of `mask` by t, from before its OR on, reaches o, asleep on that mask. */
  lemma WakeReachesPeer(f: F.State, t: nat, o: nat, mask: F.Bits)
    requires t in f.threads && o in f.threads && t != o && mask != {} && mask * f.word == {}
    requires f.threads[t] == F.WakeOr(mask) && f.threads[o] == F.Asleep(mask)
    ensures var ored := F.Next(f, F.Action(t, F.Step));
            var woken := F.Next(ored, F.Action(t, F.Step));
            && ored.threads.Keys == f.threads.Keys && ored.threads[t] == F.WakeSys(mask)
            && woken.threads.Keys == f.threads.Keys
            && woken.word == f.word + mask && woken.threads[o] == F.Woken(mask) && woken.threads[t] == F.WakeDone
  {
    var b :| b in mask;
    assert b !in f.word by {
      assert b in f.word ==> b in mask * f.word;
    }
    F.WakeRaises(f, t);
    F.WakeReaches(F.Next(f, F.Action(t, F.Step)), t);
    assert b in mask * mask;
    hide F.Next;
  }

  /** What the invariant says of a sleeping writer whose peer owes it a wake, and of a sleeping reader. */
  lemma AsleepWriter<T>(s: State<T>)
    requires Inv(s) && s.f.threads[WRITER].Asleep? && ReaderOwes(s.q.readers[0].pc, s.f.threads[READER])
    ensures Running(s) && s.readMask != {}
    ensures s.writeArg.Some? && s.q.writer.WIdle? && s.f.threads[WRITER] == F.Asleep(s.readMask)
    ensures s.readMask * s.f.word == {} && s.readArg.Some?
    ensures if s.q.readers[0].pc.RDone? then s.q.readers[0].pc.ok && s.f.threads[READER].Outside?
            else s.f.threads[READER] == F.WakeOr(s.readMask)
  {
    hide Sync.SyncInv, F.NoneLost;
    SleeperCovered(s, WRITER, READER);
  }

  lemma AsleepReader<T>(s: State<T>)
    requires Inv(s) && s.f.threads[READER].Asleep? && WriterOwes(s.q.writer, s.f.threads[WRITER])
    ensures Running(s) && s.writeMask != {}
    ensures s.readArg.Some? && s.q.readers[0].pc.RIdle? && s.f.threads[READER] == F.Asleep(s.writeMask)
    ensures s.writeMask * s.f.word == {} && s.writeArg.Some?
    ensures if s.q.writer.WDone? then s.q.writer.ok && s.f.threads[WRITER].Outside?
            else s.f.threads[WRITER] == F.WakeOr(s.writeMask)
  {
    hide Sync.SyncInv, F.NoneLost;
    SleeperCovered(s, READER, WRITER);
  }

  lemma EntersWake(f: F.State, t: nat, mask: F.Bits)
    requires t in f.threads && f.threads[t].Outside? && mask != {}
    ensures F.Next(f, F.Action(t, F.StartWake(mask))) == F.At(f, t, F.WakeOr(mask))
  {
  }

  lemma ReturnsOutside(f: F.State, t: nat)
    requires t in f.threads && f.threads[t].WaitDone?
    ensures var f' := F.Next(f, F.Action(t, F.Return));
            f'.threads == f.threads[t := F.Outside] && f'.word == f.word
  {
  }

  /** A woken peer whose mask meets the word returns from its wait() and tries again. */
  lemma WriterTries<T>(s: State<T>)
    requires Running(s) && s.writeArg.Some? && s.q.writer.WIdle? && s.f.threads[WRITER] == F.Woken(s.readMask)
    requires s.readMask * s.f.word != {}
    ensures var trying := Next(Next(s, WriterFlag(F.Step)), WriterTurn);
            && Running(trying) && trying.writeArg == s.writeArg && trying.q.writer == Q.WBegin(s.writeArg.value)
            && trying.f.threads[WRITER] == F.Outside && trying.f.word == s.f.word - s.readMask
            && trying.q.written == s.q.written && trying.q.readers == s.q.readers
  {
    hide Next, F.Next;
    FlagSteps(s, F.Step);
    F.WaitTakes(s.f, WRITER);
    assert s.readMask * s.f.word * s.readMask == s.readMask * s.f.word;
    WriterResumeStep(Next(s, WriterFlag(F.Step)), true);
    ReturnsOutside(Next(s, WriterFlag(F.Step)).f, WRITER);
  }

  lemma ReaderTries<T>(s: State<T>)
    requires Running(s) && s.readArg.Some? && s.q.readers[0].pc.RIdle? && s.f.threads[READER] == F.Woken(s.writeMask)
    requires s.writeMask * s.f.word != {}
    ensures var trying := Next(Next(s, ReaderFlag(F.Step)), ReaderTurn);
            && Running(trying) && trying.readArg == s.readArg && trying.q.readers[0].pc == Q.RBegin(s.readArg.value)
            && trying.f.threads[READER] == F.Outside && trying.f.word == s.f.word - s.writeMask
            && trying.q.written == s.q.written && trying.q.readers[0].position == s.q.readers[0].position
  {
    hide Next, F.Next;
    FlagSteps(s, F.Step);
    F.WaitTakes(s.f, READER);
    assert s.writeMask * s.f.word * s.writeMask == s.writeMask * s.f.word;
    ReaderResumeStep(Next(s, ReaderFlag(F.Step)), true);
    ReturnsOutside(Next(s, ReaderFlag(F.Step)).f, READER);
  }

  /** The reader's wake() reaches a sleeping writer. */
  lemma ReaderWakeLands<T>(s: State<T>)
    requires Inv(s) && s.f.threads[WRITER].Asleep? && ReaderOwes(s.q.readers[0].pc, s.f.threads[READER])
    ensures var woken := ReaderWakes(s);
            && woken == s.(q := woken.q, f := woken.f)
            && Running(woken) && woken.f.threads[WRITER] == F.Woken(s.readMask)
            && woken.f.word == s.f.word + s.readMask
            && woken.q.writer == s.q.writer
            && woken.q.written == s.q.written && woken.q.readers[0].position == s.q.readers[0].position
  {
    hide Inv;
    AsleepWriter(s);
    var entered := if s.q.readers[0].pc.RDone? then Next(s, ReaderTurn) else s;
    if s.q.readers[0].pc.RDone? {
      ReaderReturnStep(s, F.StartWake(s.readMask));
    }
    hide Next, F.Next;
    if s.q.readers[0].pc.RDone? {
      EntersWake(s.f, READER, s.readMask);
    }
    WakeReachesPeer(entered.f, READER, WRITER, s.readMask);
    FlagSteps(entered, F.Step);
    FlagSteps(Next(entered, ReaderFlag(F.Step)), F.Step);
  }

  /**
   A sleeping writer whose peer has read and not yet set the flag: once the peer has finished its wake(), the writer is
   awake, its wait() succeeds, and it tries its write again.
   */
  lemma WriterServed<T>(s: State<T>)
    requires Inv(s) && s.f.threads[WRITER].Asleep? && ReaderOwes(s.q.readers[0].pc, s.f.threads[READER])
    ensures var trying := Next(Next(ReaderWakes(s), WriterFlag(F.Step)), WriterTurn);
            && Running(trying) && s.writeArg.Some? && trying.writeArg == s.writeArg
            && trying.q.writer == Q.WBegin(s.writeArg.value) && trying.f.threads[WRITER] == F.Outside
            && trying.f.word == s.f.word - s.readMask
            && trying.q.written == s.q.written && trying.q.readers[0].position == s.q.readers[0].position
  {
    hide Inv, Next, ReaderWakes;
    AsleepWriter(s);
    ReaderWakeLands(s);
    var woken := ReaderWakes(s);
    assert s.readMask * woken.f.word == s.readMask;
    WriterTries(woken);
  }

  /** The writer's wake() reaches a sleeping reader. */
  lemma WriterWakeLands<T>(s: State<T>)
    requires Inv(s) && s.f.threads[READER].Asleep? && WriterOwes(s.q.writer, s.f.threads[WRITER])
    ensures var woken := WriterWakes(s);
            && woken == s.(q := woken.q, f := woken.f)
            && Running(woken) && woken.f.threads[READER] == F.Woken(s.writeMask)
            && woken.f.word == s.f.word + s.writeMask
            && woken.q.readers == s.q.readers
            && woken.q.written == s.q.written && woken.q.readers[0].position == s.q.readers[0].position
  {
    hide Inv;
    AsleepReader(s);
    var entered := if s.q.writer.WDone? then Next(s, WriterTurn) else s;
    if s.q.writer.WDone? {
      WriterReturnStep(s, F.StartWake(s.writeMask));
    }
    hide Next, F.Next;
    if s.q.writer.WDone? {
      EntersWake(s.f, WRITER, s.writeMask);
    }
    WakeReachesPeer(entered.f, WRITER, READER, s.writeMask);
    FlagSteps(entered, F.Step);
    FlagSteps(Next(entered, WriterFlag(F.Step)), F.Step);
  }

  /** And a sleeping reader whose peer has written, likewise. */
  lemma ReaderServed<T>(s: State<T>)
    requires Inv(s) && s.f.threads[READER].Asleep? && WriterOwes(s.q.writer, s.f.threads[WRITER])
    ensures var trying := Next(Next(WriterWakes(s), ReaderFlag(F.Step)), ReaderTurn);
            && Running(trying) && s.readArg.Some? && trying.readArg == s.readArg
            && trying.q.readers[0].pc == Q.RBegin(s.readArg.value) && trying.f.threads[READER] == F.Outside
            && trying.f.word == s.f.word - s.writeMask
            && trying.q.written == s.q.written && trying.q.readers[0].position == s.q.readers[0].position
  {
    hide Inv, Next, WriterWakes;
    AsleepReader(s);
    WriterWakeLands(s);
    var woken := WriterWakes(s);
    assert s.writeMask * woken.f.word == s.writeMask;
    ReaderTries(woken);
  }

  /** How a wait() ends without a notification: its time is up, or the futex call fails. */
  predicate WaitFails(pc: F.Pc, act: F.Act) {
    || (act.Expire? && (pc.Clear? || pc.Asleep? || pc.Failed?))
    || (act.KernelError? && pc.Compare?)
  }

  lemma FailsOutside(f: F.State, t: nat, act: F.Act)
    requires t in f.threads && WaitFails(f.threads[t], act)
    ensures var f' := F.Next(f, F.Action(t, act));
            && t in f'.threads && f'.threads[t].WaitDone? && !f'.threads[t].status.NoError?
            && f'.threads == f.threads[t := f'.threads[t]] && f'.word == f.word
  {
  }

  /** Then the call ends, having written or read nothing more; the peer and the word are as they were. */
  lemma WriterFailedWaitEnds<T>(s: State<T>, act: F.Act)
    requires Running(s) && s.writeArg.Some? && s.q.writer.WIdle? && WaitFails(s.f.threads[WRITER], act)
    ensures var out := Next(Next(s, WriterFlag(act)), WriterTurn);
            && Running(out) && out.writeArg == None && out.q == s.q && out.f.word == s.f.word
            && out.f.threads[WRITER] == F.Outside && out.f.threads[READER] == s.f.threads[READER]
  {
    hide Next, F.Next;
    FlagSteps(s, act);
    FailsOutside(s.f, WRITER, act);
    WriterResumeStep(Next(s, WriterFlag(act)), false);
    ReturnsOutside(Next(s, WriterFlag(act)).f, WRITER);
  }

  lemma ReaderFailedWaitEnds<T>(s: State<T>, act: F.Act)
    requires Running(s) && s.readArg.Some? && s.q.readers[0].pc.RIdle? && WaitFails(s.f.threads[READER], act)
    ensures var out := Next(Next(s, ReaderFlag(act)), ReaderTurn);
            && Running(out) && out.readArg == None && out.q == s.q && out.f.word == s.f.word
            && out.f.threads[READER] == F.Outside && out.f.threads[WRITER] == s.f.threads[WRITER]
  {
    hide Next, F.Next;
    FlagSteps(s, act);
    FailsOutside(s.f, READER, act);
    ReaderResumeStep(Next(s, ReaderFlag(act)), false);
    ReturnsOutside(Next(s, ReaderFlag(act)).f, READER);
  }

  // ----- mutual deadlock -----

  ghost predicate BothAsleep<T>(s: State<T>, nw: nat, nr: nat) {
    && Running(s) && s.f.threads[WRITER].Asleep? && s.f.threads[READER].Asleep?
    && s.writeArg.Some? && |s.writeArg.value| == nw && s.readArg == Some(nr)
  }

  /** A reader's step leaves the writer and what it has written alone. */
  lemma ReaderFrame<T>(q: Q.State<T>, act: Q.ReaderAct)
    ensures var q' := Q.Next(q, Q.Read(0, act));
            q'.cfg == q.cfg && q'.writer == q.writer && q'.written == q.written && Q.High(q') == Q.High(q)
  {
    hide Q.ReaderNext;
  }

  /** The writer's turn moves the queue by steps of write(), if at all. */
  lemma WriterTurnGrows<T>(s: State<T>)
    requires Running(s) && s.writeArg.Some?
    ensures var q' := WriterTurnNext(s).q; q'.cfg == s.q.cfg && Q.High(s.q) <= Q.High(q')
  {
    hide Q.WriterNext, Q.High, F.Next;
    Q.WriterFrame(s.q, Q.WReturn);
    Q.WriterFrame(s.q, Q.WStart(s.writeArg.value));
  }

  lemma ReaderTurnGrows<T>(s: State<T>)
    requires Running(s) && s.readArg.Some?
    ensures var q' := ReaderTurnNext(s).q; q'.cfg == s.q.cfg && Q.High(s.q) <= Q.High(q')
  {
    hide Q.Next, Q.High, F.Next;
    ReaderFrame(s.q, Q.RReturn);
    ReaderFrame(s.q, Q.RStart(s.readArg.value));
  }

  lemma WriterLastGrows<T>(s: State<T>)
    requires s.writeArg.Some?
    ensures var q' := WriterLast(s).q; q'.cfg == s.q.cfg && Q.High(s.q) <= Q.High(q')
  {
    hide Q.WriterNext, Q.High;
    Q.WriterFrame(s.q, Q.WReturn);
    Q.WriterFrame(Q.WriterNext(s.q, Q.WReturn), Q.WStart(s.writeArg.value));
  }

  lemma ReaderLastGrows<T>(s: State<T>)
    requires s.readArg.Some?
    ensures var q' := ReaderLast(s).q; q'.cfg == s.q.cfg && Q.High(s.q) <= Q.High(q')
  {
    hide Q.Next, Q.High;
    ReaderFrame(s.q, Q.RReturn);
    ReaderFrame(Q.Next(s.q, Q.Read(0, Q.RReturn)), Q.RStart(s.readArg.value));
  }

  /** The queue keeps its configuration, and what is written or begun never shrinks. */
  lemma QueueGrows<T>(s: State<T>, a: Action<T>)
    ensures Next(s, a).q.cfg == s.q.cfg && Q.High(s.q) <= Q.High(Next(s, a).q)
  {
    hide Q.Next, Q.WriterNext, Q.High, F.Next, WriterTurnNext, ReaderTurnNext, WriterLast, ReaderLast;
    if Running(s) {
      match a {
        case CallWrite(data) => Q.WriterFrame(s.q, Q.WStart(data));
        case CallRead(n) => ReaderFrame(s.q, Q.RStart(n));
        case WriterQueue(act) => Q.WriterFrame(s.q, act);
        case ReaderQueue(act) => ReaderFrame(s.q, act);
        case WriterFlag(_) =>
        case ReaderFlag(_) =>
        case WriterTurn =>
          if s.writeArg.Some? {
            WriterTurnGrows(s);
          }
        case ReaderTurn =>
          if s.readArg.Some? {
            ReaderTurnGrows(s);
          }
        case WriterExpires =>
          if s.writeArg.Some? {
            WriterLastGrows(s);
          }
        case ReaderExpires =>
          if s.readArg.Some? {
            ReaderLastGrows(s);
          }
      }
    }
  }

  lemma {:induction false} CfgKept<T>(s: State<T>, run: seq<Action<T>>)
    ensures Exec(s, run).q.cfg == s.q.cfg
    decreases |run|
  {
    if run != [] {
      hide Next;
      CfgKept(s, run[..|run| - 1]);
      QueueGrows(Exec(s, run[..|run| - 1]), run[|run| - 1]);
    }
  }

  /**
   No mutual deadlock: both peers are never asleep together when what they want fits in one more than the capacity.
   */
  lemma NoMutualSleep<T>(cfg: Ring.Config, ring: seq<T>, word: F.Bits, readMask: F.Bits, writeMask: F.Bits,
                         run: seq<Action<T>>, nw: nat, nr: nat)
    requires |ring| == cfg.capacity && cfg.width.Unbounded? && cfg.flavor.Synchronized?
    requires readMask != {} && writeMask != {} && readMask * writeMask == {}
    requires nw + nr <= cfg.capacity + 1
    ensures !BothAsleep(Exec(Init(cfg, ring, word, readMask, writeMask), run), nw, nr)
  {
    var start := Init(cfg, ring, word, readMask, writeMask);
    var s := Exec(start, run);
    NoStrandedSleeper(cfg, ring, word, readMask, writeMask, run);
    InitInv(cfg, ring, word, readMask, writeMask);
    RunKeeps(start, run);
    CfgKept(start, run);
    hide Exec, Init, Sync.SyncInv, F.NoneLost, WriterSide, ReaderSide;
    if BothAsleep(s, nw, nr) {
      assert !WriterFinishing(s) && !ReaderFinishing(s) by {
        AsleepOwesNothing(s);
      }
    }
  }

  /** A thread asleep in wait() has returned from the queue. */
  lemma AsleepOwesNothing<T>(s: State<T>)
    requires Inv(s) && s.f.threads[WRITER].Asleep? && s.f.threads[READER].Asleep?
    ensures !WriterFinishing(s) && !ReaderFinishing(s)
  {
    hide Sync.SyncInv, F.NoneLost, Notified;
  }
}
