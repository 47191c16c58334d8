/**
 The results about the synchronized queue and the blocking calls for the counters the program has, which are
 64 bits wide. What is proved of unbounded counters holds of the wrapping ones wherever `CounterWrap` makes the
 second an image of the first; for a synchronized queue that is while fewer than 2^64 bytes have been written or
 begun. `WrappedReads` does the same for the unsynchronized flavour.
 */
module WrappedRuns {
  import opened Ring
  import opened C = CounterWrap
  import Q = QueueProtocol
  import Sync = SynchronizedQueue
  import F = FutexProtocol
  import B = BlockingProtocol
  import D = DeadlockBound

  /** Fewer than 2^64 bytes have been written or begun. */
  predicate FewBytes<T>(q: Q.State<T>) {
    q.cfg.quantum * Q.High(q) < TWO_TO_64
  }

  /** The same queue with unbounded counters. */
  function Unwrapped(cfg: Config): Config {
    cfg.(width := Unbounded)
  }

  /** A later state has written no less, so an earlier one no more. */
  lemma FewBytesBefore<T>(q: Q.State<T>, later: Q.State<T>)
    requires FewBytes(later) && q.cfg == later.cfg && Q.High(q) <= Q.High(later)
    ensures FewBytes(q)
  {
    ScaleOrder(q.cfg.quantum, Q.High(later), Q.High(q));
  }

  lemma FewBytesOf<T>(s: Q.State<T>)
    ensures FewBytes(Truncate(s)) <==> FewBytes(s)
  {
  }

  // ----- the queue -----

  /** Every read asks for fewer than 2^64 bytes. */
  ghost predicate AsksLittle<T>(cfg: Config, run: seq<Q.Action<T>>) {
    forall a | a in run && a.Read? && a.readerAct.RStart? :: a.readerAct.n * cfg.quantum < TWO_TO_64
  }

  /** Every read under way does. */
  ghost predicate Asking<T>(q: Q.State<T>) {
    forall id | id in q.readers ::
      q.readers[id].pc.RBegin? || q.readers[id].pc.RLoadedWrite? ==>
        q.readers[id].pc.n * q.cfg.quantum < TWO_TO_64
  }

  /** With so few bytes, and asking for so few, a queue fits. */
  lemma FewBytesFit<T>(q: Q.State<T>)
    requires FewBytes(q) && Asking(q)
    ensures Fits(q)
  {
    forall id | id in q.readers
      ensures ReaderFits(q.cfg, |q.written|, q.readers[id])
    {
      ScaleOrder(q.cfg.quantum, Q.High(q), |q.written| - q.readers[id].position);
    }
  }

  lemma QueueGrows<T>(s: Q.State<T>, a: Q.Action<T>)
    ensures Q.High(s) <= Q.High(Q.Next(s, a)) && Q.Next(s, a).cfg == s.cfg
  {
    if a.Write? {
      Q.WriterFrame(s, a.writerAct);
    }
  }

  lemma AskingStep<T>(s: Q.State<T>, a: Q.Action<T>)
    requires Asking(s)
    requires a.Read? && a.readerAct.RStart? ==> a.readerAct.n * s.cfg.quantum < TWO_TO_64
    ensures Asking(Q.Next(s, a))
  {
    match a {
      case Write(act) =>
        Q.WriterFrame(s, act);
      case Read(id, act) =>
        if id in s.readers {
          AskingReader(s, s.readers[id], act);
        }
      case Join(_) =>
    }
  }

  lemma AskingReader<T>(s: Q.State<T>, rd: Q.Reader<T>, act: Q.ReaderAct)
    requires rd.pc.RBegin? || rd.pc.RLoadedWrite? ==> rd.pc.n * s.cfg.quantum < TWO_TO_64
    requires act.RStart? ==> act.n * s.cfg.quantum < TWO_TO_64
    ensures var pc := Q.ReaderNext(s, rd, act).pc;
            pc.RBegin? || pc.RLoadedWrite? ==> pc.n * s.cfg.quantum < TWO_TO_64
  {
    hide BeginRead, Overrun, GetSlot, Q.Complete;
  }

  /** A run that ends with few bytes fits throughout, whatever the width of its counters. */
  lemma {:induction false} FewBytesAlwaysFit<T>(start: Q.State<T>, run: seq<Q.Action<T>>)
    requires Asking(start) && AsksLittle(start.cfg, run) && FewBytes(Q.Exec(start, run))
    ensures AlwaysFits(start, run) && Asking(Q.Exec(start, run)) && Q.Exec(start, run).cfg == start.cfg
    decreases |run|
  {
    if run != [] {
      var before, a := run[..|run| - 1], run[|run| - 1];
      var s := Q.Exec(start, before);
      assert a in run && AsksLittle(start.cfg, before);
      hide Q.Next, Asking, AsksLittle, FewBytes, Fits;
      ConfigKept(start, before);
      QueueGrows(s, a);
      FewBytesBefore(s, Q.Next(s, a));
      FewBytesAlwaysFit(start, before);
      AskingStep(s, a);
    }
    FewBytesFit(Q.Exec(start, run));
  }

  lemma {:induction false} ConfigKept<T>(s: Q.State<T>, run: seq<Q.Action<T>>)
    ensures Q.Exec(s, run).cfg == s.cfg
    decreases |run|
  {
    if run != [] {
      ConfigKept(s, run[..|run| - 1]);
      QueueGrows(Q.Exec(s, run[..|run| - 1]), run[|run| - 1]);
    }
  }

  /** A queue that has carried fewer than 2^64 bytes is the image of the unbounded one. */
  lemma FewBytesRefine<T>(cfg: Config, ring: seq<T>, run: seq<Q.Action<T>>)
    requires |ring| == cfg.capacity && cfg.width.Bits64?
    requires AsksLittle(cfg, run) && FewBytes(Q.Exec(Q.Init(cfg, ring), run))
    ensures AlwaysFits(Q.Init(cfg, ring), run)
    ensures var s := Q.Exec(Q.Init(Unwrapped(cfg), ring), run);
            Q.Exec(Q.Init(cfg, ring), run) == Truncate(s) && FlavorInv(s) && FewBytes(s)
  {
    assert Asking(Q.Init(cfg, ring)) && Q.Init(cfg, ring).cfg == cfg;
    assert Wrapped(Unwrapped(cfg)) == cfg;
    hide Q.Init, Q.Exec, Asking, AsksLittle, AlwaysFits, FlavorInv;
    FewBytesAlwaysFit(Q.Init(cfg, ring), run);
    WrapRefinement(Unwrapped(cfg), ring, run);
    FewBytesOf(Q.Exec(Q.Init(Unwrapped(cfg), ring), run));
  }

  /** Counters that have carried so little are what they were. */
  lemma LowSmall<T>(s: Q.State<T>, k: nat)
    requires FewBytes(s) && k <= Q.High(s)
    ensures C.Low(s.cfg.quantum * k) == s.cfg.quantum * k
  {
    ScaleOrder(s.cfg.quantum, Q.High(s), k);
  }

  /** The image of a FIFO is one, with the same counters. */
  lemma FifoTruncated<T>(s: Q.State<T>)
    requires Sync.Fifo(s) && FewBytes(s)
    ensures Sync.Fifo(Truncate(s))
  {
    hide Q.Delivered, C.Low;
    LowSmall(s, |s.written|);
    LowSmall(s, |Q.Delivered(s.readers[0].slices)|);
  }

  /** Concurrent FIFO with 64-bit counters, while fewer than 2^64 bytes have been written or begun. */
  lemma ConcurrentFifo64<T>(cfg: Config, ring: seq<T>, run: seq<Q.Action<T>>)
    requires |ring| == cfg.capacity && cfg.width.Bits64? && cfg.flavor.Synchronized?
    requires AsksLittle(cfg, run) && FewBytes(Q.Exec(Q.Init(cfg, ring), run))
    ensures Sync.Fifo(Q.Exec(Q.Init(cfg, ring), run))
  {
    hide Q.Exec, Q.Init, Sync.Fifo, AsksLittle, Truncate, FewBytes;
    FewBytesRefine(cfg, ring, run);
    Sync.ConcurrentFifo(Unwrapped(cfg), ring, run);
    FifoTruncated(Q.Exec(Q.Init(Unwrapped(cfg), ring), run));
  }

  /** Counters that are so are so in the image. */
  lemma BoundedTruncated<T>(s: Q.State<T>)
    requires Sync.SyncInv(s) && Sync.Bounded(s) && FewBytes(s)
    ensures Sync.Bounded(Truncate(s))
  {
    assert s.writePtr == s.cfg.quantum * |s.written| by {
      assert Q.WriterInv(s);
    }
    assert s.writer.WStore? ==> s.writer.w == s.cfg.quantum * Q.High(s) by {
      assert Q.WriterInv(s);
    }
    assert s.readers[0].readPtr == s.cfg.quantum * s.readers[0].position && s.readers[0].position <= |s.written| by {
      assert Q.CursorInv(s.cfg, s.written, s.readers[0]);
    }
    hide Sync.SyncInv, C.Low;
    LowSmall(s, |s.written|);
    LowSmall(s, Q.High(s));
    LowSmall(s, s.readers[0].position);
  }

  /** Counter bounds with 64-bit counters, as long. */
  lemma CounterBounds64<T>(cfg: Config, ring: seq<T>, run: seq<Q.Action<T>>)
    requires |ring| == cfg.capacity && cfg.width.Bits64? && cfg.flavor.Synchronized?
    requires AsksLittle(cfg, run) && FewBytes(Q.Exec(Q.Init(cfg, ring), run))
    ensures Sync.Bounded(Q.Exec(Q.Init(cfg, ring), run))
  {
    hide Q.Exec, Q.Init, Sync.SyncInv, Sync.Bounded, AsksLittle, Truncate, FewBytes;
    FewBytesRefine(cfg, ring, run);
    Sync.CounterBounds(Unwrapped(cfg), ring, run);
    Sync.RunSync(Unwrapped(cfg), ring, run);
    BoundedTruncated(Q.Exec(Q.Init(Unwrapped(cfg), ring), run));
  }

  lemma ApartTruncated<T>(s: Q.State<T>)
    requires s.writer.WCopying? && Sync.CellsApart(s)
    ensures Truncate(s).writer.WCopying? && Sync.CellsApart(Truncate(s))
  {
    hide GetSlot, Q.Delivered;
    assert Truncate(s).writer == s.writer;
    assert s.readers[0].pc.RCopying? ==> Truncate(s).readers[0].pc == s.readers[0].pc;
    assert Truncate(s).readers[0].pc.RCopying? ==> s.readers[0].pc.RCopying?;
  }

  /** Disjoint cells with 64-bit counters, as long. */
  lemma WriterAndReaderCellsApart64<T>(cfg: Config, ring: seq<T>, run: seq<Q.Action<T>>)
    requires |ring| == cfg.capacity && cfg.width.Bits64? && cfg.flavor.Synchronized?
    requires AsksLittle(cfg, run) && FewBytes(Q.Exec(Q.Init(cfg, ring), run))
    requires Q.Exec(Q.Init(cfg, ring), run).writer.WCopying?
    ensures Sync.CellsApart(Q.Exec(Q.Init(cfg, ring), run))
  {
    hide Q.Exec, Q.Init, Sync.CellsApart, AsksLittle, FewBytes;
    FewBytesRefine(cfg, ring, run);
    var s := Q.Exec(Q.Init(Unwrapped(cfg), ring), run);
    assert s.writer.WCopying?;
    Sync.WriterAndReaderCellsApart(Unwrapped(cfg), ring, run);
    ApartTruncated(s);
  }

  // ----- the blocking calls -----

  function Low<T>(s: B.State<T>): B.State<T> {
    s.(q := Truncate(s.q))
  }

  /** The reader in progress asks for no more than the queue holds, as readBlocking has made sure. */
  predicate ArgFits<T>(s: B.State<T>) {
    s.readArg.Some? ==> s.readArg.value <= s.q.cfg.capacity
  }

  lemma ArgStep<T>(s: B.State<T>, a: B.Action<T>)
    requires ArgFits(s)
    ensures ArgFits(B.Next(s, a))
  {
    B.QueueGrows(s, a);
    hide Q.Next, Q.WriterNext, F.Next;
  }

  lemma BlockingFits<T>(s: B.State<T>)
    requires B.Inv(s) && ArgFits(s) && FewBytes(s.q) && s.q.cfg.Size() < TWO_TO_64
    ensures Fits(s.q) && FlavorInv(s.q)
  {
    hide F.NoneLost, B.WriterOk, Q.Inv, Sync.SyncReader;
    var pc := s.q.readers[0].pc;
    if pc.RBegin? || pc.RLoadedWrite? {
      ScaleOrder(s.q.cfg.quantum, s.q.cfg.capacity, pc.n);
    }
    hide B.ReaderOk;
    FewBytesFit(s.q);
  }

  /** One step of the composed system with 64-bit counters is the image of the unbounded one. */
  lemma BlockingStepWraps<T>(s: B.State<T>, a: B.Action<T>)
    requires FlavorInv(s.q) && Fits(s.q) && B.Running(s)
    ensures B.Next(Low(s), a) == Low(B.Next(s, a))
  {
    hide FlavorInv, Fits, F.Next, Q.Next, Q.WriterNext, B.WriterTurnNext, B.ReaderTurnNext,
         B.WriterLast, B.ReaderLast, Truncate;
    SameResults(s.q);
    match a {
      case CallWrite(data) => WriterStepWraps(s.q, Q.WStart(data));
      case CallRead(n) => StepWraps(s.q, Q.Read(0, Q.RStart(n)));
      case WriterQueue(act) => WriterStepWraps(s.q, act);
      case ReaderQueue(act) => StepWraps(s.q, Q.Read(0, act));
      case WriterFlag(_) =>
      case ReaderFlag(_) =>
      case WriterTurn => WriterTurnWraps(s);
      case ReaderTurn => ReaderTurnWraps(s);
      case WriterExpires =>
        if s.writeArg.Some? {
          WriterLastWraps(s);
        }
      case ReaderExpires =>
        if s.readArg.Some? {
          ReaderLastWraps(s);
        }
    }
  }

  /** Whether a state fits depends on what is written or begun, and on the readers' cursors and requests. */
  lemma FitsAlike<T>(q: Q.State<T>, q': Q.State<T>)
    requires Fits(q) && q'.cfg == q.cfg && q'.written == q.written && Q.High(q') == Q.High(q)
    requires forall id | id in q'.readers ::
               && id in q.readers && q'.readers[id].position == q.readers[id].position
               && (q'.readers[id].pc.RLoadedWrite? ==> q'.readers[id].pc == q.readers[id].pc)
    ensures Fits(q')
  {
    hide Q.High;
    forall id | id in q'.readers
      ensures ReaderFits(q'.cfg, |q'.written|, q'.readers[id])
    {
      assert ReaderFits(q.cfg, |q.written|, q.readers[id]);
    }
  }

  /** Returning from write() or read() changes no counter. */
  lemma WriteReturnFits<T>(q: Q.State<T>)
    requires FlavorInv(q) && Fits(q)
    ensures FlavorInv(Q.WriterNext(q, Q.WReturn)) && Fits(Q.WriterNext(q, Q.WReturn))
  {
    hide FlavorInv, Fits, Q.WriterNext, Q.High;
    FlavorStep(q, Q.Write(Q.WReturn));
    WriteReturned(q);
    FitsAlike(q, Q.WriterNext(q, Q.WReturn));
  }

  lemma WriteReturned<T>(q: Q.State<T>)
    ensures var q' := Q.WriterNext(q, Q.WReturn);
            && Q.Next(q, Q.Write(Q.WReturn)) == q'
            && q'.cfg == q.cfg && q'.written == q.written && q'.readers == q.readers && Q.High(q') == Q.High(q)
  {
  }

  lemma ReadReturnFits<T>(q: Q.State<T>, id: nat)
    requires FlavorInv(q) && Fits(q) && id in q.readers
    ensures FlavorInv(Q.Next(q, Q.Read(id, Q.RReturn))) && Fits(Q.Next(q, Q.Read(id, Q.RReturn)))
  {
    hide FlavorInv, Fits, Q.Next, Q.ReaderNext, Q.High;
    FlavorStep(q, Q.Read(id, Q.RReturn));
    Q.OnlyReader(q, id, Q.RReturn);
    ReturnedReader(q, q.readers[id]);
    FitsAlike(q, Q.Next(q, Q.Read(id, Q.RReturn)));
  }

  lemma ReturnedReader<T>(q: Q.State<T>, rd: Q.Reader<T>)
    ensures var rd' := Q.ReaderNext(q, rd, Q.RReturn);
            rd'.position == rd.position && (rd'.pc.RLoadedWrite? ==> rd' == rd)
  {
  }

  lemma WriterLastWraps<T>(s: B.State<T>)
    requires FlavorInv(s.q) && Fits(s.q) && B.Running(s) && s.writeArg.Some?
    ensures B.WriterLast(Low(s)) == Low(B.WriterLast(s))
  {
    hide FlavorInv, Fits, Q.WriterNext, Truncate;
    WriteReturnFits(s.q);
    WriterStepWraps(s.q, Q.WReturn);
    WriterStepWraps(Q.WriterNext(s.q, Q.WReturn), Q.WStart(s.writeArg.value));
  }

  lemma ReaderLastWraps<T>(s: B.State<T>)
    requires FlavorInv(s.q) && Fits(s.q) && B.Running(s) && s.readArg.Some?
    ensures B.ReaderLast(Low(s)) == Low(B.ReaderLast(s))
  {
    hide FlavorInv, Fits, Q.Next, Truncate;
    ReadReturnFits(s.q, 0);
    StepWraps(s.q, Q.Read(0, Q.RReturn));
    StepWraps(Q.Next(s.q, Q.Read(0, Q.RReturn)), Q.Read(0, Q.RStart(s.readArg.value)));
  }

  /** What the control flow of the two methods looks at is no counter. */
  lemma SameResults<T>(q: Q.State<T>)
    requires 0 in q.readers
    ensures 0 in Truncate(q).readers && Truncate(q).cfg.capacity == q.cfg.capacity
    ensures Truncate(q).writer.WDone? == q.writer.WDone? && Truncate(q).writer.WIdle? == q.writer.WIdle?
    ensures q.writer.WDone? ==> Truncate(q).writer == q.writer
    ensures var pc, pc' := q.readers[0].pc, Truncate(q).readers[0].pc;
            pc'.RDone? == pc.RDone? && pc'.RIdle? == pc.RIdle? && (pc.RDone? ==> pc' == pc)
  {
  }

  lemma WriterTurnWraps<T>(s: B.State<T>)
    requires FlavorInv(s.q) && Fits(s.q) && B.Running(s)
    ensures B.Next(Low(s), B.WriterTurn) == Low(B.Next(s, B.WriterTurn))
  {
    hide FlavorInv, Fits, F.Next, Q.WriterNext, Truncate;
    SameResults(s.q);
    WriterStepWraps(s.q, Q.WReturn);
    if s.writeArg.Some? {
      WriterStepWraps(s.q, Q.WStart(s.writeArg.value));
    }
  }

  lemma ReaderTurnWraps<T>(s: B.State<T>)
    requires FlavorInv(s.q) && Fits(s.q) && B.Running(s)
    ensures B.Next(Low(s), B.ReaderTurn) == Low(B.Next(s, B.ReaderTurn))
  {
    hide FlavorInv, Fits, F.Next, Q.Next, Truncate;
    SameResults(s.q);
    StepWraps(s.q, Q.Read(0, Q.RReturn));
    if s.readArg.Some? {
      StepWraps(s.q, Q.Read(0, Q.RStart(s.readArg.value)));
    }
  }

  lemma BlockingRefineStep<T>(s: B.State<T>, a: B.Action<T>)
    requires B.Inv(s) && ArgFits(s) && FewBytes(Truncate(s.q)) && s.q.cfg.Size() < TWO_TO_64
    ensures B.Next(Low(s), a) == Low(B.Next(s, a)) && ArgFits(B.Next(s, a))
  {
    FewBytesOf(s.q);
    ArgStep(s, a);
    hide Truncate, B.Next, Sync.SyncInv, B.WriterOk, B.ReaderOk;
    BlockingFits(s);
    BlockingStepWraps(s, a);
  }

  lemma BlockingInitWraps<T>(cfg: Config, ring: seq<T>, word: F.Bits, readMask: F.Bits, writeMask: F.Bits)
    requires |ring| == cfg.capacity && cfg.width.Unbounded?
    ensures B.Init(Wrapped(cfg), ring, word, readMask, writeMask) == Low(B.Init(cfg, ring, word, readMask, writeMask))
    ensures ArgFits(B.Init(cfg, ring, word, readMask, writeMask))
  {
    InitWraps(cfg, ring);
  }

  /** While fewer than 2^64 bytes have been written or begun, the composed system is the image of the unbounded one. */
  lemma {:induction false} BlockingRefine<T>(cfg: Config, ring: seq<T>, word: F.Bits, readMask: F.Bits,
                                             writeMask: F.Bits, run: seq<B.Action<T>>)
    requires |ring| == cfg.capacity && cfg.width.Unbounded? && cfg.flavor.Synchronized? && cfg.Size() < TWO_TO_64
    requires readMask != {} && writeMask != {} && readMask * writeMask == {}
    requires || FewBytes(B.Exec(B.Init(Wrapped(cfg), ring, word, readMask, writeMask), run).q)
             || FewBytes(B.Exec(B.Init(cfg, ring, word, readMask, writeMask), run).q)
    ensures var s := B.Exec(B.Init(cfg, ring, word, readMask, writeMask), run);
            && B.Exec(B.Init(Wrapped(cfg), ring, word, readMask, writeMask), run) == Low(s)
            && ArgFits(s)
    decreases |run|
  {
    var start := B.Init(cfg, ring, word, readMask, writeMask);
    BlockingInitWraps(cfg, ring, word, readMask, writeMask);
    if run != [] {
      var before, a := run[..|run| - 1], run[|run| - 1];
      hide B.Init, B.Next, B.Inv, Truncate, ArgFits;
      var s, low := B.Exec(start, before), B.Exec(Low(start), before);
      B.InitInv(cfg, ring, word, readMask, writeMask);
      B.RunKeeps(start, before);
      ConfigOf(cfg, ring, word, readMask, writeMask, before);
      B.QueueGrows(low, a);
      B.QueueGrows(s, a);
      if FewBytes(B.Next(low, a).q) {
        FewBytesBefore(low.q, B.Next(low, a).q);
      } else {
        FewBytesBefore(s.q, B.Next(s, a).q);
      }
      BlockingRefine(cfg, ring, word, readMask, writeMask, before);
      FewBytesOf(s.q);
      BlockingRefineStep(s, a);
    }
  }

  lemma StartConfig<T>(cfg: Config, ring: seq<T>, word: F.Bits, readMask: F.Bits, writeMask: F.Bits)
    requires |ring| == cfg.capacity
    ensures B.Init(cfg, ring, word, readMask, writeMask).q.cfg == cfg
  {
  }

  /** What the blocking results speak of is the same in both. */
  lemma SameSleepers<T>(s: B.State<T>)
    requires B.Running(s)
    ensures B.NoneStranded(Low(s)) <==> B.NoneStranded(s)
    ensures forall nw: nat, nr: nat :: B.BothAsleep(Low(s), nw, nr) <==> B.BothAsleep(s, nw, nr)
    ensures FewBytes(Low(s).q) <==> FewBytes(s.q)
  {
  }

  /** No stranded sleeper with 64-bit counters, while fewer than 2^64 bytes have been written or begun. */
  lemma NoStrandedSleeper64<T>(cfg: Config, ring: seq<T>, word: F.Bits, readMask: F.Bits, writeMask: F.Bits,
                               run: seq<B.Action<T>>)
    requires |ring| == cfg.capacity && cfg.width.Bits64? && cfg.flavor.Synchronized? && cfg.Size() < TWO_TO_64
    requires readMask != {} && writeMask != {} && readMask * writeMask == {}
    requires FewBytes(B.Exec(B.Init(cfg, ring, word, readMask, writeMask), run).q)
    ensures B.NoneStranded(B.Exec(B.Init(cfg, ring, word, readMask, writeMask), run))
  {
    hide B.Exec, B.Init, B.NoneStranded, B.BothAsleep, Truncate;
    var wide := Unwrapped(cfg);
    assert Wrapped(wide) == cfg;
    BlockingRefine(wide, ring, word, readMask, writeMask, run);
    B.NoStrandedSleeper(wide, ring, word, readMask, writeMask, run);
    RunningAlways(wide, ring, word, readMask, writeMask, run);
    SameSleepers(B.Exec(B.Init(wide, ring, word, readMask, writeMask), run));
  }

  lemma RunningAlways<T>(cfg: Config, ring: seq<T>, word: F.Bits, readMask: F.Bits, writeMask: F.Bits,
                         run: seq<B.Action<T>>)
    requires |ring| == cfg.capacity && cfg.width.Unbounded? && cfg.flavor.Synchronized?
    requires readMask != {} && writeMask != {} && readMask * writeMask == {}
    ensures B.Running(B.Exec(B.Init(cfg, ring, word, readMask, writeMask), run))
  {
    B.InitInv(cfg, ring, word, readMask, writeMask);
    B.RunKeeps(B.Init(cfg, ring, word, readMask, writeMask), run);
  }

  /** Nor is there mutual deadlock within the bound. */
  lemma NoMutualSleep64<T>(cfg: Config, ring: seq<T>, word: F.Bits, readMask: F.Bits, writeMask: F.Bits,
                           run: seq<B.Action<T>>, nw: nat, nr: nat)
    requires |ring| == cfg.capacity && cfg.width.Bits64? && cfg.flavor.Synchronized? && cfg.Size() < TWO_TO_64
    requires readMask != {} && writeMask != {} && readMask * writeMask == {}
    requires FewBytes(B.Exec(B.Init(cfg, ring, word, readMask, writeMask), run).q)
    requires nw + nr <= cfg.capacity + 1
    ensures !B.BothAsleep(B.Exec(B.Init(cfg, ring, word, readMask, writeMask), run), nw, nr)
  {
    hide B.Exec, B.Init, B.NoneStranded, B.BothAsleep, Truncate;
    var wide := Unwrapped(cfg);
    assert Wrapped(wide) == cfg;
    BlockingRefine(wide, ring, word, readMask, writeMask, run);
    B.NoMutualSleep(wide, ring, word, readMask, writeMask, run, nw, nr);
    RunningAlways(wide, ring, word, readMask, writeMask, run);
    SameSleepers(B.Exec(B.Init(wide, ring, word, readMask, writeMask), run));
  }

  /**
   And the bound stays exact: some run that writes fewer than 2^64 bytes leaves both asleep if and only if it is
   passed.
   */
  lemma MutualSleepIff64<T>(cfg: Config, ring: seq<T>, readMask: F.Bits, writeMask: F.Bits, nw: nat, nr: nat)
    requires |ring| == cfg.capacity && cfg.width.Bits64? && cfg.flavor.Synchronized? && cfg.Size() < TWO_TO_64
    requires readMask != {} && writeMask != {} && readMask * writeMask == {}
    requires nw <= cfg.capacity && nr <= cfg.capacity
    ensures (exists run: seq<B.Action<T>> ::
               var s := B.Exec(B.Init(cfg, ring, {}, readMask, writeMask), run);
               FewBytes(s.q) && B.BothAsleep(s, nw, nr))
            <==> nw + nr > cfg.capacity + 1
  {
    hide B.Exec, B.Init, B.NoneStranded, B.BothAsleep, Truncate;
    var wide := Unwrapped(cfg);
    assert Wrapped(wide) == cfg;
    if nw + nr > cfg.capacity + 1 {
      var run := D.BothSleep(wide, ring, readMask, writeMask, nw, nr);
      var s := B.Exec(B.Init(wide, ring, {}, readMask, writeMask), run);
      ConfigOf(wide, ring, {}, readMask, writeMask, run);
      ScaleOrder(cfg.quantum, cfg.capacity, Q.High(s.q));
      BlockingRefine(wide, ring, {}, readMask, writeMask, run);
      RunningAlways(wide, ring, {}, readMask, writeMask, run);
      SameSleepers(s);
      assert B.BothAsleep(B.Exec(B.Init(cfg, ring, {}, readMask, writeMask), run), nw, nr);
    } else {
      forall run: seq<B.Action<T>> | FewBytes(B.Exec(B.Init(cfg, ring, {}, readMask, writeMask), run).q)
        ensures !B.BothAsleep(B.Exec(B.Init(cfg, ring, {}, readMask, writeMask), run), nw, nr)
      {
        NoMutualSleep64(cfg, ring, {}, readMask, writeMask, run, nw, nr);
      }
    }
  }

  lemma ConfigOf<T>(cfg: Config, ring: seq<T>, word: F.Bits, readMask: F.Bits, writeMask: F.Bits, run: seq<B.Action<T>>)
    requires |ring| == cfg.capacity
    ensures B.Exec(B.Init(cfg, ring, word, readMask, writeMask), run).q.cfg == cfg
  {
    StartConfig(cfg, ring, word, readMask, writeMask);
    hide *;
    B.CfgKept(B.Init(cfg, ring, word, readMask, writeMask), run);
  }
}
