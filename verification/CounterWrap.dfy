/**
 The program's counters are 64 bits wide and wrap. This module shows that a queue run with
 wrapping counters is, step for step, the queue run with unbounded ones, seen modulo 2^64.
 */
module CounterWrap {
  import opened Prelude
  import opened Ring
  import opened QueueProtocol
  import opened SynchronizedQueue

  function Wrapped(cfg: Config): Config {
    cfg.(width := Bits64)
  }

  function Low(x: int): int {
    x % TWO_TO_64
  }

  function LowWriter<T>(pc: WriterPc<T>): WriterPc<T> {
    match pc
    case WLoadedWrite(data, w) => WLoadedWrite(data, Low(w))
    case WStore(data, w) => WStore(data, Low(w))
    case _ => pc
  }

  function LowReader<T>(rd: Reader<T>): Reader<T> {
    Reader(Low(rd.readPtr), LowPc(rd.pc), rd.position, rd.skipped, rd.slices)
  }

  function LowPc<T>(pc: ReaderPc<T>): ReaderPc<T> {
    match pc
    case RLoadedWrite(n, w, seen) => RLoadedWrite(n, Low(w), seen)
    case RReset(w, seen) => RReset(Low(w), seen)
    case RLoadedRead(n, got, r) => RLoadedRead(n, got, Low(r))
    case RStore(data, r, committed, open) => RStore(data, Low(r), committed, open)
    case _ => pc
  }

  /** The same state with every counter, stored or loaded, cut to 64 bits. */
  function Truncate<T>(s: State<T>): State<T> {
    State(Wrapped(s.cfg), s.ring, Low(s.writePtr), LowWriter(s.writer),
          map id | id in s.readers :: LowReader(s.readers[id]), s.written)
  }

  /** What the program assumes of a reader: it lags less than 2^64 bytes, and asks for less than 2^64 bytes. */
  predicate ReaderFits<T>(cfg: Config, total: nat, rd: Reader<T>) {
    && (rd.position <= total ==> cfg.quantum * (total - rd.position) < TWO_TO_64)
    && (rd.pc.RLoadedWrite? ==> rd.pc.n * cfg.quantum < TWO_TO_64)
  }

  /**
   When wrapping counters still serve: they have not wrapped, or the queue is unsynchronized and its ring divides
   2^64.
   */
  ghost predicate Fits<T>(s: State<T>) {
    && (s.cfg.quantum * High(s) < TWO_TO_64 || (s.cfg.flavor.Unsynchronized? && TWO_TO_64 % s.cfg.Size() == 0))
    && forall id | id in s.readers :: ReaderFits(s.cfg, |s.written|, s.readers[id])
  }

  /** The invariant of the flavour at hand. */
  ghost predicate FlavorInv<T>(s: State<T>) {
    Inv(s) && (s.cfg.flavor.Synchronized? ==> SyncInv(s)) && (s.cfg.flavor.Unsynchronized? ==> !s.writer.WLoadedWrite?)
  }

  lemma FlavorStep<T>(s: State<T>, a: Action<T>)
    requires FlavorInv(s)
    ensures FlavorInv(Next(s, a))
  {
    if s.cfg.flavor.Synchronized? {
      StepSync(s, a);
    } else {
      StepKeeps(s, a);
    }
  }

  /** Every message a fitting state refers to is located by its wrapped counter. */
  lemma Locatable<T>(s: State<T>, k: nat)
    requires Fits(s) && k <= High(s)
    ensures Wrapped(s.cfg).Locates(k)
  {
    if s.cfg.quantum * High(s) < TWO_TO_64 {
      ScaleOrder(s.cfg.quantum, k, High(s));
      ScaleOrder(s.cfg.quantum, High(s), k);
    }
  }

  /** The same transaction is handed out at the wrapped counter. */
  lemma SameRegions(cfg: Config, k: nat, n: nat)
    requires cfg.width.Unbounded? && Wrapped(cfg).Locates(k)
    ensures Regions(Wrapped(cfg), Low(cfg.Counter(k)), n) == Regions(cfg, cfg.Counter(k), n)
    ensures Misaligned(Wrapped(cfg), Low(cfg.Counter(k))) == Misaligned(cfg, cfg.Counter(k)) == false
  {
    CounterCell(cfg, k);
    CounterCell(Wrapped(cfg), k);
    assert Low(cfg.Counter(k)) == Wrapped(cfg).Counter(k);
  }

  /** commitWrite's and commitRead's addition. */
  lemma SamePlus(cfg: Config, k: nat, n: nat)
    requires cfg.width.Unbounded?
    ensures Wrapped(cfg).Trim(Low(cfg.Counter(k)) + n * cfg.quantum) == Low(cfg.Trim(cfg.Counter(k) + n * cfg.quantum))
  {
    CounterPlus(cfg, k, n);
    CounterPlus(Wrapped(cfg), k, n);
  }

  /** beginWrite's availability test, before the first wrap. */
  lemma SameAvailability(cfg: Config, w: nat, r: nat)
    requires cfg.width.Unbounded? && r <= w <= r + cfg.capacity && cfg.quantum * w < TWO_TO_64
    ensures AvailableToWrite(Wrapped(cfg), Low(cfg.Counter(w)), Low(cfg.Counter(r))) ==
            AvailableToWrite(cfg, cfg.Counter(w), cfg.Counter(r))
  {
    AvailabilityMeaning(cfg, w, r);
    AvailabilityMeaning(Wrapped(cfg), w, r);
  }

  /** beginRead's decision and transaction. */
  lemma SameGrant(cfg: Config, w: nat, r: nat, n: nat)
    requires cfg.width.Unbounded? && r <= w && Wrapped(cfg).Locates(w) && Wrapped(cfg).Locates(r)
    requires cfg.quantum * (w - r) < TWO_TO_64 && n * cfg.quantum < TWO_TO_64
    ensures BeginRead(Wrapped(cfg), Low(cfg.Counter(w)), Low(cfg.Counter(r)), n) ==
            BeginRead(cfg, cfg.Counter(w), cfg.Counter(r), n)
  {
    BeginReadMeaning(cfg, w, r, n);
    BeginReadMeaning(Wrapped(cfg), w, r, n);
    SameRegions(cfg, r, n);
  }

  /** commitRead's decision. */
  lemma SameOverrun(cfg: Config, w: nat, r: nat)
    requires cfg.width.Unbounded? && r <= w && cfg.quantum * (w - r) < TWO_TO_64
    ensures Overrun(Wrapped(cfg), Low(cfg.Counter(w)), Low(cfg.Counter(r))) ==
            Overrun(cfg, cfg.Counter(w), cfg.Counter(r))
  {
    OverrunMeaning(cfg, w, r);
    OverrunMeaning(Wrapped(cfg), w, r);
  }

  /** The writer's step wraps if its three decisions do. */
  lemma WriterFollows<T>(s: State<T>, a: WriterAct<T>)
    requires s.cfg.width.Unbounded?
    requires Wrapped(s.cfg).QuantumCount() == s.cfg.QuantumCount()
    requires s.writer.WLoadedWrite? && 0 in s.readers ==>
               AvailableToWrite(Wrapped(s.cfg), Low(s.writer.w), Low(s.readers[0].readPtr)) ==
               AvailableToWrite(s.cfg, s.writer.w, s.readers[0].readPtr)
    requires s.writer.WFits? ==>
               && Misaligned(Wrapped(s.cfg), Low(s.writePtr)) == Misaligned(s.cfg, s.writePtr)
               && Regions(Wrapped(s.cfg), Low(s.writePtr), |s.writer.data|) ==
                  Regions(s.cfg, s.writePtr, |s.writer.data|)
    requires s.writer.WCommit? ==>
               Wrapped(s.cfg).Trim(Low(s.writePtr) + |s.writer.data| * s.cfg.quantum) ==
               Low(s.cfg.Trim(s.writePtr + |s.writer.data| * s.cfg.quantum))
    ensures WriterNext(Truncate(s), a) == Truncate(WriterNext(s, a))
  {
    hide Regions, AvailableToWrite, Misaligned, Low, WriterNext, Truncate;
    if s.writer.WLoadedWrite? {
      LoadedFollows(s, a);
    } else if s.writer.WFits? || s.writer.WCommit? {
      OwnCounterFollows(s, a);
    } else {
      PlainFollows(s, a);
    }
  }

  /** beginWrite's decision follows the availability. */
  lemma LoadedFollows<T>(s: State<T>, a: WriterAct<T>)
    requires s.writer.WLoadedWrite? && Wrapped(s.cfg).QuantumCount() == s.cfg.QuantumCount()
    requires 0 in s.readers ==>
               AvailableToWrite(Wrapped(s.cfg), Low(s.writer.w), Low(s.readers[0].readPtr)) ==
               AvailableToWrite(s.cfg, s.writer.w, s.readers[0].readPtr)
    ensures WriterNext(Truncate(s), a) == Truncate(WriterNext(s, a))
  {
    hide AvailableToWrite, Low;
    if 0 in s.readers {
      assert Truncate(s).readers[0].readPtr == Low(s.readers[0].readPtr);
    }
  }

  /** The writer's own counter is loaded to grant, and added to in commitWrite. */
  lemma OwnCounterFollows<T>(s: State<T>, a: WriterAct<T>)
    requires s.writer.WFits? || s.writer.WCommit?
    requires s.writer.WFits? ==>
               && Misaligned(Wrapped(s.cfg), Low(s.writePtr)) == Misaligned(s.cfg, s.writePtr)
               && Regions(Wrapped(s.cfg), Low(s.writePtr), |s.writer.data|) ==
                  Regions(s.cfg, s.writePtr, |s.writer.data|)
    requires s.writer.WCommit? ==>
               Wrapped(s.cfg).Trim(Low(s.writePtr) + |s.writer.data| * s.cfg.quantum) ==
               Low(s.cfg.Trim(s.writePtr + |s.writer.data| * s.cfg.quantum))
    ensures WriterNext(Truncate(s), a) == Truncate(WriterNext(s, a))
  {
    hide Regions, Misaligned, Low;
  }

  /** The other steps compute with no counter. */
  lemma PlainFollows<T>(s: State<T>, a: WriterAct<T>)
    requires !s.writer.WLoadedWrite? && !s.writer.WFits? && !s.writer.WCommit?
    requires Wrapped(s.cfg).QuantumCount() == s.cfg.QuantumCount()
    ensures WriterNext(Truncate(s), a) == Truncate(WriterNext(s, a))
  {
    hide Low, GetSlot;
  }

  lemma WriterStepWraps<T>(s: State<T>, a: WriterAct<T>)
    requires FlavorInv(s) && Fits(s)
    ensures WriterNext(Truncate(s), a) == Truncate(WriterNext(s, a))
  {
    assert WriterInv(s) && (s.writer.WLoadedWrite? ==> CursorInv(s.cfg, s.written, s.readers[0]));
    hide Placed, Truncate, WriterNext, Regions, Low, Delivered, Ascending, Intact;
    QuantumCountIsCapacity(s.cfg);
    QuantumCountIsCapacity(Wrapped(s.cfg));
    Locatable(s, |s.written|);
    match s.writer {
      case WLoadedWrite(data, w) =>
        ScaleOrder(s.cfg.quantum, High(s), |s.written|);
        SameAvailability(s.cfg, |s.written|, s.readers[0].position);
      case WFits(data) =>
        SameRegions(s.cfg, |s.written|, |data|);
      case WCommit(data) =>
        SamePlus(s.cfg, |s.written|, |data|);
      case _ =>
    }
    WriterFollows(s, a);
  }

  /** A reader's step wraps if its two decisions do. */
  lemma ReaderFollows<T>(s: State<T>, rd: Reader<T>, a: ReaderAct)
    requires s.cfg.width.Unbounded?
    requires rd.pc.RLoadedWrite? ==>
               BeginRead(Wrapped(s.cfg), Low(rd.pc.w), Low(rd.readPtr), rd.pc.n) ==
               BeginRead(s.cfg, rd.pc.w, rd.readPtr, rd.pc.n)
    requires rd.pc.RLoadedRead? ==>
               && Overrun(Wrapped(s.cfg), Low(s.writePtr), Low(rd.pc.r)) == Overrun(s.cfg, s.writePtr, rd.pc.r)
               && Wrapped(s.cfg).Trim(Low(rd.pc.r) + rd.pc.n * s.cfg.quantum) ==
                  Low(s.cfg.Trim(rd.pc.r + rd.pc.n * s.cfg.quantum))
    ensures ReaderNext(Truncate(s), LowReader(rd), a) == LowReader(ReaderNext(s, rd, a))
  {
    hide BeginRead, Overrun, Assemble, Complete, Low, GetSlot;
  }

  /** In a fitting state they do. */
  lemma ReaderDecisions<T>(s: State<T>, rd: Reader<T>)
    requires FlavorInv(s) && Fits(s) && ReaderInv(s.cfg, s.written, High(s), rd) && ReaderFits(s.cfg, |s.written|, rd)
    ensures rd.pc.RLoadedWrite? ==>
              BeginRead(Wrapped(s.cfg), Low(rd.pc.w), Low(rd.readPtr), rd.pc.n) ==
              BeginRead(s.cfg, rd.pc.w, rd.readPtr, rd.pc.n)
    ensures rd.pc.RLoadedRead? ==>
              && Overrun(Wrapped(s.cfg), Low(s.writePtr), Low(rd.pc.r)) == Overrun(s.cfg, s.writePtr, rd.pc.r)
              && Wrapped(s.cfg).Trim(Low(rd.pc.r) + rd.pc.n * s.cfg.quantum) ==
                 Low(s.cfg.Trim(rd.pc.r + rd.pc.n * s.cfg.quantum))
  {
    assert WriterInv(s);
    hide FlavorInv, Intact, Captured, Delivered, Ascending, BeginRead, Overrun, Low, Fits;
    Locatable(s, |s.written|);
    Locatable(s, rd.position);
    match rd.pc {
      case RLoadedWrite(n, w, seen) =>
        Locatable(s, seen);
        ScaleOrder(s.cfg.quantum, |s.written| - rd.position, seen - rd.position);
        SameGrant(s.cfg, seen, rd.position, n);
      case RLoadedRead(n, got, r) =>
        SameOverrun(s.cfg, |s.written|, rd.position);
        SamePlus(s.cfg, rd.position, n);
      case _ =>
    }
  }

  lemma ReaderStepWraps<T>(s: State<T>, id: nat, a: ReaderAct)
    requires FlavorInv(s) && Fits(s) && id in s.readers
    ensures ReaderNext(Truncate(s), LowReader(s.readers[id]), a) == LowReader(ReaderNext(s, s.readers[id], a))
  {
    var rd := s.readers[id];
    assert ReaderInv(s.cfg, s.written, High(s), rd) && ReaderFits(s.cfg, |s.written|, rd);
    hide FlavorInv, ReaderInv, Fits, Truncate, LowReader, ReaderNext, BeginRead, Overrun, Low;
    ReaderDecisions(s, rd);
    ReaderFollows(s, rd, a);
  }

  /** One step of the wrapping queue is the wrapped step of the unbounded queue. */
  lemma StepWraps<T>(s: State<T>, a: Action<T>)
    requires FlavorInv(s) && Fits(s)
    ensures Next(Truncate(s), a) == Truncate(Next(s, a))
  {
    hide FlavorInv, Fits, WriterNext, ReaderNext;
    match a {
      case Write(act) => WriterStepWraps(s, act);
      case Read(id, act) =>
        if id in s.readers {
          ReaderStepWraps(s, id, act);
          hide LowReader, LowWriter;
        }
      case Join(id) =>
        hide LowWriter;
    }
  }

  /** Every state the run goes through fits. */
  ghost predicate AlwaysFits<T>(s: State<T>, run: seq<Action<T>>)
    decreases |run|
  {
    Fits(Exec(s, run)) && (run != [] ==> AlwaysFits(s, run[..|run| - 1]))
  }

  /** Whether a state fits can be told from its image. */
  lemma FitsTruncated<T>(s: State<T>)
    ensures Fits(Truncate(s)) <==> Fits(s)
  {
    var low := Truncate(s);
    assert forall id | id in s.readers ::
        ReaderFits(low.cfg, |low.written|, low.readers[id]) == ReaderFits(s.cfg, |s.written|, s.readers[id]);
  }

  /** From any state, a run of the wrapping queue that fits throughout is the image of the unbounded queue's run. */
  lemma {:induction false} RunWraps<T>(s: State<T>, run: seq<Action<T>>)
    requires FlavorInv(s) && AlwaysFits(Truncate(s), run)
    ensures Exec(Truncate(s), run) == Truncate(Exec(s, run))
    ensures FlavorInv(Exec(s, run)) && Fits(Exec(s, run)) && AlwaysFits(s, run)
    decreases |run|
  {
    hide Truncate, FlavorInv, Fits;
    if run != [] {
      var before := run[..|run| - 1];
      RunWraps(s, before);
      StepWraps(Exec(s, before), run[|run| - 1]);
      FlavorStep(Exec(s, before), run[|run| - 1]);
    }
    FitsTruncated(Exec(s, run));
  }

  /** It fits throughout exactly when the unbounded queue's run does. */
  lemma {:induction false} AlwaysFitsTruncated<T>(s: State<T>, run: seq<Action<T>>)
    requires FlavorInv(s) && AlwaysFits(s, run)
    ensures AlwaysFits(Truncate(s), run)
    decreases |run|
  {
    hide Truncate, FlavorInv, Fits;
    if run == [] {
      FitsTruncated(s);
    } else {
      var before := run[..|run| - 1];
      AlwaysFitsTruncated(s, before);
      RunWraps(s, before);
      StepWraps(Exec(s, before), run[|run| - 1]);
      FitsTruncated(Exec(s, run));
    }
  }

  /** A new queue. */
  lemma InitWraps<T>(cfg: Config, ring: seq<T>)
    requires |ring| == cfg.capacity && cfg.width.Unbounded?
    ensures Init(Wrapped(cfg), ring) == Truncate(Init(cfg, ring)) && FlavorInv(Init(cfg, ring))
  {
    RunKeeps(cfg, ring, []);
    if cfg.flavor.Synchronized? {
      RunSync(cfg, ring, []);
    }
  }

  /**
   Counter-wrap refinement. However long the run, the queue with 64-bit counters takes the same decisions, hands out the
   same cells, copies, delivers and skips the same messages as the queue with unbounded counters, and its counters are
   theirs modulo 2^64; as long as, at every moment, each reader lags by less than 2^64 bytes and either fewer than 2^64
   bytes have been written or begun, or the queue is unsynchronized and its ring divides 2^64.
   */
  lemma WrapRefinement<T>(cfg: Config, ring: seq<T>, run: seq<Action<T>>)
    requires |ring| == cfg.capacity && cfg.width.Unbounded?
    requires AlwaysFits(Init(Wrapped(cfg), ring), run)
    ensures Exec(Init(Wrapped(cfg), ring), run) == Truncate(Exec(Init(cfg, ring), run))
    ensures FlavorInv(Exec(Init(cfg, ring), run))
  {
    InitWraps(cfg, ring);
    hide Init, Truncate, FlavorInv;
    RunWraps(Init(cfg, ring), run);
  }

  // ----- exactly when -----

  /**
   A wrapped counter finds the right ring offset for every number of messages if and only if the ring divides 2^64.
   */
  lemma OffsetsSurviveWrap(cfg: Config)
    requires cfg.Size() <= TWO_TO_64
    ensures TWO_TO_64 % cfg.Size() == 0 <==>
            (forall k: nat :: Low(cfg.quantum * k) % cfg.Size() == (cfg.quantum * k) % cfg.Size())
  {
    var q, size := cfg.quantum, cfg.Size();
    if TWO_TO_64 % size == 0 {
      forall k: nat
        ensures Low(q * k) % size == (q * k) % size
      {
        ModOfMod(q * k, TWO_TO_64, size);
      }
    } else {
      var k, e := FirstCounterPast(cfg);
      DivModUnique(q * k, TWO_TO_64, 1, e);
      DivModUnique(e, size, 0, e);
      var t := (q * k) / size;
      if (q * k) % size == e {
        assert q * k == size * t + e;
        DivModUnique(TWO_TO_64, size, t, 0);
        assert false;
      }
      assert Low(q * k) % size != (q * k) % size;
    }
  }

  /** The first counter value at or past 2^64 is less than one message beyond it. */
  lemma FirstCounterPast(cfg: Config) returns (k: nat, e: nat)
    requires cfg.Size() <= TWO_TO_64
    ensures cfg.quantum * k == TWO_TO_64 + e && e < cfg.quantum <= cfg.Size()
  {
    var q, m := cfg.quantum, TWO_TO_64 + cfg.quantum - 1;
    k := m / q;
    assert m == q * k + m % q;
    e := q - 1 - m % q;
    ScaleOrder(q, cfg.capacity, 1);
  }

  /**
   availableToReadBytes compares the counters before it subtracts them. Between counters less than 2^64 bytes apart it
   is right if and only if both have wrapped the same number of times; otherwise it reports an empty queue.
   */
  lemma AvailabilityUnderWrap(w: nat, r: nat)
    requires r <= w < r + TWO_TO_64
    ensures AvailableToReadBytes(Low(w), Low(r)) == w - r <==> w / TWO_TO_64 == r / TWO_TO_64
    ensures w / TWO_TO_64 != r / TWO_TO_64 ==> AvailableToReadBytes(Low(w), Low(r)) == 0
  {
  }

  /** How often a counter that has passed k messages has wrapped. */
  function Wraps(cfg: Config, k: nat): nat {
    cfg.quantum * k / TWO_TO_64
  }

  /** The messages availableToRead counts: what is pending, but nothing while only the write counter has wrapped. */
  function Available(cfg: Config, total: nat, position: nat): nat
    requires position <= total
  {
    if Wraps(cfg, total) == Wraps(cfg, position) then total - position else 0
  }

  lemma AvailableMessages(cfg: Config, total: nat, position: nat)
    requires cfg.width.Bits64? && position <= total && cfg.quantum * (total - position) < TWO_TO_64
    ensures AvailableToReadBytes(cfg.Counter(total), cfg.Counter(position)) ==
            cfg.quantum * Available(cfg, total, position)
    ensures AvailableToReadBytes(cfg.Counter(total), cfg.Counter(position)) / cfg.quantum ==
            Available(cfg, total, position)
    ensures cfg.quantum * total < TWO_TO_64 ==> Wraps(cfg, total) == Wraps(cfg, position)
  {
    var w, r, d := cfg.quantum * total, cfg.quantum * position, total - position;
    assert w - r == cfg.quantum * d;
    ScaleOrder(cfg.quantum, total, position);
    ScaleOrder(cfg.quantum, position, total);
    ScaledDivMod(cfg.quantum, d, 1);
    ScaledDivMod(cfg.quantum, 0, 1);
    hide AvailableToReadBytes;
    AvailabilityUnderWrap(w, r);
    assert cfg.Counter(total) == Low(w) && cfg.Counter(position) == Low(r);
  }

  /** availableToWrite counts the rest of the ring beyond those, or nothing when there is none. */
  lemma AvailableRoom(cfg: Config, total: nat, position: nat)
    requires cfg.width.Bits64? && position <= total && cfg.quantum * (total - position) < TWO_TO_64
    ensures var available := Available(cfg, total, position);
            AvailableToWriteBytes(cfg, cfg.Counter(total), cfg.Counter(position)) / cfg.quantum ==
            if available <= cfg.capacity then cfg.capacity - available else 0
  {
    var q, available := cfg.quantum, Available(cfg, total, position);
    AvailableMessages(cfg, total, position);
    ScaleOrder(q, cfg.capacity, available);
    assert cfg.Size() - q * available == q * (cfg.capacity - available);
    ScaledDivMod(q, cfg.capacity - available, 1);
    ScaledDivMod(q, 0, 1);
    hide AvailableToReadBytes, Available;
  }
}
