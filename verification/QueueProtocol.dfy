/**
 The queue as a step system. Every atomic load, every atomic store and every message copied
 by a memcpy is one step; the writer and the readers interleave freely and a memcpy copies
 its messages in any order. `Next` is a total function of the state and an action, so a run is
 a sequence of actions; an action that is not enabled leaves the state as it is.

 `written`, `position`, `skipped`, `slices` and the `seen` and `high` entries are history: no
 decision of the program depends on them.
 */
module QueueProtocol {
  import opened Prelude
  import opened Ring

  /** Where the writer is inside write(). */
  datatype WriterPc<T> =
    | WIdle
    | WBegin(data: seq<T>)                                     // beginWrite called
    | WLoadedWrite(data: seq<T>, w: int)                       // availableToReadBytes has loaded mWritePtr
    | WFits(data: seq<T>)                                      // there is room; own counter still to be loaded
    | WCopying(data: seq<T>, tx: MemTransaction, done: set<nat>) // copyTo under way
    | WCommit(data: seq<T>)                                    // commitWrite called
    | WStore(data: seq<T>, w: int)                             // about to store mWritePtr
    | WDone(ok: bool)                                          // result ready

  /** Where a reader is inside read(). */
  datatype ReaderPc<T> =
    | RIdle
    | RBegin(n: nat)                                           // beginRead called
    | RLoadedWrite(n: nat, w: int, seen: nat)                  // mWritePtr loaded when `seen` messages were committed
    | RReset(w: int, seen: nat)                                // overrun found; about to store the loaded write counter
    | RCopying(n: nat, tx: MemTransaction, got: map<nat, T>)   // copyFrom under way
    | RCommit(n: nat, got: map<nat, T>)                        // commitRead called
    | RLoadedRead(n: nat, got: map<nat, T>, r: int)            // own counter loaded
    | RStore(data: seq<T>, r: int, committed: nat, open: nat)  // mWritePtr loaded and in range; about to store
    | RDone(ok: bool, data: seq<T>)                            // result ready

  /**
   A successful read: where it started, what it returned, and, when commitRead loaded the write counter,
   how many messages were committed and how many belonged to a write begun but not yet committed.
   */
  datatype Slice<T> = Slice(start: nat, data: seq<T>, committed: nat, open: nat) {
    /** No message of the slice could have been overwritten before commitRead's load. */
    predicate OutOfReach(cfg: Config) {
      committed + open <= start + cfg.capacity
    }
  }

  datatype Reader<T> = Reader(readPtr: int, pc: ReaderPc<T>, position: nat, skipped: nat, slices: seq<Slice<T>>)

  datatype State<T> = State(
    cfg: Config,
    ring: seq<T>,
    writePtr: int,
    writer: WriterPc<T>,
    readers: map<nat, Reader<T>>,
    written: seq<T>)

  datatype WriterAct<T> = WStart(data: seq<T>) | WStep | WCopy(i: nat) | WReturn

  datatype ReaderAct = RStart(n: nat) | RStep | RCopy(i: nat) | RReturn

  datatype Action<T> = Write(writerAct: WriterAct<T>) | Read(id: nat, readerAct: ReaderAct) | Join(id: nat)

  function NewReader<T>(): Reader<T> {
    Reader(0, RIdle, 0, 0, [])
  }

  /** A queue just created: both counters zero, any bytes in the ring. The synchronized flavour has reader 0 only. */
  function Init<T>(cfg: Config, ring: seq<T>): State<T>
    requires |ring| == cfg.capacity
  {
    State(cfg, ring, 0, WIdle, if cfg.flavor.Synchronized? then map[0 := NewReader()] else map[], [])
  }

  function WriterNext<T>(s: State<T>, a: WriterAct<T>): State<T> {
    match (s.writer, a)
    case (WIdle, WStart(data)) =>
      s.(writer := WBegin(data))
    case (WBegin(data), WStep) =>
      if s.cfg.flavor.Synchronized? then s.(writer := WLoadedWrite(data, s.writePtr))
      else s.(writer := if |data| > s.cfg.QuantumCount() then WDone(false) else WFits(data))
    case (WLoadedWrite(data, w), WStep) =>
      if 0 !in s.readers then s else
      var refused := AvailableToWrite(s.cfg, w, s.readers[0].readPtr) < |data| || |data| > s.cfg.QuantumCount();
      s.(writer := if refused then WDone(false) else WFits(data))
    case (WFits(data), WStep) =>
      s.(writer := if Misaligned(s.cfg, s.writePtr) then WDone(false)
                   else WCopying(data, Regions(s.cfg, s.writePtr, |data|), {}))
    case (WCopying(data, tx, done), WCopy(i)) =>
      var slot := GetSlot(tx, i);
      if i < |data| && slot.Some? && slot.value < |s.ring|
      then s.(ring := s.ring[slot.value := data[i]], writer := WCopying(data, tx, done + {i}))
      else s
    case (WCopying(data, tx, done), WStep) =>
      if forall i | 0 <= i < |data| :: i in done then s.(writer := WCommit(data)) else s
    case (WCommit(data), WStep) =>
      s.(writer := WStore(data, s.cfg.Trim(s.writePtr + |data| * s.cfg.quantum)))
    case (WStore(data, w), WStep) =>
      s.(writePtr := w, written := s.written + data, writer := WDone(true))
    case (WDone(_), WReturn) =>
      s.(writer := WIdle)
    case _ =>
      s
  }

  /** Messages of a granted, not yet committed write. */
  function Open<T>(pc: WriterPc<T>): nat {
    match pc
    case WCopying(data, _, _) => |data|
    case WCommit(data) => |data|
    case WStore(data, _) => |data|
    case _ => 0
  }

  /** How far the writer may have reached into the ring: committed messages and those of the open write. */
  function High<T>(s: State<T>): nat {
    |s.written| + Open(s.writer)
  }

  predicate Complete<T>(got: map<nat, T>, n: nat) {
    forall i | 0 <= i < n :: i in got
  }

  function Assemble<T>(got: map<nat, T>, n: nat): (data: seq<T>)
    requires Complete(got, n)
    ensures |data| == n && forall i: nat | i < n :: data[i] == got[i]
  {
    seq(n, i requires 0 <= i < n => got[i])
  }

  /** A reader's step reads the shared state and changes nothing but the reader. */
  function ReaderNext<T>(s: State<T>, rd: Reader<T>, a: ReaderAct): Reader<T> {
    match (rd.pc, a)
    case (RIdle, RStart(n)) =>
      rd.(pc := RBegin(n))
    case (RBegin(n), RStep) =>
      rd.(pc := RLoadedWrite(n, s.writePtr, |s.written|))
    case (RLoadedWrite(n, w, seen), RStep) =>
      (match BeginRead(s.cfg, w, rd.readPtr, n)
       case ReadMisaligned => rd.(pc := RDone(false, []))
       case ReadOverrun => rd.(pc := RReset(w, seen))
       case ReadTooFew => rd.(pc := RDone(false, []))
       case ReadGranted(tx) => rd.(pc := RCopying(n, tx, map[])))
    case (RReset(w, seen), RStep) =>
      rd.(readPtr := w, pc := RDone(false, []), position := seen,
          skipped := if rd.position <= seen then rd.skipped + (seen - rd.position) else rd.skipped)
    case (RCopying(n, tx, got), RCopy(i)) =>
      var slot := GetSlot(tx, i);
      if i < n && slot.Some? && slot.value < |s.ring|
      then rd.(pc := RCopying(n, tx, got[i := s.ring[slot.value]]))
      else rd
    case (RCopying(n, tx, got), RStep) =>
      if Complete(got, n) then rd.(pc := RCommit(n, got)) else rd
    case (RCommit(n, got), RStep) =>
      rd.(pc := RLoadedRead(n, got, rd.readPtr))
    case (RLoadedRead(n, got, r), RStep) =>
      if Overrun(s.cfg, s.writePtr, r) then rd.(pc := RReset(s.writePtr, |s.written|))
      else if Complete(got, n) then
        rd.(pc := RStore(Assemble(got, n), s.cfg.Trim(r + n * s.cfg.quantum), |s.written|, Open(s.writer)))
      else rd
    case (RStore(data, r, committed, open), RStep) =>
      rd.(readPtr := r, pc := RDone(true, data), position := rd.position + |data|,
          slices := rd.slices + [Slice(rd.position, data, committed, open)])
    case (RDone(_, _), RReturn) =>
      rd.(pc := RIdle)
    case _ =>
      rd
  }

  function Next<T>(s: State<T>, a: Action<T>): State<T> {
    match a
    case Write(act) => WriterNext(s, act)
    case Read(id, act) =>
      if id in s.readers then s.(readers := s.readers[id := ReaderNext(s, s.readers[id], act)]) else s
    case Join(id) =>
      if id in s.readers || s.cfg.flavor.Synchronized? then s else s.(readers := s.readers[id := NewReader()])
  }

  function Exec<T>(s: State<T>, run: seq<Action<T>>): State<T>
    decreases |run|
  {
    if run == [] then s else Next(Exec(s, run[..|run| - 1]), run[|run| - 1])
  }

  // ----- invariant -----

  /** Every message the writer cannot have reached again is still in its cell. */
  ghost predicate RingKeeps<T>(s: State<T>) {
    && |s.ring| == s.cfg.capacity
    && forall k: nat | k < |s.written| && High(s) <= k + s.cfg.capacity ::
         s.ring[k % s.cfg.capacity] == s.written[k]
  }

  /** Message i of the open write is in its cell, after the committed ones. */
  ghost predicate Placed<T>(s: State<T>, data: seq<T>, i: nat) {
    && |s.ring| == s.cfg.capacity && i < |data|
    && s.ring[(|s.written| + i) % s.cfg.capacity] == data[i]
  }

  ghost predicate AllPlaced<T>(s: State<T>, data: seq<T>) {
    |data| <= s.cfg.capacity && forall i: nat | i < |data| :: Placed(s, data, i)
  }

  ghost predicate WriterInv<T>(s: State<T>) {
    && s.writePtr == s.cfg.Counter(|s.written|)
    && match s.writer
       case WLoadedWrite(_, w) => w == s.writePtr
       case WFits(data) => |data| <= s.cfg.capacity
       case WCopying(data, tx, done) =>
         && |data| <= s.cfg.capacity && tx == Regions(s.cfg, s.writePtr, |data|)
         && forall i | i in done :: Placed(s, data, i)
       case WCommit(data) => AllPlaced(s, data)
       case WStore(data, w) => w == s.cfg.Counter(|s.written| + |data|) && AllPlaced(s, data)
       case _ => true
  }

  /** The copied messages are the history at the cursor, as far as the writer has not come round to them. */
  ghost predicate Captured<T>(cfg: Config, written: seq<T>, high: nat, start: nat, n: nat, got: map<nat, T>) {
    && start + n <= |written| && n <= cfg.capacity
    && forall j | j in got :: j < n && (high <= start + j + cfg.capacity ==> got[j] == written[start + j])
  }

  /** Message by message, a slice is the history at its start unless the writer had come round to that message. */
  ghost predicate Intact<T>(cfg: Config, written: seq<T>, slice: Slice<T>) {
    && slice.start + |slice.data| <= |written|
    && slice.committed <= slice.start + cfg.capacity
    && forall j: nat | j < |slice.data| && slice.committed + slice.open <= slice.start + j + cfg.capacity ::
         slice.data[j] == written[slice.start + j]
  }

  function Delivered<T>(slices: seq<Slice<T>>): seq<T> {
    if slices == [] then [] else Delivered(slices[..|slices| - 1]) + slices[|slices| - 1].data
  }

  /** Slices follow each other without overlap and end at or before `position`. */
  ghost predicate Ascending<T>(slices: seq<Slice<T>>, position: nat) {
    && (forall i: nat | i < |slices| :: slices[i].start + |slices[i].data| <= position)
    && (forall i: nat, j: nat | i < j < |slices| :: slices[i].start + |slices[i].data| <= slices[j].start)
  }

  ghost predicate CursorInv<T>(cfg: Config, written: seq<T>, rd: Reader<T>) {
    && rd.readPtr == cfg.Counter(rd.position) && rd.position <= |written|
    && |Delivered(rd.slices)| + rd.skipped == rd.position
    && Ascending(rd.slices, rd.position)
    && forall slice | slice in rd.slices :: Intact(cfg, written, slice)
  }

  ghost predicate ReaderPcInv<T>(cfg: Config, written: seq<T>, high: nat, rd: Reader<T>) {
    match rd.pc
    case RLoadedWrite(_, w, seen) => rd.position <= seen <= |written| && w == cfg.Counter(seen)
    case RReset(w, seen) => rd.position + cfg.capacity < seen <= |written| && w == cfg.Counter(seen)
    case RCopying(n, tx, got) => tx == Regions(cfg, rd.readPtr, n) && Captured(cfg, written, high, rd.position, n, got)
    case RCommit(n, got) => Complete(got, n) && Captured(cfg, written, high, rd.position, n, got)
    case RLoadedRead(n, got, r) =>
      r == rd.readPtr && Complete(got, n) && Captured(cfg, written, high, rd.position, n, got)
    case RStore(data, r, committed, open) =>
      && r == cfg.Counter(rd.position + |data|) && committed + open <= high
      && Intact(cfg, written, Slice(rd.position, data, committed, open))
    case RDone(ok, data) => ok ==> rd.slices != [] && rd.slices[|rd.slices| - 1].data == data
    case _ => true
  }

  ghost predicate ReaderInv<T>(cfg: Config, written: seq<T>, high: nat, rd: Reader<T>) {
    CursorInv(cfg, written, rd) && ReaderPcInv(cfg, written, high, rd)
  }

  /** What every step keeps, in both flavours, with unbounded counters. */
  ghost predicate Inv<T>(s: State<T>) {
    && s.cfg.width.Unbounded?
    && RingKeeps(s)
    && WriterInv(s)
    && forall id | id in s.readers :: ReaderInv(s.cfg, s.written, High(s), s.readers[id])
  }

  /** A slice out of the writer's reach is a contiguous piece of the history. */
  lemma SliceOfHistory<T>(cfg: Config, written: seq<T>, slice: Slice<T>)
    requires Intact(cfg, written, slice) && slice.OutOfReach(cfg)
    ensures slice.data == written[slice.start..slice.start + |slice.data|]
  {
    var piece := written[slice.start..slice.start + |slice.data|];
    forall j: nat | j < |slice.data|
      ensures slice.data[j] == piece[j]
    {
    }
  }

  lemma DeliveredOneMore<T>(slices: seq<Slice<T>>, slice: Slice<T>)
    ensures Delivered(slices + [slice]) == Delivered(slices) + slice.data
    ensures forall x | x in slices + [slice] :: x in slices || x == slice
  {
    var longer := slices + [slice];
    assert longer[..|longer| - 1] == slices;
  }

  // ----- every step keeps it -----

  /** Progress of the writer does not disturb what a reader has. */
  lemma ReaderInvMonotone<T>(cfg: Config, written: seq<T>, high: nat, later: seq<T>, laterHigh: nat, rd: Reader<T>)
    requires ReaderInv(cfg, written, high, rd)
    requires written <= later && high <= laterHigh
    ensures ReaderInv(cfg, later, laterHigh, rd)
  {
  }

  /** Message i of a granted write goes to the cell after the committed ones. */
  lemma CopyStepCell<T>(s: State<T>, i: nat)
    requires Inv(s) && s.writer.WCopying? && i < |s.writer.data|
    ensures var at := (|s.written| + i) % s.cfg.capacity;
            && |s.ring| == s.cfg.capacity && |s.writer.data| <= s.cfg.capacity
            && WriterNext(s, WCopy(i)) ==
               s.(ring := s.ring[at := s.writer.data[i]], writer := s.writer.(done := s.writer.done + {i}))
  {
    assert WriterInv(s) && RingKeeps(s);
    hide Inv, RingKeeps, Placed, Regions, GetSlot;
    CyclicSlice(s.cfg, |s.written|, |s.writer.data|);
    assert GetSlot(s.writer.tx, i) == Some((|s.written| + i) % s.cfg.capacity);
  }

  /** That spares every message of the history that the write cannot have reached. */
  lemma CopyStepSpares<T>(s: State<T>, i: nat)
    requires Inv(s) && s.writer.WCopying? && i < |s.writer.data|
    ensures RingKeeps(WriterNext(s, WCopy(i)))
  {
    CopyStepCell(s, i);
    hide WriterNext, WriterInv, ReaderInv;
    var at, cap := |s.written| + i, s.cfg.capacity;
    var s' := WriterNext(s, WCopy(i));
    forall k: nat | k < |s.written| && High(s) <= k + cap
      ensures s'.ring[k % cap] == s.written[k]
    {
      LapDistinct(k, at, cap);
    }
  }

  /** And the messages of the write that are already in place. */
  lemma CopyStepPlaces<T>(s: State<T>, i: nat)
    requires Inv(s) && s.writer.WCopying? && i < |s.writer.data|
    ensures WriterInv(WriterNext(s, WCopy(i)))
  {
    CopyStepCell(s, i);
    assert WriterInv(s);
    hide WriterNext, RingKeeps, ReaderInv;
    var at, cap := |s.written| + i, s.cfg.capacity;
    var s' := WriterNext(s, WCopy(i));
    forall j | j in s'.writer.done
      ensures Placed(s', s'.writer.data, j)
    {
      if j != i {
        assert Placed(s, s.writer.data, j);
      }
      if j < i {
        LapDistinct(|s.written| + j, at, cap);
      } else if i < j {
        LapDistinct(at, |s.written| + j, cap);
      }
    }
  }

  /** Copying one message of a granted write keeps the history the write cannot have reached. */
  lemma CopyStepKeeps<T>(s: State<T>, i: nat)
    requires Inv(s) && s.writer.WCopying?
    ensures RingKeeps(WriterNext(s, WCopy(i))) && WriterInv(WriterNext(s, WCopy(i)))
  {
    if i < |s.writer.data| {
      hide Inv, RingKeeps, WriterInv, WriterNext;
      CopyStepSpares(s, i);
      CopyStepPlaces(s, i);
    }
  }

  /** Storing the write counter turns the placed messages into history. */
  lemma StoreStepKeeps<T>(s: State<T>)
    requires Inv(s) && s.writer.WStore?
    ensures RingKeeps(WriterNext(s, WStep)) && WriterInv(WriterNext(s, WStep))
  {
    var s', data, cap := WriterNext(s, WStep), s.writer.data, s.cfg.capacity;
    forall k: nat | k < |s'.written| && High(s') <= k + cap
      ensures s'.ring[k % cap] == s'.written[k]
    {
      if k >= |s.written| {
        assert Placed(s, data, k - |s.written|);
      }
    }
  }

  lemma PlainStepSpares<T>(s: State<T>, a: WriterAct<T>)
    requires RingKeeps(s) && !(s.writer.WCopying? && a.WCopy?) && !(s.writer.WStore? && a.WStep?)
    ensures RingKeeps(WriterNext(s, a))
  {
    WriterFrame(s, a);
    hide High;
    assert WriterNext(s, a).ring == s.ring && WriterNext(s, a).written == s.written;
  }

  /** The writer's other steps touch neither ring nor history. */
  lemma PlainStepKeeps<T>(s: State<T>, a: WriterAct<T>)
    requires Inv(s) && !(s.writer.WCopying? && a.WCopy?) && !(s.writer.WStore? && a.WStep?)
    ensures RingKeeps(WriterNext(s, a)) && WriterInv(WriterNext(s, a))
  {
    PlainStepSpares(s, a);
    hide RingKeeps;
    QuantumCountIsCapacity(s.cfg);
    var s' := WriterNext(s, a);
    match s.writer {
      case WCommit(data) =>
        CounterPlus(s.cfg, |s.written|, |data|);
        forall i: nat | i < |data|
          ensures Placed(s', data, i)
        {
          assert Placed(s, data, i);
        }
      case WCopying(data, tx, done) =>
        forall i: nat | i in done
          ensures Placed(s', data, i)
        {
          assert Placed(s, data, i);
        }
      case _ =>
    }
  }

  /** The writer never touches a reader, and its history and reach only grow. */
  lemma WriterFrame<T>(s: State<T>, a: WriterAct<T>)
    ensures var s' := WriterNext(s, a);
            && s'.cfg == s.cfg && s'.readers == s.readers
            && s.written <= s'.written && High(s) <= High(s')
  {
  }

  lemma WriterStepKeeps<T>(s: State<T>, a: WriterAct<T>)
    requires Inv(s)
    ensures Inv(WriterNext(s, a))
    ensures s.written <= WriterNext(s, a).written && High(s) <= High(WriterNext(s, a))
  {
    hide WriterNext, RingKeeps, WriterInv, ReaderInv, High;
    var s' := WriterNext(s, a);
    WriterFrame(s, a);
    if s.writer.WCopying? && a.WCopy? {
      CopyStepKeeps(s, a.i);
    } else if s.writer.WStore? && a.WStep? {
      StoreStepKeeps(s);
    } else {
      PlainStepKeeps(s, a);
    }
    forall id | id in s'.readers
      ensures ReaderInv(s'.cfg, s'.written, High(s'), s'.readers[id])
    {
      ReaderInvMonotone(s.cfg, s.written, High(s), s'.written, High(s'), s.readers[id]);
    }
  }

  /** The counters say how many messages were committed and how many the cursor has passed. */
  lemma CountersOf<T>(s: State<T>, rd: Reader<T>)
    requires Inv(s) && ReaderInv(s.cfg, s.written, High(s), rd)
    ensures s.writePtr == s.cfg.Counter(|s.written|) && rd.readPtr == s.cfg.Counter(rd.position)
    ensures rd.position <= |s.written|
    ensures rd.pc.RLoadedWrite? ==> rd.pc.w == s.cfg.Counter(rd.pc.seen) && rd.position <= rd.pc.seen <= |s.written|
    ensures rd.pc.RLoadedRead? ==> rd.pc.r == rd.readPtr && Complete(rd.pc.got, rd.pc.n)
  {
    hide RingKeeps, Captured, Intact, Delivered, Ascending;
    assert WriterInv(s) && CursorInv(s.cfg, s.written, rd) && ReaderPcInv(s.cfg, s.written, High(s), rd);
  }

  /**
   What a read decides, in messages: when it has loaded the write counter it is sent to reset its cursor if more than a
   ring's worth is pending, refused if fewer than n messages are, and else granted them; when it commits it is sent to
   reset if more than a ring's worth is pending by then, and else goes on to its store.
   */
  lemma ReadDecides<T>(s: State<T>, rd: Reader<T>)
    requires Inv(s) && ReaderInv(s.cfg, s.written, High(s), rd)
    ensures var pc, pc' := rd.pc, ReaderNext(s, rd, RStep).pc;
            && (pc.RBegin? ==> pc' == RLoadedWrite(pc.n, s.cfg.Counter(|s.written|), |s.written|))
            && (pc.RLoadedWrite? ==>
                  if rd.position + s.cfg.capacity < pc.seen then pc' == RReset(s.cfg.Counter(pc.seen), pc.seen)
                  else if pc.seen < rd.position + pc.n then pc' == RDone(false, [])
                  else pc'.RCopying? && pc'.n == pc.n && pc'.got == map[])
            && (pc.RLoadedRead? ==>
                  if rd.position + s.cfg.capacity < |s.written|
                  then pc' == RReset(s.cfg.Counter(|s.written|), |s.written|)
                  else pc'.RStore? && pc'.committed == |s.written| && pc'.open == Open(s.writer))
  {
    CountersOf(s, rd);
    hide Inv, ReaderInv, BeginRead, Overrun, Regions, Assemble, Complete;
    if rd.pc.RLoadedWrite? {
      BeginReadMeaning(s.cfg, rd.pc.seen, rd.position, rd.pc.n);
    } else if rd.pc.RLoadedRead? {
      OverrunMeaning(s.cfg, |s.written|, rd.position);
    }
  }

  /**
   What a write decides: the unsynchronized flavour refuses only what can never fit, the synchronized one also what does
   not fit into the room the reader has left by then; a write that fits is granted.
   */
  lemma WriteDecides<T>(s: State<T>)
    requires Inv(s)
    ensures var pc, pc', cap := s.writer, WriterNext(s, WStep).writer, s.cfg.capacity;
            && (pc.WBegin? && s.cfg.flavor.Unsynchronized? ==>
                  pc' == if |pc.data| > cap then WDone(false) else WFits(pc.data))
            && (pc.WBegin? && s.cfg.flavor.Synchronized? ==>
                  pc' == WLoadedWrite(pc.data, s.cfg.Counter(|s.written|)))
            && (pc.WLoadedWrite? && 0 in s.readers && |s.written| <= s.readers[0].position + cap ==>
                  pc' == if |s.written| + |pc.data| > s.readers[0].position + cap || |pc.data| > cap then WDone(false)
                         else WFits(pc.data))
            && (pc.WFits? ==> pc'.WCopying? && pc'.data == pc.data && pc'.done == {})
  {
    QuantumCountIsCapacity(s.cfg);
    if s.writer.WLoadedWrite? && 0 in s.readers && |s.written| <= s.readers[0].position + s.cfg.capacity {
      CountersOf(s, s.readers[0]);
      assert s.writer.w == s.writePtr by {
        assert WriterInv(s);
      }
      hide Inv, AvailableToWrite;
      AvailabilityMeaning(s.cfg, |s.written|, s.readers[0].position);
    } else {
      assert s.writePtr == s.cfg.Counter(|s.written|) by {
        assert WriterInv(s);
      }
      hide Inv, Regions, Misaligned, AvailableToWrite;
      CounterCell(s.cfg, |s.written|);
    }
  }

  /** A counter that locates no message: reads and writes are refused, and nothing moves. */
  lemma MisalignedRefused<T>(s: State<T>, rd: Reader<T>)
    requires s.writePtr >= 0 && rd.readPtr >= 0
    requires s.cfg.width.Bits64? ==> s.writePtr < TWO_TO_64 && rd.readPtr < TWO_TO_64
    ensures s.writer.WFits? && (forall k: nat :: s.cfg.Locates(k) ==> s.writePtr != s.cfg.Counter(k)) ==>
              WriterNext(s, WStep) == s.(writer := WDone(false))
    ensures rd.pc.RLoadedWrite? && (forall k: nat :: s.cfg.Locates(k) ==> rd.readPtr != s.cfg.Counter(k)) ==>
              ReaderNext(s, rd, RStep) == rd.(pc := RDone(false, []))
  {
    hide Regions, Lag;
    AlignedExactly(s.cfg, s.writePtr);
    AlignedExactly(s.cfg, rd.readPtr);
  }

  /** A reader that opens the queue starts at its first message, with nothing delivered and nothing skipped. */
  lemma JoinStarts<T>(s: State<T>, id: nat)
    requires s.cfg.flavor.Unsynchronized? && id !in s.readers
    ensures var s' := Next(s, Join(id));
            && id in s'.readers
            && s'.readers[id].readPtr == 0 && s'.readers[id].position == 0 && s'.readers[id].pc == RIdle
            && s'.readers[id].slices == [] && s'.readers[id].skipped == 0
            && s'.written == s.written && s'.writer == s.writer && s'.cfg == s.cfg
            && forall other | other in s.readers :: other in s'.readers && s'.readers[other] == s.readers[other]
  {
  }

  /** beginRead's decision. */
  lemma GrantStepKeeps<T>(s: State<T>, rd: Reader<T>)
    requires Inv(s) && ReaderInv(s.cfg, s.written, High(s), rd) && rd.pc.RLoadedWrite?
    ensures ReaderInv(s.cfg, s.written, High(s), ReaderNext(s, rd, RStep))
  {
    BeginReadMeaning(s.cfg, rd.pc.seen, rd.position, rd.pc.n);
  }

  /** A message copied while its cell is out of the writer's reach is the message of the history. */
  lemma CaptureStepKeeps<T>(s: State<T>, rd: Reader<T>, i: nat)
    requires Inv(s) && ReaderInv(s.cfg, s.written, High(s), rd) && rd.pc.RCopying?
    ensures ReaderInv(s.cfg, s.written, High(s), ReaderNext(s, rd, RCopy(i)))
  {
    if i < rd.pc.n {
      CyclicSlice(s.cfg, rd.position, rd.pc.n);
      assert GetSlot(rd.pc.tx, i) == Some((rd.position + i) % s.cfg.capacity);
      if High(s) <= rd.position + i + s.cfg.capacity {
        var k := rd.position + i;
        assert s.ring[k % s.cfg.capacity] == s.written[k];
      }
    }
  }

  /** commitRead's decision. */
  lemma CommitLoadKeeps<T>(s: State<T>, rd: Reader<T>)
    requires Inv(s) && ReaderInv(s.cfg, s.written, High(s), rd) && rd.pc.RLoadedRead?
    ensures ReaderInv(s.cfg, s.written, High(s), ReaderNext(s, rd, RStep))
  {
    OverrunMeaning(s.cfg, |s.written|, rd.position);
    CounterPlus(s.cfg, rd.position, rd.pc.n);
  }

  /** What the store that ends a successful read adds to the slices. */
  function Stored<T>(rd: Reader<T>): Slice<T>
    requires rd.pc.RStore?
  {
    Slice(rd.position, rd.pc.data, rd.pc.committed, rd.pc.open)
  }

  lemma StoreStep<T>(s: State<T>, rd: Reader<T>)
    requires rd.pc.RStore?
    ensures ReaderNext(s, rd, RStep) ==
            rd.(readPtr := rd.pc.r, pc := RDone(true, rd.pc.data), position := rd.position + |rd.pc.data|,
                slices := rd.slices + [Stored(rd)])
  {
  }

  /** The store that ends a successful read adds one slice. */
  lemma DeliverStepKeeps<T>(s: State<T>, rd: Reader<T>)
    requires Inv(s) && ReaderInv(s.cfg, s.written, High(s), rd) && rd.pc.RStore?
    ensures ReaderInv(s.cfg, s.written, High(s), ReaderNext(s, rd, RStep))
  {
    hide Inv, Intact, Delivered, High;
    var slice := Slice(rd.position, rd.pc.data, rd.pc.committed, rd.pc.open);
    assert slice.start + |slice.data| <= |s.written| by {
      IntactInside(s.cfg, s.written, slice);
    }
    DeliveredOneMore(rd.slices, slice);
  }

  lemma IntactInside<T>(cfg: Config, written: seq<T>, slice: Slice<T>)
    requires Intact(cfg, written, slice)
    ensures slice.start + |slice.data| <= |written|
  {
  }

  /** A reader's other steps move neither cursor nor copies, or reset the cursor to the counter that was loaded. */
  lemma ReaderPlainStep<T>(s: State<T>, rd: Reader<T>, a: ReaderAct)
    requires Inv(s) && ReaderInv(s.cfg, s.written, High(s), rd)
    requires !(rd.pc.RCopying? && a.RCopy?)
    requires a.RStep? ==> !rd.pc.RLoadedWrite? && !rd.pc.RLoadedRead? && !rd.pc.RStore?
    ensures ReaderInv(s.cfg, s.written, High(s), ReaderNext(s, rd, a))
  {
    assert s.writePtr == s.cfg.Counter(|s.written|) by {
      assert WriterInv(s);
    }
    hide Inv, High, Captured, Complete, Intact, Delivered;
  }

  lemma ReaderStepKeeps<T>(s: State<T>, rd: Reader<T>, a: ReaderAct)
    requires Inv(s) && ReaderInv(s.cfg, s.written, High(s), rd)
    ensures ReaderInv(s.cfg, s.written, High(s), ReaderNext(s, rd, a))
  {
    hide Inv, ReaderInv, ReaderNext, High;
    if a.RCopy? && rd.pc.RCopying? {
      CaptureStepKeeps(s, rd, a.i);
    } else if a.RStep? && rd.pc.RLoadedWrite? {
      GrantStepKeeps(s, rd);
    } else if a.RStep? && rd.pc.RLoadedRead? {
      CommitLoadKeeps(s, rd);
    } else if a.RStep? && rd.pc.RStore? {
      DeliverStepKeeps(s, rd);
    } else {
      ReaderPlainStep(s, rd, a);
    }
  }

  /** A reader's step changes only that reader. */
  lemma OnlyReader<T>(s: State<T>, id: nat, act: ReaderAct)
    ensures var s' := Next(s, Read(id, act));
            && s'.cfg == s.cfg && s'.written == s.written && s'.writer == s.writer && High(s') == High(s)
            && s'.readers.Keys == s.readers.Keys
            && (id in s.readers ==> s'.readers[id] == ReaderNext(s, s.readers[id], act))
            && forall other | other in s'.readers && other != id :: s'.readers[other] == s.readers[other]
  {
    hide ReaderNext;
  }

  /** Changing only the readers leaves ring and writer as they were. */
  lemma ReadersOnly<T>(s: State<T>, readers: map<nat, Reader<T>>)
    requires Inv(s)
    requires forall id | id in readers :: ReaderInv(s.cfg, s.written, High(s), readers[id])
    ensures Inv(s.(readers := readers)) && High(s.(readers := readers)) == High(s)
  {
    var s' := s.(readers := readers);
    assert RingKeeps(s');
    assert WriterInv(s') by {
      assert forall data: seq<T>, i: nat :: Placed(s', data, i) <==> Placed(s, data, i);
    }
  }

  lemma StepKeeps<T>(s: State<T>, a: Action<T>)
    requires Inv(s)
    ensures Inv(Next(s, a))
    ensures s.written <= Next(s, a).written && High(s) <= High(Next(s, a))
  {
    match a {
      case Write(act) =>
        WriterStepKeeps(s, act);
      case Read(id, act) =>
        if id in s.readers {
          ReaderStepKeeps(s, s.readers[id], act);
          ReadersOnly(s, Next(s, a).readers);
        }
      case Join(id) =>
        ReadersOnly(s, Next(s, a).readers);
    }
  }

  /** Every run, of any length and any interleaving, keeps the invariant and only extends the history. */
  lemma {:induction false} ExecKeeps<T>(s: State<T>, run: seq<Action<T>>)
    requires Inv(s)
    ensures Inv(Exec(s, run))
    ensures Exec(s, run).cfg == s.cfg && s.written <= Exec(s, run).written && High(s) <= High(Exec(s, run))
    decreases |run|
  {
    if run != [] {
      var before := run[..|run| - 1];
      ExecKeeps(s, before);
      StepKeeps(Exec(s, before), run[|run| - 1]);
    }
  }

  lemma RunKeeps<T>(cfg: Config, ring: seq<T>, run: seq<Action<T>>)
    requires |ring| == cfg.capacity && cfg.width.Unbounded?
    ensures Inv(Exec(Init(cfg, ring), run)) && Exec(Init(cfg, ring), run).cfg == cfg
  {
    ExecKeeps(Init(cfg, ring), run);
  }
}
