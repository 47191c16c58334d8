/**
 The synchronized flavour: one writer, one reader, both counters shared. In every interleaving
 the reader receives a prefix of what the writer committed.
 */
module SynchronizedQueue {
  import opened Prelude
  import opened Ring
  import opened QueueProtocol

  /** The only reader never meets an overrun, and what it received is the history up to its cursor. */
  ghost predicate SyncReader<T>(cfg: Config, written: seq<T>, high: nat, rd: Reader<T>) {
    && high <= rd.position + cfg.capacity
    && rd.position <= |written|
    && rd.skipped == 0
    && !rd.pc.RReset?
    && (rd.pc.RStore? ==> rd.pc.committed + rd.pc.open <= rd.position + cfg.capacity)
    && (forall slice | slice in rd.slices :: slice.OutOfReach(cfg))
    && Delivered(rd.slices) == written[..rd.position]
  }

  /** What the synchronized flavour adds to `Inv`. */
  ghost predicate SyncInv<T>(s: State<T>) {
    && Inv(s) && s.cfg.flavor.Synchronized?
    && s.readers.Keys == {0}
    && SyncReader(s.cfg, s.written, High(s), s.readers[0])
    && (s.writer.WFits? ==> |s.written| + |s.writer.data| <= s.readers[0].position + s.cfg.capacity)
  }

  /** A write is granted only into room the reader has left, and reaches no further. */
  lemma GrantedRoom<T>(s: State<T>, a: WriterAct<T>)
    requires SyncInv(s)
    ensures var s', end := WriterNext(s, a), s.readers[0].position + s.cfg.capacity;
            && High(s') <= end
            && (s'.writer.WFits? ==> |s'.written| + |s'.writer.data| <= end)
  {
    if s.writer.WLoadedWrite? && a.WStep? {
      LoadedRoom(s);
    } else {
      hide Inv, SyncReader;
      assert High(s) <= s.readers[0].position + s.cfg.capacity by {
        assert SyncReader(s.cfg, s.written, High(s), s.readers[0]);
      }
      RoomAsBefore(s, a);
    }
  }

  /** The availability test grants no more than there is. */
  lemma LoadedRoom<T>(s: State<T>)
    requires SyncInv(s) && s.writer.WLoadedWrite?
    ensures var s', end := WriterNext(s, WStep), s.readers[0].position + s.cfg.capacity;
            && High(s') <= end
            && (s'.writer.WFits? ==> |s'.written| + |s'.writer.data| <= end)
  {
    assert s.writer.w == s.writePtr == s.cfg.Counter(|s.written|) && |s.ring| == s.cfg.capacity by {
      assert WriterInv(s) && RingKeeps(s);
    }
    assert s.readers[0].readPtr == s.cfg.Counter(s.readers[0].position) by {
      assert CursorInv(s.cfg, s.written, s.readers[0]);
    }
    hide Inv, Delivered, AvailableToWrite;
    AvailabilityMeaning(s.cfg, |s.written|, s.readers[0].position);
  }

  /** The writer's other steps reach no further than the room it was granted. */
  lemma RoomAsBefore<T>(s: State<T>, a: WriterAct<T>)
    requires 0 in s.readers && s.cfg.flavor.Synchronized? && !(s.writer.WLoadedWrite? && a.WStep?)
    requires High(s) <= s.readers[0].position + s.cfg.capacity
    requires s.writer.WFits? ==> |s.written| + |s.writer.data| <= s.readers[0].position + s.cfg.capacity
    ensures var s', end := WriterNext(s, a), s.readers[0].position + s.cfg.capacity;
            && High(s') <= end
            && (s'.writer.WFits? ==> |s'.written| + |s'.writer.data| <= end)
  {
    hide GetSlot, Regions, Misaligned;
  }

  lemma WriterStepSync<T>(s: State<T>, a: WriterAct<T>)
    requires SyncInv(s)
    ensures SyncInv(Next(s, Write(a)))
  {
    hide Inv, WriterNext, High, Delivered;
    StepKeeps(s, Write(a));
    WriterFrame(s, a);
    GrantedRoom(s, a);
    var s', p := WriterNext(s, a), s.readers[0].position;
    assert s.written[..p] == s'.written[..p];
  }

  /** The slice about to be stored is intact, and was out of the writer's reach. */
  lemma StoredIntact<T>(s: State<T>)
    requires SyncInv(s) && s.readers[0].pc.RStore?
    ensures Intact(s.cfg, s.written, Stored(s.readers[0])) && Stored(s.readers[0]).OutOfReach(s.cfg)
  {
    hide RingKeeps, WriterInv, CursorInv, Intact, Delivered, High;
    assert ReaderPcInv(s.cfg, s.written, High(s), s.readers[0]);
  }

  /** Delivering an intact slice that starts where the delivered ones end delivers a longer piece of the history. */
  lemma DeliverNext<T>(cfg: Config, written: seq<T>, slices: seq<Slice<T>>, slice: Slice<T>)
    requires slice.start <= |written| && Delivered(slices) == written[..slice.start]
    requires Intact(cfg, written, slice) && slice.OutOfReach(cfg)
    requires forall x | x in slices :: x.OutOfReach(cfg)
    ensures slice.start + |slice.data| <= |written|
    ensures Delivered(slices + [slice]) == written[..slice.start + |slice.data|]
    ensures forall x | x in slices + [slice] :: x.OutOfReach(cfg)
  {
    SliceOfHistory(cfg, written, slice);
    hide Delivered;
    DeliveredOneMore(slices, slice);
    Adjoining(written, slice.start, slice.start + |slice.data|);
  }

  lemma Adjoining<T>(written: seq<T>, p: nat, end: nat)
    requires p <= end <= |written|
    ensures written[..p] + written[p..end] == written[..end]
  {
  }

  /** The store that ends a successful read delivers exactly the next messages of the history. */
  lemma DeliverSync<T>(s: State<T>)
    requires SyncInv(s) && s.readers[0].pc.RStore?
    ensures SyncReader(s.cfg, s.written, High(s), ReaderNext(s, s.readers[0], RStep))
  {
    hide Inv, High, Intact, Delivered, ReaderNext;
    StoredIntact(s);
    StoreStep(s, s.readers[0]);
    DeliverNext(s.cfg, s.written, s.readers[0].slices, Stored(s.readers[0]));
  }

  /** The reader is never sent to reset its cursor. */
  lemma NoReset<T>(s: State<T>, a: ReaderAct)
    requires SyncInv(s)
    ensures var rd := ReaderNext(s, s.readers[0], a);
            && !rd.pc.RReset?
            && (rd.pc.RStore? ==> rd.pc.committed + rd.pc.open <= rd.position + s.cfg.capacity)
  {
    var pc := s.readers[0].pc;
    if a.RStep? && pc.RLoadedWrite? {
      GrantNoReset(s);
    } else if a.RStep? && pc.RLoadedRead? {
      CommitNoReset(s);
    } else {
      hide Inv, Delivered, Complete, GetSlot;
    }
  }

  /** beginRead finds no more than a ring's worth, as counted when it loaded the write counter. */
  lemma GrantNoReset<T>(s: State<T>)
    requires SyncInv(s) && s.readers[0].pc.RLoadedWrite?
    ensures var rd := ReaderNext(s, s.readers[0], RStep); !rd.pc.RReset? && !rd.pc.RStore?
  {
    var rd := s.readers[0];
    assert rd.readPtr == s.cfg.Counter(rd.position) by {
      assert CursorInv(s.cfg, s.written, rd);
    }
    assert ReaderPcInv(s.cfg, s.written, High(s), rd);
    assert |s.written| <= rd.position + s.cfg.capacity;
    hide SyncInv, ReaderPcInv, BeginRead, Regions;
    BeginReadMeaning(s.cfg, rd.pc.seen, rd.position, rd.pc.n);
  }

  /** So does commitRead. */
  lemma CommitNoReset<T>(s: State<T>)
    requires SyncInv(s) && s.readers[0].pc.RLoadedRead?
    ensures var rd := ReaderNext(s, s.readers[0], RStep);
            && !rd.pc.RReset?
            && (rd.pc.RStore? ==> rd.pc.committed + rd.pc.open <= rd.position + s.cfg.capacity)
  {
    var rd := s.readers[0];
    assert rd.pc.r == s.cfg.Counter(rd.position) && s.writePtr == s.cfg.Counter(|s.written|) by {
      assert CursorInv(s.cfg, s.written, rd) && WriterInv(s);
      assert ReaderPcInv(s.cfg, s.written, High(s), rd);
    }
    assert |s.written| + Open(s.writer) <= rd.position + s.cfg.capacity && rd.position <= |s.written|;
    hide SyncInv, Overrun, Complete, Assemble;
    OverrunMeaning(s.cfg, |s.written|, rd.position);
  }

  /** No step of the reader meets an overrun. */
  lemma ReaderAdvances<T>(s: State<T>, a: ReaderAct)
    requires SyncInv(s)
    ensures SyncReader(s.cfg, s.written, High(s), ReaderNext(s, s.readers[0], a))
    ensures s.readers[0].position <= ReaderNext(s, s.readers[0], a).position
  {
    hide Inv, Delivered, BeginRead, Overrun, Assemble, Complete, GetSlot;
    NoReset(s, a);
    if s.readers[0].pc.RStore? && a.RStep? {
      DeliverSync(s);
    }
  }

  lemma ReaderStepSync<T>(s: State<T>, a: ReaderAct)
    requires SyncInv(s)
    ensures SyncInv(Next(s, Read(0, a)))
  {
    StepKeeps(s, Read(0, a));
    ReaderAdvances(s, a);
  }

  lemma StepSync<T>(s: State<T>, a: Action<T>)
    requires SyncInv(s)
    ensures SyncInv(Next(s, a))
  {
    match a {
      case Write(act) => WriterStepSync(s, act);
      case Read(id, act) =>
        if id == 0 {
          ReaderStepSync(s, act);
        }
      case Join(id) =>
    }
  }

  lemma {:induction false} RunSync<T>(cfg: Config, ring: seq<T>, run: seq<Action<T>>)
    requires |ring| == cfg.capacity && cfg.width.Unbounded? && cfg.flavor.Synchronized?
    ensures SyncInv(Exec(Init(cfg, ring), run))
    ensures Exec(Init(cfg, ring), run).cfg == cfg
  {
    RunKeeps(cfg, ring, run);
    if run != [] {
      var before := run[..|run| - 1];
      RunSync(cfg, ring, before);
      StepSync(Exec(Init(cfg, ring), before), run[|run| - 1]);
    }
  }

  // ----- main results -----

  /**
   What successful reads returned, end to end, is a prefix of what successful writes supplied, end to end; the
   counters say how long the two are, and every message not yet read is intact in its ring cell.
   */
  ghost predicate Fifo<T>(s: State<T>) {
    && 0 in s.readers
    && Delivered(s.readers[0].slices) <= s.written
    && s.readers[0].readPtr == s.cfg.quantum * |Delivered(s.readers[0].slices)|
    && s.writePtr == s.cfg.quantum * |s.written|
    && |s.ring| == s.cfg.capacity
    && forall k: nat | |Delivered(s.readers[0].slices)| <= k < |s.written| ::
         s.ring[k % s.cfg.capacity] == s.written[k]
  }

  /** Concurrent FIFO, after any run. */
  lemma ConcurrentFifo<T>(cfg: Config, ring: seq<T>, run: seq<Action<T>>)
    requires |ring| == cfg.capacity && cfg.width.Unbounded? && cfg.flavor.Synchronized?
    ensures Fifo(Exec(Init(cfg, ring), run))
  {
    RunSync(cfg, ring, run);
  }

  /** The byte counters are at most one ring apart, also once the open write is stored. */
  lemma BoundsOf<T>(s: State<T>)
    requires SyncInv(s)
    ensures s.readers[0].readPtr <= s.writePtr <= s.readers[0].readPtr + s.cfg.Size()
    ensures s.writer.WStore? ==> s.writer.w <= s.readers[0].readPtr + s.cfg.Size()
  {
    assert CursorInv(s.cfg, s.written, s.readers[0]);
    ScaledLap(s.cfg, s.readers[0].position, |s.written|);
    ScaledLap(s.cfg, s.readers[0].position, High(s));
  }

  /** The counters are ordered and within a ring of each other, also once the open write is stored; nothing is reset. */
  ghost predicate Bounded<T>(s: State<T>) {
    && 0 in s.readers
    && s.readers[0].readPtr <= s.writePtr <= s.readers[0].readPtr + s.cfg.Size()
    && (s.writer.WStore? ==> s.writer.w <= s.readers[0].readPtr + s.cfg.Size())
    && !s.readers[0].pc.RReset?
  }

  /** So they are in any reachable state, and its overflow-reset branches are never taken. */
  lemma CounterBounds<T>(cfg: Config, ring: seq<T>, run: seq<Action<T>>)
    requires |ring| == cfg.capacity && cfg.width.Unbounded? && cfg.flavor.Synchronized?
    ensures Bounded(Exec(Init(cfg, ring), run))
  {
    RunSync(cfg, ring, run);
    BoundsOf(Exec(Init(cfg, ring), run));
  }

  /** Slot i of the open write is neither the cell of unread message k nor that of a message being copied out. */
  lemma ApartAt<T>(s: State<T>, i: nat, k: nat)
    requires SyncInv(s) && s.writer.WCopying? && i < |s.writer.data|
    requires s.readers[0].position <= k < |s.written|
    ensures GetSlot(s.writer.tx, i).Some? && GetSlot(s.writer.tx, i).value != k % s.cfg.capacity
    ensures s.readers[0].pc.RCopying? && k - s.readers[0].position < s.readers[0].pc.n ==>
              GetSlot(s.readers[0].pc.tx, k - s.readers[0].position) == Some(k % s.cfg.capacity)
  {
    ReaderCell(s, k);
    assert |s.written| + |s.writer.data| <= s.readers[0].position + s.cfg.capacity;
    assert s.writer.tx == Regions(s.cfg, s.cfg.Counter(|s.written|), |s.writer.data|) by {
      assert WriterInv(s);
    }
    hide SyncInv, Regions, GetSlot;
    CyclicSlice(s.cfg, |s.written|, |s.writer.data|);
    LapDistinct(k, |s.written| + i, s.cfg.capacity);
  }

  /** Where the reader copies message k from. */
  lemma ReaderCell<T>(s: State<T>, k: nat)
    requires SyncInv(s) && s.readers[0].position <= k < |s.written|
    ensures s.readers[0].pc.RCopying? && k - s.readers[0].position < s.readers[0].pc.n ==>
              GetSlot(s.readers[0].pc.tx, k - s.readers[0].position) == Some(k % s.cfg.capacity)
  {
    var rd := s.readers[0];
    if rd.pc.RCopying? {
      assert ReaderPcInv(s.cfg, s.written, High(s), rd) && rd.pc.n <= s.cfg.capacity;
      assert rd.readPtr == s.cfg.Counter(rd.position) by {
        assert CursorInv(s.cfg, s.written, rd);
      }
      hide SyncInv, Captured, Regions, GetSlot;
      CyclicSlice(s.cfg, rd.position, rd.pc.n);
    }
  }

  /**
   The cells an open write may fill are none of the cells of unread messages and none of those being
   copied by the reader, although each side granted its transaction on a stale view of the other.
   */
  ghost predicate CellsApart<T>(s: State<T>)
    requires s.writer.WCopying?
  {
    && 0 in s.readers
    && forall i: nat | i < |s.writer.data| ::
         && (forall k: nat | |Delivered(s.readers[0].slices)| <= k < |s.written| ::
               GetSlot(s.writer.tx, i) != Some(k % s.cfg.capacity))
         && (s.readers[0].pc.RCopying? ==>
               forall j: nat | j < s.readers[0].pc.n :: GetSlot(s.writer.tx, i) != GetSlot(s.readers[0].pc.tx, j))
  }

  lemma WriterAndReaderCellsApart<T>(cfg: Config, ring: seq<T>, run: seq<Action<T>>)
    requires |ring| == cfg.capacity && cfg.width.Unbounded? && cfg.flavor.Synchronized?
    requires Exec(Init(cfg, ring), run).writer.WCopying?
    ensures CellsApart(Exec(Init(cfg, ring), run))
  {
    RunSync(cfg, ring, run);
    var s := Exec(Init(cfg, ring), run);
    hide Exec, Init, GetSlot;
    forall i: nat | i < |s.writer.data|
      ensures forall k: nat | |Delivered(s.readers[0].slices)| <= k < |s.written| ::
                GetSlot(s.writer.tx, i) != Some(k % s.cfg.capacity)
      ensures s.readers[0].pc.RCopying? ==>
                forall j: nat | j < s.readers[0].pc.n :: GetSlot(s.writer.tx, i) != GetSlot(s.readers[0].pc.tx, j)
    {
      SlotApart(s, i);
    }
  }

  /** One slot of the open write. */
  lemma SlotApart<T>(s: State<T>, i: nat)
    requires SyncInv(s) && s.writer.WCopying? && i < |s.writer.data|
    ensures forall k: nat | |Delivered(s.readers[0].slices)| <= k < |s.written| ::
              GetSlot(s.writer.tx, i) != Some(k % s.cfg.capacity)
    ensures s.readers[0].pc.RCopying? ==>
              forall j: nat | j < s.readers[0].pc.n :: GetSlot(s.writer.tx, i) != GetSlot(s.readers[0].pc.tx, j)
  {
    var rd := s.readers[0];
    assert |Delivered(rd.slices)| == rd.position && 0 < s.cfg.capacity;
    assert rd.pc.RCopying? ==> rd.position + rd.pc.n <= |s.written| by {
      assert ReaderPcInv(s.cfg, s.written, High(s), rd);
    }
    hide SyncInv, GetSlot, Delivered;
    forall k: nat | rd.position <= k < |s.written|
      ensures GetSlot(s.writer.tx, i) != Some(k % s.cfg.capacity)
    {
      ApartAt(s, i, k);
    }
    if rd.pc.RCopying? {
      forall j: nat | j < rd.pc.n
        ensures GetSlot(s.writer.tx, i) != GetSlot(rd.pc.tx, j)
      {
        ApartAt(s, i, rd.position + j);
      }
    }
  }
}
