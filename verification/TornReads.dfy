/**
 The documentation of commitRead says that it fails if a write overflow happened after beginRead. It sees only
 committed writes, so this is not so; here is exactly when a read that returned true can be relied on.
 */
module TornReads {
  import opened Prelude
  import opened Ring
  import opened QueueProtocol
  import U = UnsynchronizedQueue

  // ----- reachable states -----

  ghost predicate Reachable<T(!new)>(cfg: Config, ring: seq<T>, s: State<T>)
    requires |ring| == cfg.capacity
  {
    exists run :: Exec(Init(cfg, ring), run) == s
  }

  /** No read asks for more than the queue holds. */
  ghost predicate Modest<T>(cfg: Config, run: seq<Action<T>>) {
    forall a | a in run && a.Read? && a.readerAct.RStart? :: a.readerAct.n <= cfg.capacity
  }

  /** Reachable by a run with such reads only. */
  ghost predicate Reached<T(!new)>(cfg: Config, ring: seq<T>, s: State<T>)
    requires |ring| == cfg.capacity
  {
    exists run :: Modest(cfg, run) && Exec(Init(cfg, ring), run) == s
  }

  lemma ReachedReachable<T(!new)>(cfg: Config, ring: seq<T>, s: State<T>)
    requires |ring| == cfg.capacity && Reached(cfg, ring, s)
    ensures Reachable(cfg, ring, s)
  {
    var run :| Modest(cfg, run) && Exec(Init(cfg, ring), run) == s;
  }

  lemma Reach<T(!new)>(cfg: Config, ring: seq<T>, s: State<T>, a: Action<T>) returns (s': State<T>)
    requires |ring| == cfg.capacity && cfg.width.Unbounded? && Reached(cfg, ring, s)
    requires a.Read? && a.readerAct.RStart? ==> a.readerAct.n <= cfg.capacity
    ensures s' == Next(s, a) && Reached(cfg, ring, s') && Inv(s) && Inv(s') && s.cfg == s'.cfg == cfg
  {
    var run :| Modest(cfg, run) && Exec(Init(cfg, ring), run) == s;
    s' := Next(s, a);
    assert (run + [a])[..|run|] == run;
    assert Modest(cfg, run + [a]);
    assert Exec(Init(cfg, ring), run + [a]) == s';
    RunKeeps(cfg, ring, run);
    RunKeeps(cfg, ring, run + [a]);
  }

  /** Only the writer has moved, or only reader 0 has. */
  ghost predicate WriterMoved<T>(s: State<T>, s': State<T>) {
    s'.readers == s.readers && s'.cfg == s.cfg
  }

  ghost predicate ReaderMoved<T>(s: State<T>, s': State<T>) {
    && s'.cfg == s.cfg && s'.ring == s.ring && s'.writePtr == s.writePtr && s'.writer == s.writer
    && s'.written == s.written
    && 0 in s'.readers
  }

  ghost predicate Copied(done: set<nat>, m: nat) {
    forall i: nat | i < m :: i in done
  }

  lemma CopiedOneMore(done: set<nat>, m: nat)
    requires Copied(done, m)
    ensures Copied(done + {m}, m + 1)
  {
  }

  /** Every message of the open write is in the ring. */
  ghost predicate AllCopied<T>(s: State<T>, data: seq<T>) {
    s.writer.WCopying? && s.writer.data == data && Copied(s.writer.done, |data|)
  }

  // ----- the writer, alone -----

  lemma PlaceOne<T>(s: State<T>, i: nat)
    requires Inv(s) && s.writer.WCopying? && i < |s.writer.data|
    ensures var s' := WriterNext(s, WCopy(i));
            WriterMoved(s, s') && s'.written == s.written && s'.writer == s.writer.(done := s.writer.done + {i})
  {
    var data := s.writer.data;
    assert |s.ring| == s.cfg.capacity && |data| <= s.cfg.capacity
           && s.writer.tx == Regions(s.cfg, s.cfg.Counter(|s.written|), |data|) by {
      assert WriterInv(s) && RingKeeps(s);
    }
    hide Inv, Regions, GetSlot;
    CyclicSlice(s.cfg, |s.written|, |data|);
    assert GetSlot(s.writer.tx, i).Some?;
  }

  lemma {:induction false} CopyUpTo<T(!new)>(cfg: Config, ring: seq<T>, s: State<T>, m: nat) returns (s': State<T>)
    requires |ring| == cfg.capacity && cfg.width.Unbounded? && Reached(cfg, ring, s)
    requires s.writer.WCopying? && m <= |s.writer.data|
    ensures Reached(cfg, ring, s') && WriterMoved(s, s') && s'.written == s.written
    ensures s'.writer.WCopying? && s'.writer.data == s.writer.data && Copied(s'.writer.done, m)
    decreases m
  {
    s' := s;
    if m > 0 {
      hide Reached, WriterNext, Inv, Copied;
      var before := CopyUpTo(cfg, ring, s, m - 1);
      s' := Reach(cfg, ring, before, Write(WCopy(m - 1)));
      PlaceOne(before, m - 1);
      CopiedOneMore(before.writer.done, m - 1);
    }
  }

  /** A write of data is granted and copied, but not committed. */
  lemma WriteOpens<T(!new)>(cfg: Config, ring: seq<T>, s: State<T>, data: seq<T>) returns (s': State<T>)
    requires |ring| == cfg.capacity && cfg.width.Unbounded? && cfg.flavor.Unsynchronized? && Reached(cfg, ring, s)
    requires s.writer.WIdle? && |data| <= cfg.capacity
    ensures Reached(cfg, ring, s') && WriterMoved(s, s') && s'.written == s.written && AllCopied(s', data)
  {
    hide Inv, Reached;
    QuantumCountIsCapacity(cfg);
    s' := Reach(cfg, ring, s, Write(WStart(data)));
    s' := Reach(cfg, ring, s', Write(WStep));
    assert s'.writer == WFits(data);
    assert !Misaligned(cfg, s'.writePtr) by {
      assert WriterInv(s');
      CounterCell(cfg, |s'.written|);
    }
    s' := Reach(cfg, ring, s', Write(WStep));
    s' := CopyUpTo(cfg, ring, s', |data|);
  }

  lemma WriteCommits<T(!new)>(cfg: Config, ring: seq<T>, s: State<T>, data: seq<T>) returns (s': State<T>)
    requires |ring| == cfg.capacity && cfg.width.Unbounded? && Reached(cfg, ring, s) && AllCopied(s, data)
    ensures Reached(cfg, ring, s') && WriterMoved(s, s') && s'.written == s.written + data && s'.writer.WIdle?
  {
    hide Inv, Reached;
    s' := Reach(cfg, ring, s, Write(WStep));
    s' := Reach(cfg, ring, s', Write(WStep));
    s' := Reach(cfg, ring, s', Write(WStep));
    s' := Reach(cfg, ring, s', Write(WReturn));
  }

  // ----- the reader, alone -----

  /** A read of n messages is granted. */
  lemma ReadOpens<T(!new)>(cfg: Config, ring: seq<T>, s: State<T>, n: nat) returns (s': State<T>)
    requires |ring| == cfg.capacity && cfg.width.Unbounded? && Reached(cfg, ring, s) && 0 in s.readers
    requires s.readers[0].pc.RIdle?
    requires s.readers[0].position + n <= |s.written| <= s.readers[0].position + cfg.capacity
    ensures Reached(cfg, ring, s') && ReaderMoved(s, s')
    ensures s'.readers[0] ==
            s.readers[0].(pc := RCopying(n, Regions(cfg, cfg.Counter(s.readers[0].position), n), map[]))
  {
    var rd := s.readers[0];
    Cursors(cfg, ring, s);
    hide Reached, BeginRead, Regions;
    BeginReadMeaning(cfg, |s.written|, rd.position, n);
    s' := ReaderStep(cfg, ring, s, RStart(n), rd.(pc := RBegin(n)));
    s' := ReaderStep(cfg, ring, s', RStep, rd.(pc := RLoadedWrite(n, s.writePtr, |s.written|)));
    s' := ReaderStep(cfg, ring, s', RStep, rd.(pc := RCopying(n, Regions(cfg, cfg.Counter(rd.position), n), map[])));
  }

  /** The counters say where the reader and the writer are. */
  lemma Cursors<T(!new)>(cfg: Config, ring: seq<T>, s: State<T>)
    requires |ring| == cfg.capacity && cfg.width.Unbounded? && Reached(cfg, ring, s) && 0 in s.readers
    ensures s.cfg == cfg && s.writePtr == cfg.Counter(|s.written|)
    ensures s.readers[0].readPtr == cfg.Counter(s.readers[0].position)
  {
    var _ := Reach(cfg, ring, s, Read(0, RReturn));
    assert ReaderInv(s.cfg, s.written, High(s), s.readers[0]) && WriterInv(s);
  }

  lemma SlotCell(cfg: Config, p: nat, n: nat, j: nat)
    requires cfg.width.Unbounded? && j < n <= cfg.capacity
    ensures GetSlot(Regions(cfg, cfg.Counter(p), n), j) == Some((p + j) % cfg.capacity)
    ensures (p + j) % cfg.capacity < cfg.capacity
  {
    CyclicSlice(cfg, p, n);
  }

  lemma CopyOne<T>(s: State<T>, rd: Reader<T>, i: nat, cell: nat)
    requires rd.pc.RCopying? && i < rd.pc.n && GetSlot(rd.pc.tx, i) == Some(cell) && cell < |s.ring|
    ensures ReaderNext(s, rd, RCopy(i)) == rd.(pc := RCopying(rd.pc.n, rd.pc.tx, rd.pc.got[i := s.ring[cell]]))
  {
  }

  /** The first m messages got are those of the ring's cells from p on. */
  ghost predicate Got<T(!new)>(got: map<nat, T>, ring: seq<T>, p: nat, m: nat) {
    |ring| > 0 && forall j: nat | j < m :: j in got && got[j] == ring[(p + j) % |ring|]
  }

  lemma GotOneMore<T(!new)>(got: map<nat, T>, ring: seq<T>, p: nat, m: nat)
    requires Got(got, ring, p, m)
    ensures Got(got[m := ring[(p + m) % |ring|]], ring, p, m + 1)
  {
  }

  /** Reader 0 has copied its first m messages since s0, and nothing else has moved. */
  ghost predicate Reading<T(!new)>(s0: State<T>, s: State<T>, n: nat, m: nat) {
    && ReaderMoved(s0, s) && 0 in s0.readers && s0.readers[0].pc.RCopying? && s.readers[0].pc.RCopying?
    && s.readers[0] == s0.readers[0].(pc := RCopying(n, s0.readers[0].pc.tx, s.readers[0].pc.got))
    && Got(s.readers[0].pc.got, s0.ring, s0.readers[0].position, m)
  }

  lemma ReadsOne<T(!new)>(cfg: Config, ring: seq<T>, s0: State<T>, s: State<T>, n: nat, m: nat) returns (s': State<T>)
    requires |ring| == cfg.capacity && cfg.width.Unbounded? && Reached(cfg, ring, s) && Reading(s0, s, n, m)
    requires m < n <= cfg.capacity == |s0.ring|
    requires s0.readers[0].pc.tx == Regions(cfg, cfg.Counter(s0.readers[0].position), n)
    ensures Reached(cfg, ring, s') && Reading(s0, s', n, m + 1)
  {
    hide Inv, Reached, Regions, GetSlot, ReaderNext, Got;
    var rd, cell := s.readers[0], (s0.readers[0].position + m) % cfg.capacity;
    SlotCell(cfg, s0.readers[0].position, n, m);
    GotOneMore(rd.pc.got, s0.ring, s0.readers[0].position, m);
    CopyOne(s, rd, m, cell);
    s' := ReaderStep(cfg, ring, s, RCopy(m), rd.(pc := RCopying(n, rd.pc.tx, rd.pc.got[m := s0.ring[cell]])));
  }

  /** Its first m messages are copied from the ring as it stands. */
  lemma {:induction false} ReadCopies<T(!new)>(cfg: Config, ring: seq<T>, s: State<T>, n: nat, m: nat)
    returns (s': State<T>)
    requires |ring| == cfg.capacity && cfg.width.Unbounded? && Reached(cfg, ring, s) && 0 in s.readers
    requires m <= n <= cfg.capacity == |s.ring|
    requires s.readers[0].pc == RCopying(n, Regions(cfg, cfg.Counter(s.readers[0].position), n), map[])
    ensures Reached(cfg, ring, s') && Reading(s, s', n, m)
    decreases m
  {
    s' := s;
    if m > 0 {
      hide Reached, Regions, Reading;
      s' := ReadCopies(cfg, ring, s, n, m - 1);
      s' := ReadsOne(cfg, ring, s, s', n, m - 1);
    }
  }

  /** It is committed while the write counter is in range, and returns true. */
  lemma ReadCommits<T(!new)>(cfg: Config, ring: seq<T>, s: State<T>) returns (s': State<T>)
    requires |ring| == cfg.capacity && cfg.width.Unbounded? && Reached(cfg, ring, s) && 0 in s.readers
    requires s.readers[0].pc.RCopying? && Complete(s.readers[0].pc.got, s.readers[0].pc.n)
    requires s.readers[0].position <= |s.written| <= s.readers[0].position + cfg.capacity
    ensures Reached(cfg, ring, s') && ReaderMoved(s, s')
    ensures var rd, rd', n := s.readers[0], s'.readers[0], s.readers[0].pc.n;
            && rd'.pc.RIdle? && rd'.position == rd.position + n
            && rd'.slices == rd.slices + [Slice(rd.position, Assemble(rd.pc.got, n), |s.written|, Open(s.writer))]
  {
    var rd := s.readers[0];
    var data := Assemble(rd.pc.got, rd.pc.n);
    hide Reached, Complete, Assemble, ReaderNext;
    var next;
    s', next := ReadPasses(cfg, ring, s);
    s' := ReadStores(cfg, ring, s', rd, Slice(rd.position, data, |s.written|, Open(s.writer)), next);
  }

  /** commitRead up to its store. */
  lemma ReadPasses<T(!new)>(cfg: Config, ring: seq<T>, s: State<T>) returns (s': State<T>, next: int)
    requires |ring| == cfg.capacity && cfg.width.Unbounded? && Reached(cfg, ring, s) && 0 in s.readers
    requires s.readers[0].pc.RCopying? && Complete(s.readers[0].pc.got, s.readers[0].pc.n)
    requires s.readers[0].position <= |s.written| <= s.readers[0].position + cfg.capacity
    ensures Reached(cfg, ring, s') && ReaderMoved(s, s')
    ensures var rd := s.readers[0];
            s'.readers[0] == rd.(pc := RStore(Assemble(rd.pc.got, rd.pc.n), next, |s.written|, Open(s.writer)))
  {
    var rd := s.readers[0];
    var n, got, r := rd.pc.n, rd.pc.got, rd.readPtr;
    Cursors(cfg, ring, s);
    hide Reached, Complete, Assemble, Overrun;
    OverrunMeaning(cfg, |s.written|, rd.position);
    next := cfg.Trim(r + n * cfg.quantum);
    s' := ReaderStep(cfg, ring, s, RStep, rd.(pc := RCommit(n, got)));
    s' := ReaderStep(cfg, ring, s', RStep, rd.(pc := RLoadedRead(n, got, r)));
    s' := ReaderStep(cfg, ring, s', RStep, rd.(pc := RStore(Assemble(got, n), next, |s.written|, Open(s.writer))));
  }

  /** The store and the return. */
  lemma ReadStores<T(!new)>(cfg: Config, ring: seq<T>, s: State<T>, rd: Reader<T>, slice: Slice<T>, next: int)
    returns (s': State<T>)
    requires |ring| == cfg.capacity && cfg.width.Unbounded? && Reached(cfg, ring, s) && 0 in s.readers
    requires slice.start == rd.position
    requires s.readers[0] == rd.(pc := RStore(slice.data, next, slice.committed, slice.open))
    ensures Reached(cfg, ring, s') && ReaderMoved(s, s')
    ensures s'.readers[0].pc.RIdle? && s'.readers[0].position == rd.position + |slice.data|
    ensures s'.readers[0].slices == rd.slices + [slice]
  {
    hide Reached;
    var done := rd.(readPtr := next, position := rd.position + |slice.data|, slices := rd.slices + [slice]);
    s' := ReaderStep(cfg, ring, s, RStep, done.(pc := RDone(true, slice.data)));
    s' := ReaderStep(cfg, ring, s', RReturn, done.(pc := RIdle));
  }

  lemma ReaderStep<T(!new)>(cfg: Config, ring: seq<T>, s: State<T>, a: ReaderAct, rd: Reader<T>) returns (s': State<T>)
    requires |ring| == cfg.capacity && cfg.width.Unbounded? && Reached(cfg, ring, s) && 0 in s.readers
    requires ReaderNext(s, s.readers[0], a) == rd && (a.RStart? ==> a.n <= cfg.capacity)
    ensures Reached(cfg, ring, s') && ReaderMoved(s, s') && s'.readers[0] == rd && s.cfg == cfg
  {
    hide ReaderNext, Reached, Inv;
    s' := Reach(cfg, ring, s, Read(0, a));
  }

  // ----- the torn read -----

  /** Both sides idle, k zeros written, the reader's cursor at p. */
  ghost predicate Quiet(cfg: Config, ring: seq<int>, s: State<int>, k: nat, p: nat)
    requires |ring| == cfg.capacity
  {
    && Reached(cfg, ring, s) && s.writer.WIdle? && s.written == seq(k, _ => 0)
    && 0 in s.readers && s.readers[0].pc.RIdle? && s.readers[0].position == p
  }

  lemma WriteZero(cfg: Config, ring: seq<int>, s: State<int>, k: nat, p: nat) returns (s': State<int>)
    requires |ring| == cfg.capacity && cfg.width.Unbounded? && cfg.flavor.Unsynchronized? && Quiet(cfg, ring, s, k, p)
    ensures Quiet(cfg, ring, s', k + 1, p)
  {
    hide Reached;
    s' := WriteOpens(cfg, ring, s, [0]);
    s' := WriteCommits(cfg, ring, s', [0]);
  }

  lemma ReadOne(cfg: Config, ring: seq<int>, s: State<int>, k: nat, p: nat) returns (s': State<int>)
    requires |ring| == cfg.capacity && cfg.width.Unbounded? && Quiet(cfg, ring, s, k, p) && p < k <= p + cfg.capacity
    ensures Quiet(cfg, ring, s', k, p + 1)
  {
    s' := ReadOpens(cfg, ring, s, 1);
    var _ := Reach(cfg, ring, s', Read(0, RReturn));
    s' := ReadCopies(cfg, ring, s', 1, 1);
    hide Reached;
    s' := ReadCommits(cfg, ring, s');
  }

  /** The reader follows the writer to p; then the writer goes on to k. */
  lemma {:induction false} Arrive(cfg: Config, ring: seq<int>, k: nat, p: nat) returns (s: State<int>)
    requires |ring| == cfg.capacity && cfg.width.Unbounded? && cfg.flavor.Unsynchronized? && p <= k
    ensures Quiet(cfg, ring, s, k, p)
    decreases k + p
  {
    if k > p {
      s := Arrive(cfg, ring, k - 1, p);
      s := WriteZero(cfg, ring, s, k - 1, p);
    } else if p > 0 {
      s := Arrive(cfg, ring, k, p - 1);
      s := ReadOne(cfg, ring, s, k, p - 1);
    } else {
      var none: seq<Action<int>> := [];
      assert Modest(cfg, none) && Exec(Init(cfg, ring), none) == Init(cfg, ring);
      s := Reach(cfg, ring, Init(cfg, ring), Join(0));
    }
  }

  /** The reader is granted its messages, the writer overwrites the first of them, the reader copies and commits. */
  lemma Tear(cfg: Config, ring: seq<int>, start: nat, n: nat, committed: nat, open: nat) returns (s: State<int>)
    requires |ring| == cfg.capacity && cfg.width.Unbounded? && cfg.flavor.Unsynchronized?
    requires 1 <= n && start + n <= committed <= start + cfg.capacity < committed + open && open <= cfg.capacity
    ensures Reached(cfg, ring, s) && 0 in s.readers && s.readers[0].slices != []
            && s.written == seq(committed, _ => 0) && Open(s.writer) == open && s.cfg == cfg
    ensures var slice := s.readers[0].slices[|s.readers[0].slices| - 1];
            && slice.start == start && |slice.data| == n && slice.data[0] == 1
            && slice.committed == committed && slice.open == open
  {
    s := Arrive(cfg, ring, committed, start);
    s := ReadOpens(cfg, ring, s, n);
    s := WriteOpens(cfg, ring, s, seq(open, _ => 1));
    Overwritten(cfg, ring, s, seq(open, _ => 1), start);
    hide Reached, AllCopied, Regions, Open;
    s := ReadCopies(cfg, ring, s, n, n);
    s := ReadCommits(cfg, ring, s);
  }

  /** The message one lap after `start` has replaced it in its cell. */
  lemma Overwritten<T(!new)>(cfg: Config, ring: seq<T>, s: State<T>, data: seq<T>, start: nat)
    requires |ring| == cfg.capacity && cfg.width.Unbounded? && Reached(cfg, ring, s) && AllCopied(s, data)
    requires |s.written| <= start + cfg.capacity < |s.written| + |data|
    ensures |s.ring| == cfg.capacity && s.ring[start % cfg.capacity] == data[start + cfg.capacity - |s.written|]
    ensures Open(s.writer) == |data| && s.cfg == cfg
  {
    hide Reached, Inv, AllCopied;
    var _ := Reach(cfg, ring, s, Read(0, RReturn));
    PlacedWhenCopied(s, data, start + cfg.capacity - |s.written|);
    ModOfLap(start, cfg.capacity);
  }

  lemma PlacedWhenCopied<T>(s: State<T>, data: seq<T>, i: nat)
    requires Inv(s) && AllCopied(s, data) && i < |data|
    ensures Placed(s, data, i) && Open(s.writer) == |data|
  {
    hide RingKeeps, Placed, ReaderInv;
    assert WriterInv(s) && i in s.writer.done;
  }

  lemma ModOfLap(x: nat, d: nat)
    requires d > 0
    ensures (x + d) % d == x % d
  {
    assert x == x / d * d + x % d;
    DivModUnique(x + d, d, x / d + 1, x % d);
  }

  /**
   Whatever run: a read that returned true with these cursor, size and, when commitRead loaded the write counter, these
   numbers of messages committed and open, returned the history.
   */
  ghost predicate ReturnsHistory(cfg: Config, ring: seq<int>, start: nat, n: nat, committed: nat, open: nat)
    requires |ring| == cfg.capacity
  {
    forall s: State<int>, id: nat, i: nat | Reachable(cfg, ring, s) && id in s.readers && i < |s.readers[id].slices| ::
      var slice := s.readers[id].slices[i];
      slice.start == start && |slice.data| == n && slice.committed == committed && slice.open == open ==>
        start + n <= |s.written| && slice.data == s.written[start..start + n]
  }

  /** A read is intact in every run exactly when what is committed and open then is within one lap of its cursor. */
  lemma IntactExactly(cfg: Config, ring: seq<int>, start: nat, n: nat, committed: nat, open: nat)
    requires |ring| == cfg.capacity && cfg.width.Unbounded? && cfg.flavor.Unsynchronized?
    requires 1 <= n && start + n <= committed <= start + cfg.capacity && open <= cfg.capacity
    ensures ReturnsHistory(cfg, ring, start, n, committed, open) <==> committed + open <= start + cfg.capacity
  {
    if committed + open <= start + cfg.capacity {
      forall s: State<int>, id: nat, i: nat | Reachable(cfg, ring, s) && id in s.readers && i < |s.readers[id].slices|
        ensures var slice := s.readers[id].slices[i];
                slice.start == start && |slice.data| == n && slice.committed == committed && slice.open == open ==>
                  start + n <= |s.written| && slice.data == s.written[start..start + n]
      {
        var run :| Exec(Init(cfg, ring), run) == s;
        U.ReadIntact(cfg, ring, run, id, i);
      }
    } else {
      var s := Tear(cfg, ring, start, n, committed, open);
      ReachedReachable(cfg, ring, s);
      hide Reachable;
      var i := |s.readers[0].slices| - 1;
      assert s.readers[0].slices[i].data[0] != s.written[start..start + n][0];
    }
  }

  const ONE_CELL: Config := Geometry(Unsynchronized, Unbounded, 4, 1)

  /** So with a single cell a read can return true with a message that was never committed. */
  lemma ReadTornByOpenWrite(ring: seq<int>) returns (s: State<int>)
    requires |ring| == 1
    ensures Reached(ONE_CELL, ring, s) && s.written == [0] && 0 in s.readers && s.readers[0].slices != []
    ensures s.readers[0].slices[|s.readers[0].slices| - 1] == Slice(0, [1], 1, 1)
  {
    s := Tear(ONE_CELL, ring, 0, 1, 1, 1);
    assert s.written == [0];
    assert s.readers[0].slices[|s.readers[0].slices| - 1].data == [1];
  }
}
