/**
 The unsynchronized flavour: one writer that overwrites, any number of readers with private
 cursors that may join at any time. A reader copies optimistically and checks for overrun
 when it commits.
 */
module UnsynchronizedQueue {
  import opened Prelude
  import opened Ring
  import opened QueueProtocol

  /**
   A successful read returned exactly the history at its old cursor, provided the committed messages and those of a
   write then open fitted in one lap from the cursor when commitRead loaded the write counter. However many writes
   raced with the copy does not matter, and with no write open at that moment the proviso holds by itself.
   */
  lemma ReadIntact<T>(cfg: Config, ring: seq<T>, run: seq<Action<T>>, id: nat, i: nat)
    requires |ring| == cfg.capacity && cfg.width.Unbounded?
    requires var s := Exec(Init(cfg, ring), run); id in s.readers && i < |s.readers[id].slices|
    ensures var s := Exec(Init(cfg, ring), run);
            var slice := s.readers[id].slices[i];
            && slice.start + |slice.data| <= |s.written|
            && (slice.OutOfReach(cfg) ==> slice.data == s.written[slice.start..slice.start + |slice.data|])
            && (slice.open == 0 ==> slice.OutOfReach(cfg))
  {
    RunKeeps(cfg, ring, run);
    var s := Exec(Init(cfg, ring), run);
    var slice := s.readers[id].slices[i];
    hide RingKeeps, WriterInv, ReaderPcInv, Exec, High, Delivered, Ascending;
    assert CursorInv(s.cfg, s.written, s.readers[id]) && slice in s.readers[id].slices;
    assert Intact(s.cfg, s.written, slice);
    if slice.OutOfReach(cfg) {
      SliceOfHistory(cfg, s.written, slice);
    }
  }

  /** The messages the resets of reader `id` pass over in a run. */
  function Skips<T>(s: State<T>, run: seq<Action<T>>, id: nat): nat
    decreases |run|
  {
    if run == [] then 0 else
    var before, a := run[..|run| - 1], run[|run| - 1];
    Skips(s, before, id) + SkipOf(Exec(s, before), a, id)
  }

  function SkipOf<T>(s: State<T>, a: Action<T>, id: nat): nat {
    if a == Read(id, RStep) && id in s.readers && s.readers[id].pc.RReset?
       && s.readers[id].position <= s.readers[id].pc.seen
    then s.readers[id].pc.seen - s.readers[id].position else 0
  }

  /** A step skips what a reset passes over, and nothing else; a reader that joins has skipped nothing. */
  lemma SkipStep<T>(s: State<T>, a: Action<T>, id: nat)
    requires Inv(s) && id in Next(s, a).readers
    ensures Next(s, a).readers[id].skipped == (if id in s.readers then s.readers[id].skipped else 0) + SkipOf(s, a, id)
  {
    hide Inv, ReaderNext, WriterNext;
    match a {
      case Write(act) => WriterFrame(s, act);
      case Join(_) =>
      case Read(reader, act) =>
        if reader == id {
          if act.RStep? && s.readers[id].pc.RStore? {
            StoreStep(s, s.readers[id]);
          } else if act.RStep? && s.readers[id].pc.RReset? {
            ResetStep(s, id);
          } else {
            CursorStays(s, s.readers[id], act);
          }
        }
    }
  }

  lemma {:induction false} SkippedByResets<T>(cfg: Config, ring: seq<T>, run: seq<Action<T>>, id: nat)
    requires |ring| == cfg.capacity && cfg.width.Unbounded?
    ensures var s := Exec(Init(cfg, ring), run);
            if id in s.readers then s.readers[id].skipped == Skips(Init(cfg, ring), run, id)
            else Skips(Init(cfg, ring), run, id) == 0
    decreases |run|
  {
    if run != [] {
      var before, a := run[..|run| - 1], run[|run| - 1];
      SkippedByResets(cfg, ring, before, id);
      RunKeeps(cfg, ring, before);
      var s := Exec(Init(cfg, ring), before);
      ReadersStay(s, a, id);
      hide Inv, Next;
      if id in Next(s, a).readers {
        SkipStep(s, a, id);
      }
    }
  }

  lemma ReadersStay<T>(s: State<T>, a: Action<T>, id: nat)
    ensures id in s.readers ==> id in Next(s, a).readers
  {
    hide ReaderNext, WriterNext;
    if a.Write? {
      WriterFrame(s, a.writerAct);
    }
  }

  /**
   Every message committed is, for each reader, delivered, skipped or still pending; slices never overlap or go back.
   */
  lemma Accounting<T>(cfg: Config, ring: seq<T>, run: seq<Action<T>>, id: nat)
    requires |ring| == cfg.capacity && cfg.width.Unbounded?
    requires id in Exec(Init(cfg, ring), run).readers
    ensures var s := Exec(Init(cfg, ring), run);
            var rd := s.readers[id];
            && rd.skipped == Skips(Init(cfg, ring), run, id)
            && rd.readPtr == cfg.quantum * rd.position && s.writePtr == cfg.quantum * |s.written|
            && 0 <= |s.written| - rd.position
            && |Delivered(rd.slices)| + rd.skipped + (|s.written| - rd.position) == |s.written|
            && Ascending(rd.slices, rd.position)
  {
    RunKeeps(cfg, ring, run);
    SkippedByResets(cfg, ring, run, id);
    hide Skips;
    assert ReaderInv(cfg, Exec(Init(cfg, ring), run).written, High(Exec(Init(cfg, ring), run)),
                     Exec(Init(cfg, ring), run).readers[id]);
  }

  /**
   A reader's cursor moves only by a delivery, with a true return, or by a skip, with a false return, to a loaded
   write counter.
   */
  lemma CursorMoves<T>(s: State<T>, id: nat, a: ReaderAct)
    requires Inv(s) && id in s.readers
    ensures var rd, rd' := s.readers[id], Next(s, Read(id, a)).readers[id];
            || (rd'.readPtr == rd.readPtr && rd'.position == rd.position && rd'.skipped == rd.skipped
                && rd'.slices == rd.slices)
            || (&& rd'.pc.RDone? && rd'.pc.ok && rd'.skipped == rd.skipped
                && rd'.position == rd.position + |rd'.pc.data|
                && |rd'.slices| == |rd.slices| + 1 && rd'.slices[..|rd.slices|] == rd.slices
                && rd'.slices[|rd.slices|].start == rd.position && rd'.slices[|rd.slices|].data == rd'.pc.data)
            || (&& rd'.pc == RDone(false, []) && rd'.slices == rd.slices && rd.pc.RReset?
                && rd'.readPtr == rd.pc.w == s.cfg.Counter(rd.pc.seen) && rd.pc.seen <= |s.written|
                && rd.position + s.cfg.capacity < rd.pc.seen
                && rd'.position == rd.pc.seen && rd'.skipped == rd.skipped + (rd.pc.seen - rd.position))
  {
    hide Inv, ReaderNext;
    if a.RStep? && s.readers[id].pc.RStore? {
      StoreStep(s, s.readers[id]);
    } else if a.RStep? && s.readers[id].pc.RReset? {
      ResetStep(s, id);
    } else {
      CursorStays(s, s.readers[id], a);
    }
  }

  /** The two stores of the read counter aside, a step moves no cursor. */
  lemma CursorStays<T>(s: State<T>, rd: Reader<T>, a: ReaderAct)
    requires !(a.RStep? && rd.pc.RStore?) && !(a.RStep? && rd.pc.RReset?)
    ensures var rd' := ReaderNext(s, rd, a);
            && rd'.readPtr == rd.readPtr && rd'.position == rd.position
            && rd'.skipped == rd.skipped && rd'.slices == rd.slices
  {
    hide BeginRead, Overrun, GetSlot, Complete;
  }

  /** The store after an overrun. */
  lemma ResetStep<T>(s: State<T>, id: nat)
    requires Inv(s) && id in s.readers && s.readers[id].pc.RReset?
    ensures var rd, rd' := s.readers[id], ReaderNext(s, s.readers[id], RStep);
            && rd'.pc == RDone(false, []) && rd'.slices == rd.slices
            && rd'.readPtr == rd.pc.w == s.cfg.Counter(rd.pc.seen) && rd.pc.seen <= |s.written|
            && rd.position + s.cfg.capacity < rd.pc.seen
            && rd'.position == rd.pc.seen && rd'.skipped == rd.skipped + (rd.pc.seen - rd.position)
  {
    assert ReaderPcInv(s.cfg, s.written, High(s), s.readers[id]);
  }

  // ----- readers do not interfere -----

  /** The run without the other readers. */
  function WithoutOthers<T>(run: seq<Action<T>>, id: nat): seq<Action<T>> {
    if run == [] then [] else
    var a := run[|run| - 1];
    WithoutOthers(run[..|run| - 1], id) + if Kept(a, id) then [a] else []
  }

  /** The writer, the ring and reader `id` are the same in both states. */
  ghost predicate SameFor<T>(s: State<T>, t: State<T>, id: nat) {
    && s.cfg == t.cfg && s.ring == t.ring && s.writePtr == t.writePtr && s.writer == t.writer && s.written == t.written
    && (id in s.readers <==> id in t.readers)
    && (id in s.readers ==> s.readers[id] == t.readers[id])
    && s.cfg.flavor.Unsynchronized? && !s.writer.WLoadedWrite?
  }

  predicate Kept<T>(a: Action<T>, id: nat) {
    match a
    case Write(_) => true
    case Read(reader, _) => reader == id
    case Join(reader) => reader == id
  }

  /** The writer of the unsynchronized flavour looks at no reader. */
  lemma SameWriterStep<T>(s: State<T>, t: State<T>, act: WriterAct<T>, id: nat)
    requires SameFor(s, t, id)
    ensures SameFor(WriterNext(s, act), WriterNext(t, act), id)
  {
    hide Regions, GetSlot;
    assert WriterNext(t, act) == WriterNext(s, act).(readers := t.readers);
  }

  lemma SameStep<T>(s: State<T>, t: State<T>, a: Action<T>, id: nat)
    requires SameFor(s, t, id)
    ensures SameFor(Next(s, a), if Kept(a, id) then Next(t, a) else t, id)
  {
    match a {
      case Write(act) =>
        SameWriterStep(s, t, act, id);
      case Read(reader, act) =>
        if reader == id && id in s.readers {
          assert ReaderNext(s, s.readers[id], act) == ReaderNext(t, t.readers[id], act);
        }
      case Join(_) =>
    }
  }

  /** Removing every other reader from a run changes nothing for the writer, the ring or this reader. */
  lemma {:induction false} ReadersDoNotInterfere<T>(cfg: Config, ring: seq<T>, run: seq<Action<T>>, id: nat)
    requires |ring| == cfg.capacity && cfg.flavor.Unsynchronized?
    ensures SameFor(Exec(Init(cfg, ring), run), Exec(Init(cfg, ring), WithoutOthers(run, id)), id)
    decreases |run|
  {
    if run != [] {
      var before, a := run[..|run| - 1], run[|run| - 1];
      ReadersDoNotInterfere(cfg, ring, before, id);
      var kept := WithoutOthers(before, id);
      SameStep(Exec(Init(cfg, ring), before), Exec(Init(cfg, ring), kept), a, id);
      assert (kept + [a])[..|kept|] == kept && kept + [] == kept;
    }
  }

  // ----- recovery -----

  /** The run leaves reader `id` alone. */
  ghost predicate Leaves<T>(run: seq<Action<T>>, id: nat) {
    forall a | a in run :: a.Read? ==> a.id != id
  }

  /** The run takes reader `id` no further than the end of its current read. */
  ghost predicate OneRead<T>(run: seq<Action<T>>, id: nat) {
    forall a | a in run :: a.Read? && a.id == id ==> a.readerAct.RStep? || a.readerAct.RCopy?
  }

  lemma {:induction false} LeftAlone<T>(s: State<T>, run: seq<Action<T>>, id: nat)
    requires id in s.readers && Leaves(run, id)
    ensures id in Exec(s, run).readers && Exec(s, run).readers[id] == s.readers[id]
    decreases |run|
  {
    if run != [] {
      LeftAlone(s, run[..|run| - 1], id);
      assert run[|run| - 1] in run;
    }
  }

  /** A read of n messages from message p that has enough to read, or has returned what was written there. */
  ghost predicate OnTrack<T>(s: State<T>, rd: Reader<T>, p: nat, n: nat) {
    match rd.pc
    case RBegin(m) => m == n && rd.position == p && p + n <= |s.written|
    case RLoadedWrite(m, _, seen) => m == n && rd.position == p && p + n <= seen
    case RCopying(m, _, _) => m == n && rd.position == p
    case RCommit(m, _) => m == n && rd.position == p
    case RLoadedRead(m, _, _) => m == n && rd.position == p
    case RStore(data, _, committed, open) => |data| == n && rd.position == p && committed + open <= High(s)
    case RDone(ok, data) => ok && p + n <= |s.written| && data == s.written[p..p + n]
    case _ => false
  }

  /** The reader's own step stays on track. */
  lemma OwnStepOnTrack<T>(s: State<T>, rd: Reader<T>, a: ReaderAct, p: nat, n: nat)
    requires Inv(s) && ReaderInv(s.cfg, s.written, High(s), rd) && OnTrack(s, rd, p, n) && (a.RStep? || a.RCopy?)
    requires High(s) <= p + s.cfg.capacity
    ensures OnTrack(s, ReaderNext(s, rd, a), p, n)
  {
    if a.RStep? {
      match rd.pc {
        case RLoadedWrite(_, _, seen) =>
          BeginReadMeaning(s.cfg, seen, p, n);
        case RLoadedRead(_, _, _) =>
          OverrunMeaning(s.cfg, |s.written|, p);
        case RStore(data, _, _, _) =>
          assert data == s.written[p..p + n];
        case _ =>
      }
    }
  }

  /** The reader stays on track while the others move. */
  lemma OthersOnTrack<T>(s: State<T>, t: State<T>, rd: Reader<T>, p: nat, n: nat)
    requires OnTrack(s, rd, p, n) && s.written <= t.written && High(s) <= High(t)
    ensures OnTrack(t, rd, p, n)
  {
  }

  lemma StepOnTrack<T>(s: State<T>, a: Action<T>, id: nat, p: nat, n: nat)
    requires Inv(s) && id in s.readers && OnTrack(s, s.readers[id], p, n)
    requires a.Read? && a.id == id ==> a.readerAct.RStep? || a.readerAct.RCopy?
    requires High(Next(s, a)) <= p + s.cfg.capacity
    ensures id in Next(s, a).readers && OnTrack(Next(s, a), Next(s, a).readers[id], p, n)
  {
    var rd := s.readers[id];
    assert ReaderInv(s.cfg, s.written, High(s), rd);
    hide Inv, ReaderInv, OnTrack, ReaderNext, WriterNext, High;
    StepKeeps(s, a);
    if a.Write? {
      WriterFrame(s, a.writerAct);
    }
    if a.Read? && a.id == id {
      OwnStepOnTrack(s, rd, a.readerAct, p, n);
      OthersOnTrack(s, Next(s, a), ReaderNext(s, rd, a.readerAct), p, n);
    } else {
      OthersOnTrack(s, Next(s, a), rd, p, n);
    }
  }

  lemma {:induction false} RunOnTrack<T>(s: State<T>, run: seq<Action<T>>, id: nat, p: nat, n: nat)
    requires Inv(s) && id in s.readers && OnTrack(s, s.readers[id], p, n) && OneRead(run, id)
    requires High(Exec(s, run)) <= p + s.cfg.capacity
    ensures id in Exec(s, run).readers && OnTrack(Exec(s, run), Exec(s, run).readers[id], p, n)
    decreases |run|
  {
    if run != [] {
      var before, a := run[..|run| - 1], run[|run| - 1];
      ExecKeeps(s, before);
      StepKeeps(Exec(s, before), a);
      RunOnTrack(s, before, id, p, n);
      assert a in run;
      StepOnTrack(Exec(s, before), a, id, p, n);
    }
  }

  /** The cursor is reset, the failure is returned, and the others carry on. */
  function AfterReset<T>(s: State<T>, id: nat, between: seq<Action<T>>): State<T> {
    Next(Exec(Next(s, Read(id, RStep)), between), Read(id, RReturn))
  }

  /** After the reset the reader is idle at the loaded write counter, whatever the others did. */
  lemma ResetPoint<T>(s: State<T>, id: nat, between: seq<Action<T>>)
    requires Inv(s) && id in s.readers && s.readers[id].pc.RReset? && Leaves(between, id)
    ensures var asked := AfterReset(s, id, between);
            && Inv(asked) && asked.cfg == s.cfg && id in asked.readers
            && asked.readers[id].pc == RIdle && asked.readers[id].position == s.readers[id].pc.seen
            && asked.readers[id].readPtr == s.readers[id].pc.w
  {
    hide Inv, High, WriterNext, OneRead;
    var failed := Next(s, Read(id, RStep));
    StepKeeps(s, Read(id, RStep));
    ExecKeeps(failed, between);
    LeftAlone(failed, between, id);
    StepKeeps(Exec(failed, between), Read(id, RReturn));
  }

  /** From the reset on: the read that follows it is on track. */
  lemma ResetRecovery<T>(s: State<T>, id: nat, between: seq<Action<T>>, n: nat, rest: seq<Action<T>>)
    requires Inv(s) && id in s.readers && s.readers[id].pc.RReset?
    requires Leaves(between, id) && OneRead(rest, id)
    requires var asked := AfterReset(s, id, between);
             s.readers[id].pc.seen + n <= |asked.written| &&
             High(Exec(Next(asked, Read(id, RStart(n))), rest)) <= s.readers[id].pc.seen + s.cfg.capacity
    ensures var done := Exec(Next(AfterReset(s, id, between), Read(id, RStart(n))), rest);
            && id in done.readers
            && OnTrack(done, done.readers[id], s.readers[id].pc.seen, n)
            && done.readers[id].pc != RDone(false, [])
  {
    var asked := AfterReset(s, id, between);
    ResetPoint(s, id, between);
    StepKeeps(asked, Read(id, RStart(n)));
    RunOnTrack(Next(asked, Read(id, RStart(n))), rest, id, s.readers[id].pc.seen, n);
  }

  /** The read under way finds, at its next step, that more than a ring's worth is pending. */
  predicate Lapped<T>(s: State<T>, id: nat) {
    && id in s.readers
    && match s.readers[id].pc
       case RLoadedWrite(_, _, seen) => s.readers[id].position + s.cfg.capacity < seen
       case RLoadedRead(_, _, _) => s.readers[id].position + s.cfg.capacity < |s.written|
       case _ => false
  }

  /** Where the cursor will be reset to: what had been committed when the write counter was loaded. */
  function ResetTo<T>(s: State<T>, id: nat): nat
    requires Lapped(s, id)
  {
    if s.readers[id].pc.RLoadedWrite? then s.readers[id].pc.seen else |s.written|
  }

  /** A lapped read is sent to reset its cursor to the write counter it loaded, in beginRead and in commitRead. */
  lemma LappedResets<T>(s: State<T>, id: nat)
    requires Inv(s) && Lapped(s, id)
    ensures id in Next(s, Read(id, RStep)).readers
    ensures Next(s, Read(id, RStep)).readers[id] ==
            s.readers[id].(pc := RReset(s.cfg.Counter(ResetTo(s, id)), ResetTo(s, id)))
  {
    assert ReaderInv(s.cfg, s.written, High(s), s.readers[id]);
    ReadDecides(s, s.readers[id]);
    assert ReaderNext(s, s.readers[id], RStep) == s.readers[id].(pc := ReaderNext(s, s.readers[id], RStep).pc);
    hide Inv, ReaderNext;
  }

  /** The overrun is found, the cursor reset, the failure returned; the others act in between. */
  function AfterOverrun<T>(s: State<T>, id: nat, meanwhile: seq<Action<T>>, between: seq<Action<T>>): State<T> {
    AfterReset(Exec(Next(s, Read(id, RStep)), meanwhile), id, between)
  }

  /** The state about to reset. */
  lemma AboutToReset<T>(s: State<T>, id: nat, meanwhile: seq<Action<T>>)
    requires Inv(s) && Lapped(s, id) && Leaves(meanwhile, id)
    ensures var resetting := Exec(Next(s, Read(id, RStep)), meanwhile);
            && Inv(resetting) && resetting.cfg == s.cfg && id in resetting.readers
            && resetting.readers[id].pc == RReset(s.cfg.Counter(ResetTo(s, id)), ResetTo(s, id))
            && s.written <= resetting.written
  {
    LappedResets(s, id);
    StepKeeps(s, Read(id, RStep));
    OnlyReader(s, id, RStep);
    hide Inv, Next, Lapped, ResetTo;
    ExecKeeps(Next(s, Read(id, RStep)), meanwhile);
    LeftAlone(Next(s, Read(id, RStep)), meanwhile, id);
  }

  /**
   A lapped read: whatever the others do, the reader comes out idle, having returned false, with its cursor at the write
   counter it loaded.
   */
  lemma LappedReadFails<T>(s: State<T>, id: nat, meanwhile: seq<Action<T>>, between: seq<Action<T>>)
    requires Inv(s) && Lapped(s, id) && Leaves(meanwhile, id) && Leaves(between, id)
    ensures var resetting := Exec(Next(s, Read(id, RStep)), meanwhile);
            && id in resetting.readers && id in Next(resetting, Read(id, RStep)).readers
            && Next(resetting, Read(id, RStep)).readers[id].pc == RDone(false, [])
    ensures var asked := AfterOverrun(s, id, meanwhile, between);
            && Inv(asked) && asked.cfg == s.cfg && id in asked.readers
            && asked.readers[id].pc == RIdle && asked.readers[id].position == ResetTo(s, id)
            && asked.readers[id].readPtr == s.cfg.Counter(ResetTo(s, id))
  {
    AboutToReset(s, id, meanwhile);
    var resetting := Exec(Next(s, Read(id, RStep)), meanwhile);
    hide Lapped, ResetTo, Leaves, AfterReset, Exec;
    ResetPoint(resetting, id, between);
    ResetStep(resetting, id);
    hide Inv, ReaderNext;
  }

  /**
   Overflow recovery. A read finds itself lapped. Whatever the others do before its cursor is reset (`meanwhile`) and
   after it (`between`), if n messages have been committed since the reset point when the reader asks for n, and no
   more than a ring's worth is committed or open by the end of that read, then that read does not fail, and what it
   returns is the first n messages written after the reset point.
   */
  lemma OverflowRecovery<T>(s: State<T>, id: nat, meanwhile: seq<Action<T>>, between: seq<Action<T>>, n: nat,
                            rest: seq<Action<T>>)
    requires Inv(s) && Lapped(s, id) && Leaves(meanwhile, id) && Leaves(between, id) && OneRead(rest, id)
    requires var asked, p := AfterOverrun(s, id, meanwhile, between), ResetTo(s, id);
             && p + n <= |asked.written|
             && High(Exec(Next(asked, Read(id, RStart(n))), rest)) <= p + s.cfg.capacity
    ensures var done := Exec(Next(AfterOverrun(s, id, meanwhile, between), Read(id, RStart(n))), rest);
            && id in done.readers
            && OnTrack(done, done.readers[id], ResetTo(s, id), n)
            && done.readers[id].pc != RDone(false, [])
  {
    hide Lapped, ResetTo, Leaves, OneRead, AfterReset, Exec, OnTrack, Inv, High, Next;
    AboutToReset(s, id, meanwhile);
    ResetRecovery(Exec(Next(s, Read(id, RStep)), meanwhile), id, between, n, rest);
  }

  // ----- and it can end -----

  /** The run consists of steps of reader `id` inside read() only. */
  ghost predicate Own<T>(run: seq<Action<T>>, id: nat) {
    forall a | a in run :: a.Read? && a.id == id && (a.readerAct.RStep? || a.readerAct.RCopy?)
  }

  /** How far a read is from its end. */
  function Rank<T>(pc: ReaderPc<T>): nat {
    match pc
    case RBegin(_) => 6
    case RLoadedWrite(_, _, _) => 5
    case RCopying(_, _, _) => 4
    case RCommit(_, _) => 3
    case RLoadedRead(_, _, _) => 2
    case RStore(_, _, _, _) => 1
    case _ => 0
  }

  /** The messages still to be copied. */
  function Missing<T>(pc: ReaderPc<T>): set<nat> {
    match pc
    case RCopying(n, _, got) => set i: nat | i < n && i !in got
    case _ => {}
  }

  /** The reader's next step: a copy, if one is missing. */
  ghost predicate NextStep<T>(pc: ReaderPc<T>, act: ReaderAct) {
    if Missing(pc) == {} then act == RStep else act.RCopy? && act.i in Missing(pc)
  }

  /** A copy that is missing finds its cell. */
  lemma CopyProgress<T>(s: State<T>, rd: Reader<T>, i: nat)
    requires Inv(s) && ReaderInv(s.cfg, s.written, High(s), rd) && rd.pc.RCopying? && i in Missing(rd.pc)
    ensures var pc' := ReaderNext(s, rd, RCopy(i)).pc;
            pc'.RCopying? && Missing(pc') == Missing(rd.pc) - {i}
  {
    assert ReaderPcInv(s.cfg, s.written, High(s), rd) && CursorInv(s.cfg, s.written, rd) && RingKeeps(s);
    hide Inv, ReaderInv, CursorInv, GetSlot, Regions;
    CyclicSlice(s.cfg, rd.position, rd.pc.n);
    assert GetSlot(rd.pc.tx, i) == Some((rd.position + i) % s.cfg.capacity);
  }

  /** Every step of a reader on track brings it nearer. */
  lemma StepNearer<T>(s: State<T>, rd: Reader<T>, act: ReaderAct, p: nat, n: nat)
    requires Inv(s) && ReaderInv(s.cfg, s.written, High(s), rd) && OnTrack(s, rd, p, n) && !rd.pc.RDone?
    requires High(s) <= p + s.cfg.capacity && NextStep(rd.pc, act)
    ensures var pc' := ReaderNext(s, rd, act).pc;
            Rank(pc') < Rank(rd.pc) || (Rank(pc') == Rank(rd.pc) && Missing(pc') < Missing(rd.pc))
  {
    if act.RCopy? {
      CopyProgress(s, rd, act.i);
    } else {
      OwnStepOnTrack(s, rd, act, p, n);
      hide Inv, ReaderInv, High, BeginRead, Overrun, Assemble;
      assert rd.pc.RCopying? ==> Complete(rd.pc.got, rd.pc.n) by {
        if rd.pc.RCopying? {
          forall i: nat | i < rd.pc.n
            ensures i in rd.pc.got
          {
            assert i !in Missing(rd.pc);
          }
        }
      }
    }
  }

  lemma {:induction false} ExecAfter<T>(s: State<T>, a: Action<T>, run: seq<Action<T>>)
    ensures Exec(s, [a] + run) == Exec(Next(s, a), run)
    decreases |run|
  {
    var longer := [a] + run;
    if run == [] {
      assert longer[..0] == [];
    } else {
      ExecAfter(s, a, run[..|run| - 1]);
      assert longer[..|longer| - 1] == [a] + run[..|run| - 1];
    }
  }

  /** One step that brings it nearer, and leaves everything else as it is. */
  lemma Nearer<T>(s: State<T>, id: nat, p: nat, n: nat) returns (act: ReaderAct, s': State<T>)
    requires Inv(s) && id in s.readers && OnTrack(s, s.readers[id], p, n) && High(s) <= p + s.cfg.capacity
    requires !s.readers[id].pc.RDone?
    ensures s' == Next(s, Read(id, act)) && (act.RStep? || act.RCopy?)
    ensures Inv(s') && id in s'.readers && OnTrack(s', s'.readers[id], p, n) && High(s') <= p + s'.cfg.capacity
    ensures s'.written == s.written
    ensures var pc, pc' := s.readers[id].pc, s'.readers[id].pc;
            Rank(pc') < Rank(pc) || (Rank(pc') == Rank(pc) && Missing(pc') < Missing(pc))
  {
    var rd := s.readers[id];
    act := RStep;
    if Missing(rd.pc) != {} {
      var i :| i in Missing(rd.pc);
      act := RCopy(i);
    }
    assert ReaderInv(s.cfg, s.written, High(s), rd);
    hide Inv, ReaderInv, OnTrack, ReaderNext, Next, High, Rank, Missing;
    s' := Next(s, Read(id, act));
    OnlyReader(s, id, act);
    StepNearer(s, rd, act, p, n);
    StepOnTrack(s, Read(id, act), id, p, n);
    StepKeeps(s, Read(id, act));
  }

  lemma TrackEnd<T>(s: State<T>, rd: Reader<T>, p: nat, n: nat)
    requires OnTrack(s, rd, p, n) && rd.pc.RDone?
    ensures p + n <= |s.written| && rd.pc == RDone(true, s.written[p..p + n])
  {
  }

  /** Left to itself, a reader on track comes to its end and returns what was written. */
  lemma {:induction false} Finishes<T>(s: State<T>, id: nat, p: nat, n: nat) returns (rest: seq<Action<T>>)
    requires Inv(s) && id in s.readers && OnTrack(s, s.readers[id], p, n) && High(s) <= p + s.cfg.capacity
    ensures Own(rest, id) && id in Exec(s, rest).readers
    ensures p + n <= |s.written| && Exec(s, rest).readers[id].pc == RDone(true, s.written[p..p + n])
    decreases Rank(s.readers[id].pc), Missing(s.readers[id].pc)
  {
    hide Inv, OnTrack, Next, High, Rank, Missing;
    if s.readers[id].pc.RDone? {
      TrackEnd(s, s.readers[id], p, n);
      rest := [];
    } else {
      var act, s' := Nearer(s, id, p, n);
      hide Exec;
      var more := Finishes(s', id, p, n);
      rest := [Read(id, act)] + more;
      ExecAfter(s, Read(id, act), more);
    }
  }

  /** Asking for n messages that are there. */
  lemma ReadAsked<T>(s: State<T>, id: nat, p: nat, n: nat)
    requires Inv(s) && id in s.readers && s.readers[id].pc.RIdle? && s.readers[id].position == p && p + n <= |s.written|
    ensures var asking := Next(s, Read(id, RStart(n)));
            && Inv(asking) && id in asking.readers && OnTrack(asking, asking.readers[id], p, n)
            && asking.cfg == s.cfg && asking.written == s.written && High(asking) == High(s)
  {
    StepKeeps(s, Read(id, RStart(n)));
    hide Inv;
  }

  lemma ResetRecoveryEnds<T>(s: State<T>, id: nat, between: seq<Action<T>>, n: nat) returns (rest: seq<Action<T>>)
    requires Inv(s) && id in s.readers && s.readers[id].pc.RReset? && Leaves(between, id)
    requires var asked := AfterReset(s, id, between);
             s.readers[id].pc.seen + n <= |asked.written| && High(asked) <= s.readers[id].pc.seen + s.cfg.capacity
    ensures Own(rest, id)
    ensures var asked, p := AfterReset(s, id, between), s.readers[id].pc.seen;
            var done := Exec(Next(asked, Read(id, RStart(n))), rest);
            id in done.readers && done.readers[id].pc == RDone(true, asked.written[p..p + n])
  {
    hide AfterReset, Exec, Inv, Next, OnTrack, High, Leaves, Own;
    var asked := AfterReset(s, id, between);
    ResetPoint(s, id, between);
    ReadAsked(asked, id, s.readers[id].pc.seen, n);
    rest := Finishes(Next(asked, Read(id, RStart(n))), id, s.readers[id].pc.seen, n);
  }

  /**
   So the recovering read can end: once n messages have been committed after the reset point, and no more than a ring's
   worth is committed or open, it needs only its own steps to return the first n messages written after it.
   */
  lemma RecoveryEnds<T>(s: State<T>, id: nat, meanwhile: seq<Action<T>>, between: seq<Action<T>>, n: nat)
    returns (rest: seq<Action<T>>)
    requires Inv(s) && Lapped(s, id) && Leaves(meanwhile, id) && Leaves(between, id)
    requires var asked, p := AfterOverrun(s, id, meanwhile, between), ResetTo(s, id);
             p + n <= |asked.written| && High(asked) <= p + s.cfg.capacity
    ensures Own(rest, id)
    ensures var asked, p := AfterOverrun(s, id, meanwhile, between), ResetTo(s, id);
            var done := Exec(Next(asked, Read(id, RStart(n))), rest);
            id in done.readers && done.readers[id].pc == RDone(true, asked.written[p..p + n])
  {
    hide Lapped, ResetTo, Leaves, AfterReset, Exec, Inv, High, Next, Own;
    AboutToReset(s, id, meanwhile);
    rest := ResetRecoveryEnds(Exec(Next(s, Read(id, RStep)), meanwhile), id, between, n);
  }

  /** A reader that joins late reads from the first message on, while it is still in the ring. */
  lemma LateJoinReads<T>(s: State<T>, id: nat, n: nat) returns (rest: seq<Action<T>>)
    requires Inv(s) && s.cfg.flavor.Unsynchronized? && id !in s.readers
    requires n <= |s.written| && High(s) <= s.cfg.capacity
    ensures Own(rest, id)
    ensures var done := Exec(Next(Next(s, Join(id)), Read(id, RStart(n))), rest);
            id in done.readers && done.readers[id].pc == RDone(true, s.written[..n])
  {
    var joined := Next(s, Join(id));
    JoinStarts(s, id);
    StepKeeps(s, Join(id));
    assert High(joined) == High(s) && s.written[0..0 + n] == s.written[..n];
    hide Inv, Next, High, OnTrack, Own, Exec;
    ReadAsked(joined, id, 0, n);
    rest := Finishes(Next(joined, Read(id, RStart(n))), id, 0, n);
  }
}
