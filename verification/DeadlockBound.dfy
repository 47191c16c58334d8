/**
 How sharp the deadlock bound of the blocking calls is: whenever a writer and a reader want more
 than one message beyond the capacity between them, some run of the program leaves both asleep.
 */
module DeadlockBound {
  import opened Prelude
  import Ring
  import Q = QueueProtocol
  import Sync = SynchronizedQueue
  import F = FutexProtocol
  import opened BlockingProtocol

  // ----- write() run on its own -----

  function WriterExec<T>(q: Q.State<T>, acts: seq<Q.WriterAct<T>>): Q.State<T>
    decreases |acts|
  {
    if acts == [] then q else Q.WriterNext(WriterExec(q, acts[..|acts| - 1]), acts[|acts| - 1])
  }

  ghost predicate InsideWrite<T>(acts: seq<Q.WriterAct<T>>) {
    forall act | act in acts :: act.WStep? || act.WCopy?
  }

  lemma WriterSnoc<T>(q: Q.State<T>, acts: seq<Q.WriterAct<T>>, act: Q.WriterAct<T>) returns (more: seq<Q.WriterAct<T>>)
    requires InsideWrite(acts) && (act.WStep? || act.WCopy?)
    ensures InsideWrite(more) && WriterExec(q, more) == Q.WriterNext(WriterExec(q, acts), act)
  {
    more := acts + [act];
    assert more[..|more| - 1] == acts;
  }

  /** One message of a granted write finds its cell. */
  lemma CopyFindsCell<T>(q: Q.State<T>, k: nat)
    requires Sync.SyncInv(q) && q.writer.WCopying? && k < |q.writer.data|
    ensures Ring.GetSlot(q.writer.tx, k).Some? && Ring.GetSlot(q.writer.tx, k).value < |q.ring|
  {
    assert Q.WriterInv(q) && Q.RingKeeps(q);
    hide Sync.SyncInv, Q.Placed;
    Ring.CyclicSlice(q.cfg, |q.written|, |q.writer.data|);
    hide Ring.GetSlot, Ring.Regions;
    assert Ring.GetSlot(q.writer.tx, k) == Some((|q.written| + k) % q.cfg.capacity);
  }

  lemma CopyWrites<T>(q: Q.State<T>, k: nat)
    requires q.writer.WCopying? && k < |q.writer.data|
    requires Ring.GetSlot(q.writer.tx, k).Some? && Ring.GetSlot(q.writer.tx, k).value < |q.ring|
    ensures var q' := Q.Next(q, Q.Write(Q.WCopy(k)));
            && q' == Q.WriterNext(q, Q.WCopy(k))
            && q'.writer == Q.WCopying(q.writer.data, q.writer.tx, q.writer.done + {k})
            && q'.cfg == q.cfg && q'.written == q.written && q'.readers == q.readers
  {
    hide Ring.GetSlot;
  }

  lemma CopiesDone<T>(q: Q.State<T>)
    requires q.writer.WCopying? && forall i: nat | i < |q.writer.data| :: i in q.writer.done
    ensures Q.WriterNext(q, Q.WStep) == Q.Next(q, Q.Write(Q.WStep)) == q.(writer := Q.WCommit(q.writer.data))
  {
  }

  /** Copying message after message places them all. */
  lemma CopyAll<T>(q: Q.State<T>, acts: seq<Q.WriterAct<T>>, k: nat) returns (more: seq<Q.WriterAct<T>>)
    requires Sync.SyncInv(WriterExec(q, acts)) && InsideWrite(acts)
    requires var c := WriterExec(q, acts);
             c.writer.WCopying? && k <= |c.writer.data| && forall i: nat | i < k :: i in c.writer.done
    ensures InsideWrite(more) && Sync.SyncInv(WriterExec(q, more))
    ensures var c, c' := WriterExec(q, acts), WriterExec(q, more);
            && c'.writer == Q.WCommit(c.writer.data)
            && c'.cfg == c.cfg && c'.written == c.written && c'.readers == c.readers
    decreases |WriterExec(q, acts).writer.data| - k
  {
    hide Sync.SyncInv, Q.WriterNext, Q.Next, WriterExec;
    var c := WriterExec(q, acts);
    if k < |c.writer.data| {
      CopyFindsCell(c, k);
      CopyWrites(c, k);
      Sync.StepSync(c, Q.Write(Q.WCopy(k)));
      var step := WriterSnoc(q, acts, Q.WCopy(k));
      more := CopyAll(q, step, k + 1);
    } else {
      CopiesDone(c);
      Sync.StepSync(c, Q.Write(Q.WStep));
      more := WriterSnoc(q, acts, Q.WStep);
    }
  }

  /** The three decisions that grant a write that fits. */
  lemma GrantSteps<T>(q: Q.State<T>, loaded: Q.State<T>, fits: Q.State<T>)
    requires Sync.SyncInv(q) && q.writer.WBegin?
    requires |q.writer.data| <= q.cfg.capacity - (|q.written| - q.readers[0].position)
    requires loaded == q.(writer := Q.WLoadedWrite(q.writer.data, q.writePtr))
             && fits == q.(writer := Q.WFits(q.writer.data))
    ensures Q.WriterNext(q, Q.WStep) == loaded && Q.WriterNext(loaded, Q.WStep) == fits
    ensures Q.WriterNext(fits, Q.WStep) ==
            q.(writer := Q.WCopying(q.writer.data, Ring.Regions(q.cfg, q.writePtr, |q.writer.data|), {}))
  {
    assert Q.WriterInv(q) && Q.CursorInv(q.cfg, q.written, q.readers[0]);
    hide Q.Inv, Q.CursorInv, Ring.Regions;
    Ring.QuantumCountIsCapacity(q.cfg);
    Ring.AvailabilityMeaning(q.cfg, |q.written|, q.readers[0].position);
    Ring.CounterCell(q.cfg, |q.written|);
    hide Ring.AvailableToWrite, Ring.Misaligned;
  }

  /** beginWrite grants a write that fits. */
  lemma WriteGranted<T>(q: Q.State<T>) returns (acts: seq<Q.WriterAct<T>>)
    requires Sync.SyncInv(q) && q.writer.WBegin?
    requires |q.writer.data| <= q.cfg.capacity - (|q.written| - q.readers[0].position)
    ensures InsideWrite(acts) && Sync.SyncInv(WriterExec(q, acts))
    ensures var c := WriterExec(q, acts);
            && c.writer.WCopying? && c.writer.data == q.writer.data
            && c.cfg == q.cfg && c.written == q.written && c.readers == q.readers
  {
    var loaded, fits := q.(writer := Q.WLoadedWrite(q.writer.data, q.writePtr)), q.(writer := Q.WFits(q.writer.data));
    GrantSteps(q, loaded, fits);
    hide Q.WriterNext, Sync.SyncInv;
    Sync.StepSync(q, Q.Write(Q.WStep));
    Sync.StepSync(loaded, Q.Write(Q.WStep));
    Sync.StepSync(fits, Q.Write(Q.WStep));
    acts := WriterSnoc(q, [], Q.WStep);
    acts := WriterSnoc(q, acts, Q.WStep);
    acts := WriterSnoc(q, acts, Q.WStep);
  }

  /** A write that fits, left to itself, succeeds. */
  lemma WriteSucceeds<T>(q: Q.State<T>) returns (acts: seq<Q.WriterAct<T>>)
    requires Sync.SyncInv(q) && q.writer.WBegin?
    requires |q.writer.data| <= q.cfg.capacity - (|q.written| - q.readers[0].position)
    ensures InsideWrite(acts)
    ensures var c := WriterExec(q, acts);
            && c.writer == Q.WDone(true) && c.written == q.written + q.writer.data
            && c.cfg == q.cfg && c.readers == q.readers
  {
    acts := WriteGranted(q);
    acts := CopyAll(q, acts, 0);
    CommitSteps(WriterExec(q, acts));
    hide Q.WriterNext, WriterExec, Sync.SyncInv;
    acts := WriterSnoc(q, acts, Q.WStep);
    acts := WriterSnoc(q, acts, Q.WStep);
  }

  lemma CommitSteps<T>(q: Q.State<T>)
    requires q.writer.WCommit?
    ensures var done := Q.WriterNext(Q.WriterNext(q, Q.WStep), Q.WStep);
            && done.writer == Q.WDone(true) && done.written == q.written + q.writer.data
            && done.cfg == q.cfg && done.readers == q.readers
  {
  }

  /** A write that does not fit is refused. */
  lemma WriteRefused<T>(q: Q.State<T>) returns (acts: seq<Q.WriterAct<T>>)
    requires Sync.SyncInv(q) && q.writer.WBegin?
    requires |q.writer.data| > q.cfg.capacity - (|q.written| - q.readers[0].position)
    ensures InsideWrite(acts) && WriterExec(q, acts) == q.(writer := Q.WDone(false))
  {
    assert Q.WriterInv(q) && Q.CursorInv(q.cfg, q.written, q.readers[0]);
    Ring.AvailabilityMeaning(q.cfg, |q.written|, q.readers[0].position);
    acts := WriterSnoc(q, [], Q.WStep);
    assert WriterExec(q, acts) == q.(writer := Q.WLoadedWrite(q.writer.data, q.writePtr));
    acts := WriterSnoc(q, acts, Q.WStep);
  }

  /** A read of more than is there is refused. */
  lemma ReadRefused<T>(q: Q.State<T>, n: nat) returns (mid: Q.Reader<T>)
    requires Sync.SyncInv(q) && q.readers[0].pc == Q.RBegin(n) && |q.written| - q.readers[0].position < n
    ensures mid == Q.ReaderNext(q, q.readers[0], Q.RStep)
    ensures Q.ReaderNext(q.(readers := q.readers[0 := mid]), mid, Q.RStep) == q.readers[0].(pc := Q.RDone(false, []))
  {
    assert Q.WriterInv(q) && Q.CursorInv(q.cfg, q.written, q.readers[0])
           && Sync.SyncReader(q.cfg, q.written, Q.High(q), q.readers[0]);
    mid := q.readers[0].(pc := Q.RLoadedWrite(n, q.writePtr, |q.written|));
    Ring.BeginReadMeaning(q.cfg, |q.written|, q.readers[0].position, n);
  }

  // ----- runs of the whole program -----

  lemma Go<T>(start: State<T>, run: seq<Action<T>>, s: State<T>, a: Action<T>)
    returns (longer: seq<Action<T>>, after: State<T>)
    requires Exec(start, run) == s && Inv(s)
    ensures after == Next(s, a) && Exec(start, longer) == after && Inv(after) && Running(after)
  {
    StepKeeps(s, a);
    assert Running(Next(s, a));
    hide Inv, Next;
    longer, after := run + [a], Next(s, a);
    assert longer[..|longer| - 1] == run;
  }

  /** The writer runs inside write() while everybody else stands still. */
  lemma LiftWrite<T>(start: State<T>, run: seq<Action<T>>, s: State<T>, acts: seq<Q.WriterAct<T>>)
    returns (longer: seq<Action<T>>, after: State<T>)
    requires Exec(start, run) == s && Inv(s) && Running(s) && InsideWrite(acts)
    ensures after == s.(q := WriterExec(s.q, acts)) && Exec(start, longer) == after && Inv(after) && Running(after)
    decreases |acts|
  {
    hide Inv, Next, Q.WriterNext, Exec;
    if acts == [] {
      longer, after := run, s;
    } else {
      var act := acts[|acts| - 1];
      assert act in acts && (act.WStep? || act.WCopy?);
      var mid, t := LiftWrite(start, run, s, acts[..|acts| - 1]);
      QueueSteps(t, act, Q.RStep);
      longer, after := Go(start, mid, t, WriterQueue(act));
    }
  }

  /** What the run has come to: messages committed (none read), where both sides are, and the flag word. */
  ghost predicate Scene<T>(s: State<T>, total: nat, w: Q.WriterPc<T>, r: Q.ReaderPc<T>, word: F.Bits, fw: F.Pc,
                           fr: F.Pc) {
    && Running(s) && s.f.threads.Keys == {WRITER, READER}
    && |s.q.written| == total && s.q.writer == w
    && s.q.readers[0].pc == r && s.q.readers[0].position == 0
    && s.f.word == word && s.f.threads[WRITER] == fw && s.f.threads[READER] == fr
  }

  /** The two calls in progress, and what never changes. */
  ghost predicate Calls<T>(s: State<T>, start: State<T>, wa: Option<seq<T>>, ra: Option<nat>) {
    && s.writeArg == wa && s.readArg == ra && !s.writeLast && !s.readLast
    && s.q.cfg == start.q.cfg && s.readMask == start.readMask && s.writeMask == start.writeMask
  }

  /** One step of the writer's thread inside the flag. */
  lemma WriterFlagScene<T>(s: State<T>, start: State<T>, total: nat, r: Q.ReaderPc<T>, word: F.Bits, fw: F.Pc, fr: F.Pc,
                           wa: Option<seq<T>>, ra: Option<nat>)
    requires Scene(s, total, Q.WIdle, r, word, fw, fr) && Calls(s, start, wa, ra)
    ensures var s' := Next(s, WriterFlag(F.Step));
            && Calls(s', start, wa, ra)
            && (fw.WakeOr? && fw.mask - word != {} ==>
                  Scene(s', total, Q.WIdle, r, word + fw.mask, F.WakeSys(fw.mask), fr))
            && (fw.WakeSys? && !fr.Asleep? ==> Scene(s', total, Q.WIdle, r, word, F.WakeDone, fr))
            && (fw.Clear? && word == {} ==> Scene(s', total, Q.WIdle, r, {}, F.Compare(fw.mask, {}), fr))
            && (fw.Compare? && fw.expected == word ==> Scene(s', total, Q.WIdle, r, word, F.Asleep(fw.mask), fr))
  {
  }

  lemma ReaderFlagScene<T>(s: State<T>, start: State<T>, total: nat, w: Q.WriterPc<T>, word: F.Bits, fw: F.Pc, fr: F.Pc,
                           wa: Option<seq<T>>, ra: Option<nat>)
    requires Scene(s, total, w, Q.RIdle, word, fw, fr) && Calls(s, start, wa, ra)
    ensures var s' := Next(s, ReaderFlag(F.Step));
            && Calls(s', start, wa, ra)
            && (fr.Clear? && word == fr.mask && word != {} ==>
                  Scene(s', total, w, Q.RIdle, {}, fw, F.WaitDone(F.NoError, fr.mask)))
            && (fr.Clear? && word == {} ==> Scene(s', total, w, Q.RIdle, {}, fw, F.Compare(fr.mask, {})))
            && (fr.Compare? && fr.expected == word ==> Scene(s', total, w, Q.RIdle, word, fw, F.Asleep(fr.mask)))
  {
    assert fr.Clear? && word == fr.mask ==> word * fr.mask == fr.mask && word - fr.mask == {};
  }

  /** A writer that has called writeBlocking with `fill` commits it, wakes the flag, and leaves. */
  lemma QueueFilled<T>(start: State<T>, fill: seq<T>) returns (run: seq<Action<T>>, s: State<T>)
    requires Inv(start) && Scene(start, 0, Q.WIdle, Q.RIdle, {}, F.Outside, F.Outside)
             && Calls(start, start, None, None)
    requires |fill| <= start.q.cfg.capacity && start.writeMask != {}
    ensures Exec(start, run) == s && Inv(s)
    ensures Scene(s, |fill|, Q.WDone(true), Q.RIdle, {}, F.Outside, F.Outside) && Calls(s, start, Some(fill), None)
  {
    assert Exec(start, []) == start;
    CallSteps(start, fill, 0);
    run, s := Go(start, [], start, CallWrite(fill));
    assert Sync.SyncInv(s.q);
    hide Inv, Exec, Next, WriterExec, Sync.SyncInv;
    var acts := WriteSucceeds(s.q);
    run, s := LiftWrite(start, run, s, acts);
  }

  lemma WriterLeaves<T>(start: State<T>, run: seq<Action<T>>, s: State<T>, total: nat, fill: seq<T>)
    returns (longer: seq<Action<T>>, after: State<T>)
    requires Exec(start, run) == s && Inv(s) && start.writeMask != {}
    requires Scene(s, total, Q.WDone(true), Q.RIdle, {}, F.Outside, F.Outside) && Calls(s, start, Some(fill), None)
    ensures Exec(start, longer) == after && Inv(after)
    ensures Scene(after, total, Q.WIdle, Q.RIdle, start.writeMask, F.Outside, F.Outside)
            && Calls(after, start, None, None)
  {
    hide Inv, Exec, Next;
    var mask := start.writeMask;
    WriterReturnStep(s, F.StartWake(mask));
    longer, after := Go(start, run, s, WriterTurn);
    WriterFlagScene(after, start, total, Q.RIdle, {}, F.WakeOr(mask), F.Outside, Some(fill), None);
    longer, after := Go(start, longer, after, WriterFlag(F.Step));
    assert {} + mask == mask;
    WriterFlagScene(after, start, total, Q.RIdle, mask, F.WakeSys(mask), F.Outside, Some(fill), None);
    longer, after := Go(start, longer, after, WriterFlag(F.Step));
    WriterResumeStep(after, false);
    longer, after := Go(start, longer, after, WriterTurn);
  }

  /** A reader looks at the counters and the ring only. */
  lemma ReaderSees<T>(q: Q.State<T>, rd: Q.Reader<T>)
    ensures Q.ReaderNext(q.(readers := q.readers[0 := rd]), rd, Q.RStep) == Q.ReaderNext(q, rd, Q.RStep)
  {
  }

  /** Two steps of a reader that asks for more than is there. */
  lemma LookSteps<T>(s: State<T>, n: nat, mid: Q.Reader<T>)
    requires Inv(s) && s.q.readers[0].pc == Q.RBegin(n) && |s.q.written| - s.q.readers[0].position < n
    requires mid == Q.ReaderNext(s.q, s.q.readers[0], Q.RStep)
    ensures var s1 := s.(q := s.q.(readers := s.q.readers[0 := mid]));
            && Next(s, ReaderQueue(Q.RStep)) == s1
            && Next(s1, ReaderQueue(Q.RStep)) ==
               s.(q := s.q.(readers := s1.q.readers[0 := s.q.readers[0].(pc := Q.RDone(false, []))]))
  {
    hide Next, Q.ReaderNext, Sync.SyncInv, WriterSide, ReaderSide, F.NoneLost;
    var m := ReadRefused(s.q, n);
    QueueSteps(s, Q.WStep, Q.RStep);
    var s1 := s.(q := s.q.(readers := s.q.readers[0 := mid]));
    QueueSteps(s1, Q.WStep, Q.RStep);
    ReaderSees(s.q, mid);
  }

  lemma LooksInVain<T>(start: State<T>, run: seq<Action<T>>, s: State<T>, total: nat, n: nat, word: F.Bits)
    returns (longer: seq<Action<T>>, after: State<T>)
    requires Exec(start, run) == s && Inv(s) && total < n
    requires Scene(s, total, Q.WIdle, Q.RBegin(n), word, F.Outside, F.Outside) && Calls(s, start, None, Some(n))
    ensures Exec(start, longer) == after && Inv(after)
    ensures Scene(after, total, Q.WIdle, Q.RDone(false, []), word, F.Outside, F.Outside)
    ensures Calls(after, start, None, Some(n))
  {
    hide Inv, Exec, Next, Q.ReaderNext;
    LookSteps(s, n, Q.ReaderNext(s.q, s.q.readers[0], Q.RStep));
    longer, after := Go(start, run, s, ReaderQueue(Q.RStep));
    longer, after := Go(start, longer, after, ReaderQueue(Q.RStep));
  }

  /** It ends up in front of the flag. */
  lemma ReaderLooks<T>(start: State<T>, run: seq<Action<T>>, s: State<T>, total: nat, n: nat, word: F.Bits)
    returns (longer: seq<Action<T>>, after: State<T>)
    requires Exec(start, run) == s && Inv(s) && total < n && start.writeMask != {}
    requires Scene(s, total, Q.WIdle, Q.RBegin(n), word, F.Outside, F.Outside) && Calls(s, start, None, Some(n))
    ensures Exec(start, longer) == after && Inv(after)
    ensures Scene(after, total, Q.WIdle, Q.RIdle, word, F.Outside, F.Clear(start.writeMask))
    ensures Calls(after, start, None, Some(n))
  {
    hide Inv, Exec, Next, Q.Next;
    longer, after := LooksInVain(start, run, s, total, n, word);
    ReaderReturnStep(after, F.StartWait(start.writeMask));
    longer, after := Go(start, longer, after, ReaderTurn);
  }

  /** It consumes the notification left behind, and looks again. */
  lemma ReaderConsumes<T>(start: State<T>, run: seq<Action<T>>, s: State<T>, total: nat, n: nat)
    returns (longer: seq<Action<T>>, after: State<T>)
    requires Exec(start, run) == s && Inv(s) && start.writeMask != {}
    requires Scene(s, total, Q.WIdle, Q.RIdle, start.writeMask, F.Outside, F.Clear(start.writeMask))
    requires Calls(s, start, None, Some(n))
    ensures Exec(start, longer) == after && Inv(after)
    ensures Scene(after, total, Q.WIdle, Q.RBegin(n), {}, F.Outside, F.Outside) && Calls(after, start, None, Some(n))
  {
    hide Inv, Exec, Next, Q.Next;
    var mask := start.writeMask;
    ReaderFlagScene(s, start, total, Q.WIdle, mask, F.Outside, F.Clear(mask), None, Some(n));
    longer, after := Go(start, run, s, ReaderFlag(F.Step));
    assert mask * mask == mask;
    ReaderResumeStep(after, true);
    longer, after := Go(start, longer, after, ReaderTurn);
  }

  /** With no notification left it falls asleep. */
  lemma ReaderSleeps<T>(start: State<T>, run: seq<Action<T>>, s: State<T>, total: nat, n: nat)
    returns (longer: seq<Action<T>>, after: State<T>)
    requires Exec(start, run) == s && Inv(s) && start.writeMask != {}
    requires Scene(s, total, Q.WIdle, Q.RIdle, {}, F.Outside, F.Clear(start.writeMask))
             && Calls(s, start, None, Some(n))
    ensures Exec(start, longer) == after && Inv(after)
    ensures Scene(after, total, Q.WIdle, Q.RIdle, {}, F.Outside, F.Asleep(start.writeMask))
    ensures Calls(after, start, None, Some(n))
  {
    hide Inv, Exec, Next;
    var mask := start.writeMask;
    ReaderFlagScene(s, start, total, Q.WIdle, {}, F.Outside, F.Clear(mask), None, Some(n));
    longer, after := Go(start, run, s, ReaderFlag(F.Step));
    ReaderFlagScene(after, start, total, Q.WIdle, {}, F.Outside, F.Compare(mask, {}), None, Some(n));
    longer, after := Go(start, longer, after, ReaderFlag(F.Step));
  }

  /** A writer that asks for more room than there is is refused. */
  lemma WriterRefused<T>(start: State<T>, run: seq<Action<T>>, s: State<T>, total: nat, n: nat, data: seq<T>, fr: F.Pc)
    returns (longer: seq<Action<T>>, after: State<T>)
    requires Exec(start, run) == s && Inv(s)
    requires Scene(s, total, Q.WIdle, Q.RIdle, {}, F.Outside, fr) && Calls(s, start, None, Some(n))
    requires start.q.cfg.capacity - total < |data| <= start.q.cfg.capacity
    ensures Exec(start, longer) == after && Inv(after)
    ensures Scene(after, total, Q.WDone(false), Q.RIdle, {}, F.Outside, fr) && Calls(after, start, Some(data), Some(n))
  {
    CallSteps(s, data, 0);
    longer, after := Go(start, run, s, CallWrite(data));
    assert Sync.SyncInv(after.q);
    hide Inv, Exec, Next, WriterExec, Sync.SyncInv;
    var acts := WriteRefused(after.q);
    longer, after := LiftWrite(start, longer, after, acts);
  }

  /** With no notification for it the writer falls asleep too. */
  lemma WriterSleeps<T>(start: State<T>, run: seq<Action<T>>, s: State<T>, total: nat, n: nat, data: seq<T>, fr: F.Pc)
    returns (longer: seq<Action<T>>, after: State<T>)
    requires Exec(start, run) == s && Inv(s) && start.readMask != {}
    requires Scene(s, total, Q.WDone(false), Q.RIdle, {}, F.Outside, fr) && Calls(s, start, Some(data), Some(n))
    ensures Exec(start, longer) == after
    ensures Scene(after, total, Q.WIdle, Q.RIdle, {}, F.Asleep(start.readMask), fr)
            && Calls(after, start, Some(data), Some(n))
  {
    hide Inv, Exec, Next;
    var mask := start.readMask;
    WriterReturnStep(s, F.StartWait(mask));
    longer, after := Go(start, run, s, WriterTurn);
    WriterFlagScene(after, start, total, Q.RIdle, {}, F.Clear(mask), fr, Some(data), Some(n));
    longer, after := Go(start, longer, after, WriterFlag(F.Step));
    WriterFlagScene(after, start, total, Q.RIdle, {}, F.Compare(mask, {}), fr, Some(data), Some(n));
    longer, after := Go(start, longer, after, WriterFlag(F.Step));
  }

  /** The queue is filled to one message too few for the reader, which then calls. */
  lemma ReaderCalls<T>(start: State<T>, fill: seq<T>, nr: nat) returns (run: seq<Action<T>>, s: State<T>)
    requires Inv(start) && Scene(start, 0, Q.WIdle, Q.RIdle, {}, F.Outside, F.Outside)
             && Calls(start, start, None, None)
    requires start.writeMask != {} && |fill| + 1 == nr <= start.q.cfg.capacity
    ensures Exec(start, run) == s && Inv(s)
    ensures Scene(s, |fill|, Q.WIdle, Q.RBegin(nr), start.writeMask, F.Outside, F.Outside)
            && Calls(s, start, None, Some(nr))
  {
    run, s := QueueFilled(start, fill);
    hide Inv, Exec, Next, Q.Next;
    run, s := WriterLeaves(start, run, s, |fill|, fill);
    CallSteps(s, [], nr);
    run, s := Go(start, run, s, CallRead(nr));
  }

  /** It sleeps, having used up the notification. */
  lemma ReaderAsleep<T>(start: State<T>, fill: seq<T>, nr: nat) returns (run: seq<Action<T>>, s: State<T>)
    requires Inv(start) && Scene(start, 0, Q.WIdle, Q.RIdle, {}, F.Outside, F.Outside)
             && Calls(start, start, None, None)
    requires start.writeMask != {} && |fill| + 1 == nr <= start.q.cfg.capacity
    ensures Exec(start, run) == s && Inv(s)
    ensures Scene(s, |fill|, Q.WIdle, Q.RIdle, {}, F.Outside, F.Asleep(start.writeMask))
            && Calls(s, start, None, Some(nr))
  {
    run, s := ReaderCalls(start, fill, nr);
    hide Inv, Exec, Next, Q.Next, Scene, Calls;
    run, s := ReaderLooks(start, run, s, |fill|, nr, start.writeMask);
    run, s := ReaderConsumes(start, run, s, |fill|, nr);
    run, s := ReaderLooks(start, run, s, |fill|, nr, {});
    run, s := ReaderSleeps(start, run, s, |fill|, nr);
  }

  /** And what is free is too little for the writer. */
  lemma SleepTogether<T>(start: State<T>, fill: seq<T>, data: seq<T>, nr: nat) returns (run: seq<Action<T>>)
    requires Inv(start) && Scene(start, 0, Q.WIdle, Q.RIdle, {}, F.Outside, F.Outside)
             && Calls(start, start, None, None)
    requires start.readMask != {} && start.writeMask != {}
    requires |fill| + 1 == nr <= start.q.cfg.capacity && |data| <= start.q.cfg.capacity < |data| + |fill|
    ensures BothAsleep(Exec(start, run), |data|, nr) && Q.High(Exec(start, run).q) == |fill|
  {
    hide Inv, Exec, Next;
    var s;
    run, s := ReaderAsleep(start, fill, nr);
    run, s := WriterRefused(start, run, s, |fill|, nr, data, F.Asleep(start.writeMask));
    run, s := WriterSleeps(start, run, s, |fill|, nr, data, F.Asleep(start.writeMask));
  }

  /**
   The deadlock bound is exact. For a writer of nw and a reader of nr messages, each no more than the capacity, some run
   leaves both asleep if and only if nw + nr is more than the capacity plus one.
   */
  lemma MutualSleepIff<T>(cfg: Ring.Config, ring: seq<T>, readMask: F.Bits, writeMask: F.Bits, nw: nat, nr: nat)
    requires |ring| == cfg.capacity && cfg.width.Unbounded? && cfg.flavor.Synchronized?
    requires readMask != {} && writeMask != {} && readMask * writeMask == {}
    requires nw <= cfg.capacity && nr <= cfg.capacity
    ensures (exists run: seq<Action<T>> :: BothAsleep(Exec(Init(cfg, ring, {}, readMask, writeMask), run), nw, nr))
            <==> nw + nr > cfg.capacity + 1
  {
    if nw + nr > cfg.capacity + 1 {
      var run := BothSleep(cfg, ring, readMask, writeMask, nw, nr);
      assert BothAsleep(Exec(Init(cfg, ring, {}, readMask, writeMask), run), nw, nr);
    } else {
      forall run: seq<Action<T>>
        ensures !BothAsleep(Exec(Init(cfg, ring, {}, readMask, writeMask), run), nw, nr)
      {
        NoMutualSleep(cfg, ring, {}, readMask, writeMask, run, nw, nr);
      }
    }
  }

  /** A run from a new queue that leaves both asleep, having written less than one ring. */
  lemma BothSleep<T>(cfg: Ring.Config, ring: seq<T>, readMask: F.Bits, writeMask: F.Bits, nw: nat, nr: nat)
    returns (run: seq<Action<T>>)
    requires |ring| == cfg.capacity && cfg.width.Unbounded? && cfg.flavor.Synchronized?
    requires readMask != {} && writeMask != {} && readMask * writeMask == {}
    requires nw <= cfg.capacity && nr <= cfg.capacity && nw + nr > cfg.capacity + 1
    ensures var s := Exec(Init(cfg, ring, {}, readMask, writeMask), run);
            BothAsleep(s, nw, nr) && Q.High(s.q) < cfg.capacity
  {
    var start := Init(cfg, ring, {}, readMask, writeMask);
    InitInv(cfg, ring, {}, readMask, writeMask);
    var fill, data := seq(nr - 1, _ => ring[0]), seq(nw, _ => ring[0]);
    assert Scene(start, 0, Q.WIdle, Q.RIdle, {}, F.Outside, F.Outside);
    run := SleepTogether(start, fill, data, nr);
  }
}
