/**
 The results about the unsynchronized queue for 64-bit counters, which may wrap any number of times if the ring
 divides 2^64. Their hypothesis is `AlwaysFits` of the 64-bit run itself.
 */
module WrappedReads {
  import opened Ring
  import opened CounterWrap
  import W = WrappedRuns
  import opened QueueProtocol
  import U = UnsynchronizedQueue
  import TornReads

  // ----- what was read -----

  lemma SameHistory<T>(s: State<T>)
    ensures Truncate(s).written == s.written && Truncate(s).readers.Keys == s.readers.Keys
    ensures forall id | id in s.readers :: Truncate(s).readers[id].slices == s.readers[id].slices
  {
  }

  /** A read that returned true, with 64-bit counters. */
  lemma ReadIntact64<T>(cfg: Config, ring: seq<T>, run: seq<Action<T>>, id: nat, i: nat)
    requires |ring| == cfg.capacity && cfg.width.Bits64? && AlwaysFits(Init(cfg, ring), run)
    requires var s := Exec(Init(cfg, ring), run); id in s.readers && i < |s.readers[id].slices|
    ensures var s := Exec(Init(cfg, ring), run);
            var slice := s.readers[id].slices[i];
            && slice.start + |slice.data| <= |s.written|
            && (slice.OutOfReach(cfg) ==> slice.data == s.written[slice.start..slice.start + |slice.data|])
            && (slice.open == 0 ==> slice.OutOfReach(cfg))
  {
    hide Exec, Init, FlavorInv, AlwaysFits, Truncate;
    var wide := W.Unwrapped(cfg);
    assert Wrapped(wide) == cfg;
    WrapRefinement(wide, ring, run);
    SameHistory(Exec(Init(wide, ring), run));
    U.ReadIntact(wide, ring, run, id, i);
  }

  /** Every message is delivered, skipped or pending for each reader, and the counters are those totals modulo 2^64. */
  lemma Accounting64<T>(cfg: Config, ring: seq<T>, run: seq<Action<T>>, id: nat)
    requires |ring| == cfg.capacity && cfg.width.Bits64? && AlwaysFits(Init(cfg, ring), run)
    requires id in Exec(Init(cfg, ring), run).readers
    ensures var s := Exec(Init(cfg, ring), run);
            var rd := s.readers[id];
            && rd.skipped == U.Skips(Init(cfg, ring), run, id)
            && rd.readPtr == cfg.Counter(rd.position) && s.writePtr == cfg.Counter(|s.written|)
            && rd.position <= |s.written|
            && |Delivered(rd.slices)| + rd.skipped + (|s.written| - rd.position) == |s.written|
            && Ascending(rd.slices, rd.position)
  {
    hide Exec, Init, FlavorInv, AlwaysFits, Delivered, Ascending, U.Skips;
    var wide := W.Unwrapped(cfg);
    assert Wrapped(wide) == cfg;
    WrapRefinement(wide, ring, run);
    InitWraps(wide, ring);
    SkipsTruncated(Init(wide, ring), run, id);
    U.Accounting(wide, ring, run, id);
  }

  /** A wrapping queue skips the same messages. */
  lemma {:induction false} SkipsTruncated<T>(s: State<T>, run: seq<Action<T>>, id: nat)
    requires FlavorInv(s) && AlwaysFits(Truncate(s), run)
    ensures U.Skips(Truncate(s), run, id) == U.Skips(s, run, id)
    decreases |run|
  {
    if run != [] {
      hide Truncate, FlavorInv;
      var before := run[..|run| - 1];
      SkipsTruncated(s, before, id);
      RunWraps(s, before);
      SkipTruncated(Exec(s, before), run[|run| - 1], id);
    }
  }

  lemma SkipTruncated<T>(s: State<T>, a: Action<T>, id: nat)
    ensures U.SkipOf(Truncate(s), a, id) == U.SkipOf(s, a, id)
  {
  }

  // ----- exactly when -----

  /** Reachable by a run of the 64-bit queue that fits throughout. */
  ghost predicate Reachable64<T(!new)>(cfg: Config, ring: seq<T>, s: State<T>)
    requires |ring| == cfg.capacity
  {
    exists run :: AlwaysFits(Init(cfg, ring), run) && Exec(Init(cfg, ring), run) == s
  }

  /** `TornReads.ReturnsHistory` for the 64-bit queue. */
  ghost predicate ReturnsHistory64(cfg: Config, ring: seq<int>, start: nat, n: nat, committed: nat, open: nat)
    requires |ring| == cfg.capacity
  {
    forall s: State<int>, id: nat, i: nat | Reachable64(cfg, ring, s) && id in s.readers
        && i < |s.readers[id].slices| ::
      var slice := s.readers[id].slices[i];
      slice.start == start && |slice.data| == n && slice.committed == committed && slice.open == open ==>
        start + n <= |s.written| && slice.data == s.written[start..start + n]
  }

  /** A modest run of the unbounded queue to a state of few bytes is one of the 64-bit queue to its image. */
  lemma Reached64<T(!new)>(cfg: Config, ring: seq<T>, s: State<T>)
    requires |ring| == cfg.capacity && cfg.width.Unbounded? && cfg.Size() < TWO_TO_64
    requires TornReads.Reached(cfg, ring, s) && W.FewBytes(s)
    ensures Reachable64(Wrapped(cfg), ring, Truncate(s))
  {
    var run :| TornReads.Modest(cfg, run) && Exec(Init(cfg, ring), run) == s;
    assert W.AsksLittle(cfg, run) by {
      forall a: Action<T> | a in run && a.Read? && a.readerAct.RStart?
        ensures a.readerAct.n * cfg.quantum < TWO_TO_64
      {
        ScaleOrder(cfg.quantum, cfg.capacity, a.readerAct.n);
      }
    }
    assert W.Asking(Init(cfg, ring)) && Init(cfg, ring).cfg == cfg;
    InitWraps(cfg, ring);
    hide Init, Exec, AlwaysFits, FlavorInv, Truncate, W.Asking, W.AsksLittle;
    W.FewBytesAlwaysFit(Init(cfg, ring), run);
    AlwaysFitsTruncated(Init(cfg, ring), run);
    RunWraps(Init(cfg, ring), run);
  }

  /** Which reads are intact in every run is the same for 64-bit counters that carry so many messages. */
  lemma IntactExactly64(cfg: Config, ring: seq<int>, start: nat, n: nat, committed: nat, open: nat)
    requires |ring| == cfg.capacity && cfg.width.Bits64? && cfg.flavor.Unsynchronized? && cfg.Size() < TWO_TO_64
    requires 1 <= n && start + n <= committed <= start + cfg.capacity && open <= cfg.capacity
    requires cfg.quantum * (committed + open) < TWO_TO_64
    ensures ReturnsHistory64(cfg, ring, start, n, committed, open) <==> committed + open <= start + cfg.capacity
  {
    if committed + open <= start + cfg.capacity {
      hide AlwaysFits;
      forall s: State<int>, id: nat, i: nat | Reachable64(cfg, ring, s) && id in s.readers && i < |s.readers[id].slices|
        ensures var slice := s.readers[id].slices[i];
                slice.start == start && |slice.data| == n && slice.committed == committed && slice.open == open ==>
                  start + n <= |s.written| && slice.data == s.written[start..start + n]
      {
        var run :| AlwaysFits(Init(cfg, ring), run) && Exec(Init(cfg, ring), run) == s;
        ReadIntact64(cfg, ring, run, id, i);
      }
    } else {
      var wide := W.Unwrapped(cfg);
      assert Wrapped(wide) == cfg;
      var s := TornReads.Tear(wide, ring, start, n, committed, open);
      assert W.FewBytes(s);
      Reached64(wide, ring, s);
      SameHistory(s);
      hide Reachable64, Truncate;
      var t, i := Truncate(s), |s.readers[0].slices| - 1;
      assert t.readers[0].slices[i].data[0] != t.written[start..start + n][0];
    }
  }

  // ----- recovery -----

  lemma OnTrackTruncated<T>(s: State<T>, rd: Reader<T>, p: nat, n: nat)
    ensures U.OnTrack(Truncate(s), LowReader(rd), p, n) <==> U.OnTrack(s, rd, p, n)
  {
  }

  lemma HighTruncated<T>(s: State<T>)
    ensures High(Truncate(s)) == High(s)
  {
  }

  /** After the reset, and asking again, the 64-bit queue is still the image of the unbounded one. */
  lemma RecoveryImage<T>(s: State<T>, id: nat, between: seq<Action<T>>, n: nat)
    requires FlavorInv(s) && Fits(s) && id in s.readers
    requires AlwaysFits(Next(Truncate(s), Read(id, RStep)), between) && U.Leaves(between, id)
    ensures var asked := U.AfterReset(s, id, between);
            var asking := Next(asked, Read(id, RStart(n)));
            && U.AfterReset(Truncate(s), id, between) == Truncate(asked)
            && FlavorInv(asked) && Fits(asked) && FlavorInv(asking)
            && Next(Truncate(asked), Read(id, RStart(n))) == Truncate(asking)
  {
    hide FlavorInv, Fits, Truncate, U.Leaves;
    var failed := Next(s, Read(id, RStep));
    StepWraps(s, Read(id, RStep));
    FlavorStep(s, Read(id, RStep));
    RunWraps(failed, between);
    var later := Exec(failed, between);
    assert id in later.readers by {
      assert id in failed.readers;
      hide Next;
      U.LeftAlone(failed, between, id);
    }
    hide Next, Exec;
    StepWraps(later, Read(id, RReturn));
    W.ReadReturnFits(later, id);
    var asked := Next(later, Read(id, RReturn));
    StepWraps(asked, Read(id, RStart(n)));
    FlavorStep(asked, Read(id, RStart(n)));
  }

  /** The run from a lapped read to its reset, and on to the reader's next request, fits throughout. */
  ghost predicate FitsOverrun<T>(t: State<T>, id: nat, meanwhile: seq<Action<T>>, between: seq<Action<T>>) {
    var found := Next(t, Read(id, RStep));
    && AlwaysFits(found, meanwhile)
    && AlwaysFits(Next(Exec(found, meanwhile), Read(id, RStep)), between)
  }

  lemma LappedTruncated<T>(s: State<T>, id: nat)
    ensures U.Lapped(Truncate(s), id) <==> U.Lapped(s, id)
    ensures U.Lapped(s, id) ==> U.ResetTo(Truncate(s), id) == U.ResetTo(s, id)
  {
  }

  /** The state about to reset, and its image. */
  lemma AboutToReset64<T>(s: State<T>, id: nat, meanwhile: seq<Action<T>>)
    requires FlavorInv(s) && Fits(s) && U.Lapped(s, id) && U.Leaves(meanwhile, id)
    requires AlwaysFits(Next(Truncate(s), Read(id, RStep)), meanwhile)
    ensures var resetting := Exec(Next(s, Read(id, RStep)), meanwhile);
            && FlavorInv(resetting) && Fits(resetting) && id in resetting.readers && resetting.cfg == s.cfg
            && resetting.readers[id].pc.RReset? && resetting.readers[id].pc.seen == U.ResetTo(s, id)
            && Exec(Next(Truncate(s), Read(id, RStep)), meanwhile) == Truncate(resetting)
  {
    assert Inv(s);
    hide FlavorInv, Fits, AlwaysFits, Truncate, U.Leaves, U.Lapped, U.ResetTo, Inv, Next, Exec;
    StepWraps(s, Read(id, RStep));
    FlavorStep(s, Read(id, RStep));
    RunWraps(Next(s, Read(id, RStep)), meanwhile);
    U.AboutToReset(s, id, meanwhile);
  }

  /** Overflow recovery with 64-bit counters: after any prefix, as long as the run goes on to fit. */
  lemma OverflowRecovery64<T>(cfg: Config, ring: seq<T>, prefix: seq<Action<T>>, id: nat, meanwhile: seq<Action<T>>,
                              between: seq<Action<T>>, n: nat, rest: seq<Action<T>>)
    requires |ring| == cfg.capacity && cfg.width.Bits64? && AlwaysFits(Init(cfg, ring), prefix)
    requires U.Lapped(Exec(Init(cfg, ring), prefix), id)
    requires U.Leaves(meanwhile, id) && U.Leaves(between, id) && U.OneRead(rest, id)
    requires var t := Exec(Init(cfg, ring), prefix);
             var asking := Next(U.AfterOverrun(t, id, meanwhile, between), Read(id, RStart(n)));
             && FitsOverrun(t, id, meanwhile, between) && AlwaysFits(asking, rest)
             && U.ResetTo(t, id) + n <= |asking.written|
             && High(Exec(asking, rest)) <= U.ResetTo(t, id) + cfg.capacity
    ensures var t := Exec(Init(cfg, ring), prefix);
            var done := Exec(Next(U.AfterOverrun(t, id, meanwhile, between), Read(id, RStart(n))), rest);
            && id in done.readers
            && U.OnTrack(done, done.readers[id], U.ResetTo(t, id), n)
            && done.readers[id].pc != RDone(false, [])
  {
    hide Exec, Init, Next, High, AlwaysFits, Fits, FlavorInv, Truncate, U.AfterReset, U.Leaves, U.OneRead, U.OnTrack,
         U.Lapped, U.ResetTo;
    var s := Preimage(cfg, ring, prefix);
    LappedTruncated(s, id);
    AboutToReset64(s, id, meanwhile);
    RecoverAt(Exec(Next(s, Read(id, RStep)), meanwhile), id, between, n, rest);
  }

  /** The state of the unbounded queue after the same run. */
  lemma Preimage<T>(cfg: Config, ring: seq<T>, run: seq<Action<T>>) returns (s: State<T>)
    requires |ring| == cfg.capacity && cfg.width.Bits64? && AlwaysFits(Init(cfg, ring), run)
    ensures FlavorInv(s) && Fits(s) && Exec(Init(cfg, ring), run) == Truncate(s)
    ensures s.cfg == W.Unwrapped(cfg)
  {
    var wide := W.Unwrapped(cfg);
    assert Wrapped(wide) == cfg && Init(wide, ring).cfg == wide;
    InitWraps(wide, ring);
    hide Exec, Init, AlwaysFits, Fits, FlavorInv, Truncate;
    RunWraps(Init(wide, ring), run);
    W.ConfigKept(Init(wide, ring), run);
    s := Exec(Init(wide, ring), run);
  }

  /** The same from the image of any state. */
  lemma RecoverAt<T>(s: State<T>, id: nat, between: seq<Action<T>>, n: nat, rest: seq<Action<T>>)
    requires FlavorInv(s) && Fits(s) && id in s.readers && s.readers[id].pc.RReset?
    requires U.Leaves(between, id) && U.OneRead(rest, id)
    requires var t := Truncate(s);
             var asking := Next(U.AfterReset(t, id, between), Read(id, RStart(n)));
             && AlwaysFits(Next(t, Read(id, RStep)), between) && AlwaysFits(asking, rest)
             && s.readers[id].pc.seen + n <= |asking.written|
             && High(Exec(asking, rest)) <= s.readers[id].pc.seen + s.cfg.capacity
    ensures var done := Exec(Next(U.AfterReset(Truncate(s), id, between), Read(id, RStart(n))), rest);
            && id in done.readers
            && U.OnTrack(done, done.readers[id], s.readers[id].pc.seen, n)
            && done.readers[id].pc != RDone(false, [])
  {
    assert Inv(s);
    var p := s.readers[id].pc.seen;
    RecoveryImage(s, id, between, n);
    hide FlavorInv, Fits, AlwaysFits, U.AfterReset, U.Leaves, U.OneRead, Inv, Exec, U.OnTrack, High;
    var asked := U.AfterReset(s, id, between);
    var asking := Next(asked, Read(id, RStart(n)));
    RunWraps(asking, rest);
    var done := Exec(asking, rest);
    HighTruncated(done);
    assert Truncate(asked).written == asked.written;
    U.ResetRecovery(s, id, between, n, rest);
    OnTrackTruncated(done, done.readers[id], p, n);
    assert Truncate(done).readers[id] == LowReader(done.readers[id]);
  }

  // ----- and its end -----

  /** A reader on track whose cursor has not gone back, in a queue that fits. */
  ghost predicate Recovering<T>(s: State<T>, id: nat, p: nat, n: nat) {
    && Inv(s) && Fits(s) && id in s.readers && U.OnTrack(s, s.readers[id], p, n)
    && p <= s.readers[id].position && High(s) <= p + s.cfg.capacity
  }

  lemma CursorForward<T>(s: State<T>, id: nat, act: ReaderAct)
    requires Inv(s) && id in s.readers
    ensures id in Next(s, Read(id, act)).readers
    ensures s.readers[id].position <= Next(s, Read(id, act)).readers[id].position
  {
    hide Inv, ReaderNext;
    U.CursorMoves(s, id, act);
  }

  /** A queue fits if it did and reader `id` lags and asks no more than a ring's worth. */
  lemma ReaderMovedFits<T>(s: State<T>, s': State<T>, id: nat)
    requires Fits(s) && s'.cfg == s.cfg && s'.written == s.written && High(s') == High(s)
    requires s'.readers.Keys == s.readers.Keys && id in s'.readers && s.cfg.Size() < TWO_TO_64
    requires forall other | other in s'.readers && other != id :: s'.readers[other] == s.readers[other]
    requires |s.written| - s'.readers[id].position <= s.cfg.capacity
    requires s'.readers[id].pc.RLoadedWrite? ==> s'.readers[id].pc.n <= s.cfg.capacity
    ensures Fits(s')
  {
    hide High;
    var rd := s'.readers[id];
    ScaleOrder(s.cfg.quantum, s.cfg.capacity, |s.written| - rd.position);
    if rd.pc.RLoadedWrite? {
      ScaleOrder(s.cfg.quantum, s.cfg.capacity, rd.pc.n);
    }
    forall other | other in s'.readers
      ensures ReaderFits(s'.cfg, |s'.written|, s'.readers[other])
    {
      if other != id {
        assert ReaderFits(s.cfg, |s.written|, s.readers[other]);
      }
    }
  }

  /** Its own steps keep it so. */
  lemma OwnStepFits<T>(s: State<T>, id: nat, act: ReaderAct, p: nat, n: nat)
    requires Recovering(s, id, p, n) && s.cfg.Size() < TWO_TO_64 && (act.RStep? || act.RCopy?)
    ensures Recovering(Next(s, Read(id, act)), id, p, n) && Next(s, Read(id, act)).cfg == s.cfg
  {
    assert |s.written| <= High(s);
    hide Next, High, Inv, Fits, U.OnTrack;
    var s' := Next(s, Read(id, act));
    OnlyReader(s, id, act);
    CursorForward(s, id, act);
    U.StepOnTrack(s, Read(id, act), id, p, n);
    StepKeeps(s, Read(id, act));
    TrackedRequest(s', id, p, n);
    ReaderMovedFits(s, s', id);
  }

  /** It asks for no more than has been committed since the reset. */
  lemma TrackedRequest<T>(s: State<T>, id: nat, p: nat, n: nat)
    requires Inv(s) && id in s.readers && U.OnTrack(s, s.readers[id], p, n) && High(s) <= p + s.cfg.capacity
    ensures s.readers[id].pc.RLoadedWrite? ==> s.readers[id].pc.n <= s.cfg.capacity
  {
    var rd := s.readers[id];
    if rd.pc.RLoadedWrite? {
      assert rd.pc.seen <= |s.written| by {
        assert ReaderInv(s.cfg, s.written, High(s), rd);
      }
    }
  }

  lemma {:induction false} OwnRunFits<T>(s: State<T>, id: nat, rest: seq<Action<T>>, p: nat, n: nat)
    requires Recovering(s, id, p, n) && s.cfg.Size() < TWO_TO_64 && U.Own(rest, id)
    ensures AlwaysFits(s, rest) && Recovering(Exec(s, rest), id, p, n) && Exec(s, rest).cfg == s.cfg
    decreases |rest|
  {
    if rest != [] {
      var before, a := rest[..|rest| - 1], rest[|rest| - 1];
      assert a in rest && U.Own(before, id);
      OwnRunFits(s, id, before, p, n);
      hide Recovering;
      OwnStepFits(Exec(s, before), id, a.readerAct, p, n);
    }
    assert Fits(Exec(s, rest));
  }

  /** Overflow recovery can end with 64-bit counters, and the run to its end fits. */
  lemma RecoveryEnds64<T>(cfg: Config, ring: seq<T>, prefix: seq<Action<T>>, id: nat, meanwhile: seq<Action<T>>,
                          between: seq<Action<T>>, n: nat)
    returns (rest: seq<Action<T>>)
    requires |ring| == cfg.capacity && cfg.width.Bits64? && cfg.Size() < TWO_TO_64
    requires AlwaysFits(Init(cfg, ring), prefix) && U.Lapped(Exec(Init(cfg, ring), prefix), id)
    requires U.Leaves(meanwhile, id) && U.Leaves(between, id)
    requires var t := Exec(Init(cfg, ring), prefix);
             var asked, p := U.AfterOverrun(t, id, meanwhile, between), U.ResetTo(t, id);
             && FitsOverrun(t, id, meanwhile, between)
             && p + n <= |asked.written| && High(asked) <= p + cfg.capacity
    ensures U.Own(rest, id)
    ensures var t := Exec(Init(cfg, ring), prefix);
            var asked, p := U.AfterOverrun(t, id, meanwhile, between), U.ResetTo(t, id);
            var asking := Next(asked, Read(id, RStart(n)));
            && AlwaysFits(asking, rest) && p + n <= |asked.written|
            && id in Exec(asking, rest).readers
            && Exec(asking, rest).readers[id].pc == RDone(true, asked.written[p..p + n])
  {
    hide Exec, Init, Next, High, AlwaysFits, Fits, FlavorInv, Truncate, U.AfterReset, U.Leaves, U.Own, U.Lapped,
         U.ResetTo;
    var s := Preimage(cfg, ring, prefix);
    LappedTruncated(s, id);
    AboutToReset64(s, id, meanwhile);
    rest := EndsAt(Exec(Next(s, Read(id, RStep)), meanwhile), id, between, n);
  }

  /** The same from the image of any state. */
  lemma EndsAt<T>(s: State<T>, id: nat, between: seq<Action<T>>, n: nat) returns (rest: seq<Action<T>>)
    requires FlavorInv(s) && Fits(s) && id in s.readers && s.readers[id].pc.RReset? && s.cfg.Size() < TWO_TO_64
    requires var asked, p := U.AfterReset(Truncate(s), id, between), s.readers[id].pc.seen;
             && U.Leaves(between, id) && AlwaysFits(Next(Truncate(s), Read(id, RStep)), between)
             && p + n <= |asked.written| && High(asked) <= p + s.cfg.capacity
    ensures U.Own(rest, id)
    ensures var asked, p := U.AfterReset(Truncate(s), id, between), s.readers[id].pc.seen;
            var asking := Next(asked, Read(id, RStart(n)));
            && AlwaysFits(asking, rest) && p + n <= |asked.written|
            && id in Exec(asking, rest).readers
            && Exec(asking, rest).readers[id].pc == RDone(true, asked.written[p..p + n])
  {
    assert Inv(s);
    var p := s.readers[id].pc.seen;
    RecoveryImage(s, id, between, n);
    hide FlavorInv, Fits, AlwaysFits, U.AfterReset, U.Leaves, U.Own, Inv, Exec, U.OnTrack, High, Next, Recovering;
    var asked := U.AfterReset(s, id, between);
    HighTruncated(asked);
    assert Truncate(asked).written == asked.written;
    rest := U.ResetRecoveryEnds(s, id, between, n);
    U.ResetPoint(s, id, between);
    var asking := Next(asked, Read(id, RStart(n)));
    AskingRecovers(asked, id, p, n);
    OwnRunFits(asking, id, rest, p, n);
    AlwaysFitsTruncated(asking, rest);
    RunWraps(asking, rest);
    DoneTruncated(Exec(asking, rest), id);
  }

  lemma AskingRecovers<T>(s: State<T>, id: nat, p: nat, n: nat)
    requires Inv(s) && Fits(s) && id in s.readers && s.readers[id].pc.RIdle? && s.readers[id].position == p
    requires p + n <= |s.written| && High(s) <= p + s.cfg.capacity
    ensures Recovering(Next(s, Read(id, RStart(n))), id, p, n) && Next(s, Read(id, RStart(n))).cfg == s.cfg
  {
    var asking := Next(s, Read(id, RStart(n)));
    assert asking.readers[id] == s.readers[id].(pc := RBegin(n));
    hide Next, Inv, High, U.OnTrack, Fits;
    OnlyReader(s, id, RStart(n));
    U.ReadAsked(s, id, p, n);
    W.FitsAlike(s, asking);
  }

  lemma DoneTruncated<T>(s: State<T>, id: nat)
    requires id in s.readers && s.readers[id].pc.RDone?
    ensures id in Truncate(s).readers && Truncate(s).readers[id].pc == s.readers[id].pc
  {
  }
}
