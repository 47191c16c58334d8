/**
 The event flag as a step system: any number of threads, each inside wake() or wait(), share one
 32-bit word and a kernel futex queue. Every atomic operation on the word and every futex call is
 one step; the kernel's compare and sleep are a single step. Sleepers may also wake spuriously, be
 interrupted by a signal or time out.

 Words and masks are the sets of their one-bits, which is all that `|`, `&` and `~` look at.
 */
module FutexProtocol {

  type Bit = b: nat | b < 32
  type Bits = set<Bit>

  datatype Status = NoError | TimedOut | Again | Interrupted | BadValue | OtherError(errno: nat)

  /** Where a thread is inside the event flag. */
  datatype Pc =
    | Outside
    | WakeOr(mask: Bits)                        // about to OR the mask into the word
    | WakeSys(mask: Bits)                       // the OR changed the word; FUTEX_WAKE_BITSET still owed
    | WakeDone
    | Clear(mask: Bits)                         // about to AND the mask out of the word, if there is time left
    | Compare(mask: Bits, expected: Bits)       // no bit was set; about to call FUTEX_WAIT_BITSET
    | Asleep(mask: Bits)
    | Woken(mask: Bits)                         // the call returned 0; about to AND again
    | Failed(mask: Bits, status: Status)        // EAGAIN or EINTR: retried by wait() if asked to
    | WaitDone(status: Status, efState: Bits)

  /** `raised` and `reported` are history: the bits each OR switched on, and the efState each wait returned. */
  datatype State = State(word: Bits, threads: map<nat, Pc>, raised: seq<Bits>, reported: seq<Bits>)

  datatype Act =
    | StartWake(mask: Bits)
    | StartWait(mask: Bits)
    | Step
    | WakeSpuriously
    | Signal
    | Expire
    | KernelError(errno: nat)
    | Retry
    | GiveUp
    | Return

  datatype Action = Action(thread: nat, act: Act)

  /** FUTEX_WAKE_BITSET: every sleeper whose mask meets the waker's. */
  function WakeAll(threads: map<nat, Pc>, mask: Bits): map<nat, Pc> {
    map t | t in threads ::
      if threads[t].Asleep? && threads[t].mask * mask != {} then Woken(threads[t].mask) else threads[t]
  }

  function At(s: State, t: nat, pc: Pc): State {
    s.(threads := s.threads[t := pc])
  }

  /** waitHelper's AND: bits found are the result; without any the thread goes on as `otherwise`. */
  function Take(s: State, t: nat, mask: Bits, otherwise: Pc): State {
    var setBits := s.word * mask;
    At(s.(word := s.word - mask), t, if setBits != {} then WaitDone(NoError, setBits) else otherwise)
  }

  /** wake's OR; the futex call is owed only if some bit was off. */
  function OrStep(s: State, t: nat, mask: Bits): State {
    At(s, t, if mask - s.word != {} then WakeSys(mask) else WakeDone)
    .(word := s.word + mask, raised := s.raised + [mask - s.word])
  }

  function Next(s: State, a: Action): State {
    var t := a.thread;
    if t !in s.threads then s else
    match (s.threads[t], a.act)
    case (Outside, StartWake(mask)) => At(s, t, if mask == {} then WakeDone else WakeOr(mask))
    case (Outside, StartWait(mask)) => At(s, t, if mask == {} then WaitDone(BadValue, {}) else Clear(mask))
    case (WakeOr(mask), Step) => OrStep(s, t, mask)
    case (WakeSys(mask), Step) => s.(threads := WakeAll(s.threads, mask)[t := WakeDone])
    case (Clear(mask), Step) => Take(s, t, mask, Compare(mask, s.word - mask))
    case (Clear(_), Expire) => At(s, t, WaitDone(TimedOut, {}))
    case (Compare(mask, expected), Step) => At(s, t, if s.word == expected then Asleep(mask) else Failed(mask, Again))
    case (Compare(_, _), KernelError(errno)) => At(s, t, WaitDone(OtherError(errno), {}))
    case (Asleep(mask), WakeSpuriously) => At(s, t, Woken(mask))
    case (Asleep(mask), Signal) => At(s, t, Failed(mask, Interrupted))
    case (Asleep(_), Expire) => At(s, t, WaitDone(TimedOut, {}))
    case (Woken(mask), Step) => Take(s, t, mask, Failed(mask, Interrupted))
    case (Failed(mask, _), Retry) => At(s, t, Clear(mask))
    case (Failed(_, _), Expire) => At(s, t, WaitDone(TimedOut, {}))
    case (Failed(_, status), GiveUp) => At(s, t, WaitDone(status, {}))
    case (WakeDone, Return) => At(s, t, Outside)
    case (WaitDone(_, efState), Return) => At(s, t, Outside).(reported := s.reported + [efState])
    case _ => s
  }

  function Exec(s: State, run: seq<Action>): State
    decreases |run|
  {
    if run == [] then s else Next(Exec(s, run[..|run| - 1]), run[|run| - 1])
  }

  /** Any word, any number of threads, none inside the event flag. */
  function Init(word: Bits, threads: set<nat>): State {
    State(word, map t | t in threads :: Outside, [], [])
  }

  // ----- what one call does -----

  /** The other threads are where they were. */
  ghost predicate OthersStay(s: State, s': State, t: nat) {
    s'.threads.Keys == s.threads.Keys && forall u | u in s.threads && u != t :: s'.threads[u] == s.threads[u]
  }

  lemma Misses(mask: Bits, word: Bits)
    requires mask * word == {}
    ensures word * mask == {} && word - mask == word
  {
    assert word == (word - mask) + mask * word;
  }

  /** A wait whose AND finds bits, before the futex call or after it, returns exactly them and takes exactly them. */
  lemma WaitTakes(s: State, t: nat)
    requires t in s.threads && (s.threads[t].Clear? || s.threads[t].Woken?)
    requires s.threads[t].mask * s.word != {}
    ensures var s' := Next(s, Action(t, Step));
            && OthersStay(s, s', t)
            && s'.threads[t] == WaitDone(NoError, s.threads[t].mask * s.word)
            && s'.word == s.word - s.threads[t].mask
  {
    assert s.word * s.threads[t].mask == s.threads[t].mask * s.word;
  }

  /** Nobody else moves a thread that is about to compare. */
  lemma {:induction false} CompareStays(s: State, run: seq<Action>, t: nat)
    requires t in s.threads && s.threads[t].Compare? && forall a | a in run :: a.thread != t
    ensures t in Exec(s, run).threads && Exec(s, run).threads[t] == s.threads[t]
    decreases |run|
  {
    if run != [] {
      CompareStays(s, run[..|run| - 1], t);
      assert run[|run| - 1] in run;
    }
  }

  /**
   A wait that finds no bit falls asleep if the word is then still the one it saw, whatever other bits are on in it, and
   otherwise fails with EAGAIN; in neither case does it change the word.
   */
  lemma SleepsUnlessChanged(s: State, t: nat, others: seq<Action>)
    requires t in s.threads && s.threads[t].Clear? && s.threads[t].mask * s.word == {}
    requires forall a | a in others :: a.thread != t
    ensures var mask := s.threads[t].mask;
            var looked := Next(s, Action(t, Step));
            var later := Exec(looked, others);
            var s' := Next(later, Action(t, Step));
            && looked.word == s.word && t in later.threads && t in s'.threads
            && OthersStay(s, looked, t) && OthersStay(later, s', t)
            && s'.word == later.word
            && s'.threads[t] == if later.word == s.word then Asleep(mask) else Failed(mask, Again)
  {
    var mask := s.threads[t].mask;
    Misses(mask, s.word);
    var looked := Next(s, Action(t, Step));
    assert looked.threads[t] == Compare(mask, s.word);
    hide Exec;
    CompareStays(looked, others, t);
  }

  /** A wait whose futex call returned without a bit fails with EINTR; one that is retried starts over. */
  lemma FruitlessWait(s: State, t: nat)
    requires t in s.threads
    ensures var pc, s' := s.threads[t], Next(s, Action(t, Step));
            pc.Woken? && pc.mask * s.word == {} ==>
              s'.word == s.word && OthersStay(s, s', t) && s'.threads[t] == Failed(pc.mask, Interrupted)
    ensures var pc, s' := s.threads[t], Next(s, Action(t, Retry));
            pc.Failed? ==> s'.word == s.word && OthersStay(s, s', t) && s'.threads[t] == Clear(pc.mask)
  {
    var pc := s.threads[t];
    if pc.Woken? && pc.mask * s.word == {} {
      Misses(pc.mask, s.word);
    }
  }

  /** A wait that ends without a bit says why, and takes nothing. */
  lemma FailedWaitTakesNothing(s: State, t: nat, act: Act)
    requires t in s.threads && !s.threads[t].WaitDone? && Next(s, Action(t, act)).threads[t].WaitDone?
    ensures var pc, s' := s.threads[t], Next(s, Action(t, act));
            var status, efState := s'.threads[t].status, s'.threads[t].efState;
            && (act.Step? <==> efState != {}) && (act.Step? ==> status == NoError)
            && (efState == {} ==> s'.word == s.word && OthersStay(s, s', t))
            && (act.Expire? ==> status == TimedOut) && (act.KernelError? ==> status == OtherError(act.errno))
            && (act.GiveUp? ==> pc.Failed? && status == pc.status)
            && (act.StartWait? ==> act.mask == {} && status == BadValue)
  {
  }

  /** A call on its own, from start to return: wait() reports the bits that are on and leaves the word without them. */
  lemma WholeWait(s: State, t: nat, mask: Bits)
    requires t in s.threads && s.threads[t].Outside? && mask * s.word != {}
    ensures var s' := Next(Next(Next(s, Action(t, StartWait(mask))), Action(t, Step)), Action(t, Return));
            s' == s.(word := s.word - mask, reported := s.reported + [mask * s.word])
  {
    var s1 := Next(s, Action(t, StartWait(mask)));
    var b :| b in mask * s.word;
    assert s1 == At(s, t, Clear(mask)) by {
      assert b in mask;
    }
    assert s.word * mask == mask * s.word;
    var s3 := Next(Next(s1, Action(t, Step)), Action(t, Return));
    assert s3.threads == s.threads;
  }

  /** wake() switches on its mask, and owes a futex call exactly when some bit of it was off. */
  lemma WakeRaises(s: State, t: nat)
    requires t in s.threads && s.threads[t].WakeOr?
    ensures var mask, s' := s.threads[t].mask, Next(s, Action(t, Step));
            && OthersStay(s, s', t) && s'.word == s.word + mask
            && s'.threads[t] == if mask <= s.word then WakeDone else WakeSys(mask)
  {
    var mask := s.threads[t].mask;
    if mask - s.word == {} {
      forall b | b in mask
        ensures b in s.word
      {
        assert b !in mask - s.word;
      }
    }
  }

  /** The futex call wakes exactly the sleepers whose masks meet that of the waker. */
  lemma WakeReaches(s: State, t: nat)
    requires t in s.threads && s.threads[t].WakeSys?
    ensures var mask, s' := s.threads[t].mask, Next(s, Action(t, Step));
            && s'.threads.Keys == s.threads.Keys && s'.word == s.word && s'.threads[t] == WakeDone
            && forall u | u in s.threads && u != t ::
                 s'.threads[u] ==
                 if s.threads[u].Asleep? && s.threads[u].mask * mask != {} then Woken(s.threads[u].mask)
                 else s.threads[u]
  {
  }

  /** So a wake of some bit a sleeper waits for makes its wait return the bits that are on. */
  lemma WakeDelivers(s: State, waker: nat, sleeper: nat)
    requires waker in s.threads && sleeper in s.threads && s.threads[waker].WakeOr? && s.threads[sleeper].Asleep?
    requires s.threads[sleeper].mask * s.threads[waker].mask != {} && s.threads[sleeper].mask * s.word == {}
    ensures var mask, raised := s.threads[sleeper].mask, s.threads[waker].mask;
            var woken := Next(Next(s, Action(waker, Step)), Action(waker, Step));
            var s' := Next(woken, Action(sleeper, Step));
            && sleeper in s'.threads
            && s'.threads[sleeper] == WaitDone(NoError, mask * (s.word + raised))
            && s'.word == (s.word + raised) - mask
  {
    var mask, raised := s.threads[sleeper].mask, s.threads[waker].mask;
    var b :| b in mask * raised;
    assert b !in s.word by {
      assert b in s.word ==> b in mask * s.word;
    }
    assert b in mask * (s.word + raised);
    hide Next;
    WakeRaises(s, waker);
    WakeReaches(Next(s, Action(waker, Step)), waker);
    WaitTakes(Next(Next(s, Action(waker, Step)), Action(waker, Step)), sleeper);
  }

  /**
   A wake() on its own: its mask is on when it returns, and the sleepers that wait for some bit of it are woken, unless
   all of it was on already.
   */
  lemma WholeWake(s: State, t: nat, mask: Bits)
    requires t in s.threads && s.threads[t].Outside? && mask != {}
    ensures var ored := Next(Next(s, Action(t, StartWake(mask))), Action(t, Step));
            var s' := Next(if mask <= s.word then ored else Next(ored, Action(t, Step)), Action(t, Return));
            && s'.threads.Keys == s.threads.Keys && s'.word == s.word + mask && s'.reported == s.reported
            && s'.threads[t] == Outside
            && forall u | u in s.threads && u != t ::
                 s'.threads[u] ==
                 if !(mask <= s.word) && s.threads[u].Asleep? && s.threads[u].mask * mask != {}
                 then Woken(s.threads[u].mask) else s.threads[u]
  {
    var started := Next(s, Action(t, StartWake(mask)));
    var ored := Next(started, Action(t, Step));
    WakeRaises(started, t);
    if !(mask <= s.word) {
      WakeReaches(ored, t);
    }
  }

  // ----- no lost wakeup -----

  /** The thread has done its OR and still owes a futex wake that reaches sleepers on `mask`. */
  predicate Owes(pc: Pc, mask: Bits) {
    pc.WakeSys? && pc.mask * mask != {}
  }

  ghost predicate Covered(s: State, mask: Bits) {
    exists u :: u in s.threads && Owes(s.threads[u], mask)
  }

  ghost predicate NoneLost(s: State) {
    && (forall t | t in s.threads && s.threads[t].Asleep? && s.threads[t].mask * s.word != {} ::
          Covered(s, s.threads[t].mask))
    && (forall t | t in s.threads && s.threads[t].Compare? :: s.threads[t].mask * s.threads[t].expected == {})
  }

  lemma CoverKept(s: State, s': State, mask: Bits)
    requires Covered(s, mask)
    requires forall u | u in s.threads && Owes(s.threads[u], mask) :: u in s'.threads && Owes(s'.threads[u], mask)
    ensures Covered(s', mask)
  {
    var u :| u in s.threads && Owes(s.threads[u], mask);
    assert u in s'.threads && Owes(s'.threads[u], mask);
  }

  lemma OrKeeps(s: State, t: nat, mask: Bits)
    requires NoneLost(s) && t in s.threads && s.threads[t] == WakeOr(mask)
    ensures NoneLost(OrStep(s, t, mask))
  {
    var s' := OrStep(s, t, mask);
    forall x | x in s'.threads && s'.threads[x].Asleep? && s'.threads[x].mask * s'.word != {}
      ensures Covered(s', s'.threads[x].mask)
    {
      var m := s.threads[x].mask;
      if m * s.word != {} {
        CoverKept(s, s', m);
      } else {
        assert m * (s.word + mask) == m * s.word + m * (mask - s.word);
        var b :| b in m * (mask - s.word);
        assert b in mask * m;
        assert Owes(s'.threads[t], m);
      }
    }
  }

  lemma WakeKeeps(s: State, t: nat)
    requires NoneLost(s) && t in s.threads && s.threads[t].WakeSys?
    ensures NoneLost(Next(s, Action(t, Step)))
  {
    var s', mask := Next(s, Action(t, Step)), s.threads[t].mask;
    forall x | x in s'.threads && s'.threads[x].Asleep? && s'.threads[x].mask * s'.word != {}
      ensures Covered(s', s'.threads[x].mask)
    {
      assert !Owes(s.threads[t], s.threads[x].mask) by {
        assert s.threads[x].mask * mask == mask * s.threads[x].mask;
      }
      CoverKept(s, s', s.threads[x].mask);
    }
  }

  predicate SetsOrWakes(s: State, a: Action) {
    a.thread in s.threads && a.act.Step? && (s.threads[a.thread].WakeOr? || s.threads[a.thread].WakeSys?)
  }

  /** Any other step clears bits at most, moves one thread at most, and puts it to sleep only on a word it misses. */
  lemma OneThreadMoves(s: State, a: Action)
    requires !SetsOrWakes(s, a)
    ensures var s', t := Next(s, a), a.thread;
            && s'.word <= s.word && s'.threads.Keys == s.threads.Keys
            && (forall u | u in s.threads && u != t :: s'.threads[u] == s.threads[u])
            && (t in s.threads && s.threads[t].WakeSys? ==> s'.threads[t] == s.threads[t])
            && (t in s.threads && s'.threads[t].Asleep? ==>
                  || s'.threads[t] == s.threads[t]
                  || s.threads[t] == Compare(s'.threads[t].mask, s'.word))
            && (t in s.threads && s'.threads[t].Compare? ==>
                  || s'.threads[t] == s.threads[t]
                  || s'.threads[t].mask * s'.threads[t].expected == {})
  {
  }

  lemma OtherKeeps(s: State, a: Action)
    requires NoneLost(s) && !SetsOrWakes(s, a)
    ensures NoneLost(Next(s, a))
  {
    var s' := Next(s, a);
    OneThreadMoves(s, a);
    hide Next;
    forall x | x in s'.threads && s'.threads[x].Asleep? && s'.threads[x].mask * s'.word != {}
      ensures Covered(s', s'.threads[x].mask)
    {
      var m := s'.threads[x].mask;
      assert m * s.word != {} by {
        var b :| b in m * s'.word;
        assert b in m * s.word;
      }
      CoverKept(s, s', m);
    }
  }

  lemma StepNoneLost(s: State, a: Action)
    requires NoneLost(s)
    ensures NoneLost(Next(s, a))
  {
    if SetsOrWakes(s, a) {
      match s.threads[a.thread] {
        case WakeOr(mask) => OrKeeps(s, a.thread, mask);
        case WakeSys(_) => WakeKeeps(s, a.thread);
      }
    } else {
      OtherKeeps(s, a);
    }
  }

  lemma {:induction false} RunNoneLost(s: State, run: seq<Action>)
    requires NoneLost(s)
    ensures NoneLost(Exec(s, run))
    decreases |run|
  {
    if run != [] {
      RunNoneLost(s, run[..|run| - 1]);
      StepNoneLost(Exec(s, run[..|run| - 1]), run[|run| - 1]);
    }
  }

  /**
   No lost wakeup. For any number of wakers and waiters with any masks, a sleeper whose mask meets the word has a
   waker that has done its OR and still owes an overlapping futex wake; so with no wake in flight every sleeper's mask
   misses the word, although wake() skips the futex call when all its bits were already on.
   */
  lemma NoLostWakeup(word: Bits, threads: set<nat>, run: seq<Action>, sleeper: nat)
    requires var s := Exec(Init(word, threads), run); sleeper in s.threads && s.threads[sleeper].Asleep?
    ensures var s := Exec(Init(word, threads), run);
            var mask := s.threads[sleeper].mask;
            && (mask * s.word != {} ==> Covered(s, mask))
            && ((forall u | u in s.threads :: !s.threads[u].WakeSys?) ==> mask * s.word == {})
  {
    RunNoneLost(Init(word, threads), run);
  }

  // ----- conservation of notifications -----

  function Count(b: Bit, log: seq<Bits>): nat {
    if log == [] then 0 else Count(b, log[..|log| - 1]) + (if b in log[|log| - 1] then 1 else 0)
  }

  function Here(b: Bit, word: Bits): nat {
    if b in word then 1 else 0
  }

  lemma CountSnoc(b: Bit, log: seq<Bits>, entry: Bits)
    ensures Count(b, log + [entry]) == Count(b, log) + Here(b, entry)
  {
    assert (log + [entry])[..|log|] == log;
  }

  /** The threads that have taken the bit out of the word and have not yet returned it to their caller. */
  function Holders(s: State, b: Bit): set<nat> {
    set t | t in s.threads && s.threads[t].WaitDone? && b in s.threads[t].efState
  }

  /** Moving one thread changes the holders by at most that thread. */
  lemma HoldersAt(s: State, t: nat, pc: Pc, b: Bit)
    requires t in s.threads
    ensures var now := pc.WaitDone? && b in pc.efState;
            Holders(At(s, t, pc), b) == if now then Holders(s, b) + {t} else Holders(s, b) - {t}
  {
  }

  function Ledger(s: State, b: Bit): int {
    Count(b, s.reported) + |Holders(s, b)| + Here(b, s.word) - Count(b, s.raised)
  }

  lemma TakeConserves(s: State, t: nat, mask: Bits, otherwise: Pc, b: Bit)
    requires t in s.threads && !s.threads[t].WaitDone? && !otherwise.WaitDone?
    ensures Ledger(Take(s, t, mask, otherwise), b) == Ledger(s, b)
  {
    var s' := Take(s, t, mask, otherwise);
    var cleared := s.(word := s.word - mask);
    assert Holders(cleared, b) == Holders(s, b) && t !in Holders(s, b);
    HoldersAt(cleared, t, s'.threads[t], b);
    hide Holders, Count;
    if b in s.word && b in mask {
      assert b in s.word * mask;
    }
  }

  /** Steps that take nothing, return nothing and set nothing. */
  lemma IdleConserves(s: State, a: Action, b: Bit)
    requires a.thread in s.threads
    requires var pc := s.threads[a.thread];
             && !(a.act.Step? && (pc.Clear? || pc.Woken? || pc.WakeOr?))
             && !(a.act.Return? && pc.WaitDone?)
    ensures Ledger(Next(s, a), b) == Ledger(s, b)
  {
    assert Holders(Next(s, a), b) == Holders(s, b);
  }

  /** wake's OR counts the bits it switches on. */
  lemma OrConserves(s: State, t: nat, mask: Bits, b: Bit)
    requires t in s.threads && s.threads[t] == WakeOr(mask)
    ensures Ledger(OrStep(s, t, mask), b) == Ledger(s, b)
  {
    assert Holders(OrStep(s, t, mask), b) == Holders(s, b);
    hide Holders, Count;
    CountSnoc(b, s.raised, mask - s.word);
  }

  /** A result that reaches its caller has one holder fewer. */
  lemma ReturnReleases(s: State, t: nat, log: seq<Bits>, b: Bit)
    requires t in s.threads && s.threads[t].WaitDone?
    ensures |Holders(At(s, t, Outside).(reported := log), b)| == |Holders(s, b)| - Here(b, s.threads[t].efState)
  {
    var s' := At(s, t, Outside).(reported := log);
    if b in s.threads[t].efState {
      assert Holders(s', b) == Holders(s, b) - {t} && t in Holders(s, b);
    } else {
      assert Holders(s', b) == Holders(s, b);
    }
  }

  /** It moves from the holders to the reports. */
  lemma ReturnConserves(s: State, t: nat, b: Bit)
    requires t in s.threads && s.threads[t].WaitDone?
    ensures Ledger(At(s, t, Outside).(reported := s.reported + [s.threads[t].efState]), b) == Ledger(s, b)
  {
    hide Holders, Count, Here;
    ReturnReleases(s, t, s.reported + [s.threads[t].efState], b);
    CountSnoc(b, s.reported, s.threads[t].efState);
  }

  lemma StepConserves(s: State, a: Action, b: Bit)
    ensures Ledger(Next(s, a), b) == Ledger(s, b)
  {
    var t := a.thread;
    if t in s.threads {
      match (s.threads[t], a.act) {
        case (Clear(mask), Step) =>
          TakeConserves(s, t, mask, Compare(mask, s.word - mask), b);
        case (Woken(mask), Step) =>
          TakeConserves(s, t, mask, Failed(mask, Interrupted), b);
        case (WakeOr(mask), Step) =>
          OrConserves(s, t, mask, b);
        case (WaitDone(_, efState), Return) =>
          ReturnConserves(s, t, b);
        case _ =>
          IdleConserves(s, a, b);
      }
    }
  }

  /**
   Conservation. On every run and for each bit: its initial value plus the number of times a wake switched it on is
   the number of times a wait returned it, plus the results on their way to a caller, plus its current value. No
   error, signal, timeout or retry swallows or repeats a notification.
   */
  lemma {:induction false} NotificationsConserved(word: Bits, threads: set<nat>, run: seq<Action>, b: Bit)
    ensures var s := Exec(Init(word, threads), run);
            Here(b, word) + Count(b, s.raised) == Count(b, s.reported) + |Holders(s, b)| + Here(b, s.word)
    decreases |run|
  {
    if run == [] {
      assert Holders(Init(word, threads), b) == {};
    } else {
      NotificationsConserved(word, threads, run[..|run| - 1], b);
      StepConserves(Exec(Init(word, threads), run[..|run| - 1]), run[|run| - 1], b);
    }
  }
}
