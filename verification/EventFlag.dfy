/**
 The event flag as an object: wake(), waitHelper() and wait() with its retry loop. Between two
 of its own accesses other threads may leave any word behind, and the futex call may return anything;
 a `Round` says what one iteration meets, and a script of rounds is what a call meets while it runs.
 */
module EventFlag {
  import opened Prelude
  import opened FutexProtocol

  /** An errno is never success. */
  type Errno = s: Status | s != NoError witness Again

  /** What the futex call of one iteration returned: 0, or -1 with an errno. */
  datatype Kernel = Woke | Refused(error: Errno)

  const NANOS_PER_SECOND: int := 1_000_000_000

  datatype Timespec = Timespec(sec: int, nsec: int) {
    function Nanos(): int {
      sec * NANOS_PER_SECOND + nsec
    }

    /** What the kernel accepts, and gives. */
    predicate Normal() {
      0 <= nsec < NANOS_PER_SECOND
    }
  }

  /** A reading of the kernel's clock. */
  type Reading = t: Timespec | t.Normal() witness Timespec(0, 0)

  /**
   One iteration: the loop's clock at its top, the word found by the first AND, the kernel's clock when the deadline
   is computed, the futex call's result, the word found by the second AND, and how long all of it lasted. The two
   clocks are not the same one; a call that ended with ETIMEDOUT has kept the loop's clock running for its timeout as
   well.
   */
  datatype Round = Round(clock: int, before: Bits, now: Reading, kernel: Kernel, after: Bits, late: nat) {
    function End(): int {
      clock + late
    }
  }

  datatype WaitResult = Returned(status: Status, efState: Bits) | StillWaiting

  /** The clock does not run backwards. */
  ghost predicate Chronological(start: int, script: seq<Round>) {
    && (forall i | 0 <= i < |script| :: start <= script[i].clock)
    && (forall i, j | 0 <= i < j < |script| :: script[i].End() <= script[j].clock)
  }

  function ClockBefore(start: int, script: seq<Round>, i: nat): int
    requires i <= |script|
  {
    if i == 0 then start else script[i - 1].clock
  }

  /** The clock has moved on at the top of every iteration. */
  ghost predicate Advancing(start: int, script: seq<Round>) {
    forall i | 0 <= i < |script| :: ClockBefore(start, script, i) < script[i].clock
  }

  /** When the script is over. */
  function Finish(start: int, script: seq<Round>): int {
    if |script| == 0 then start else script[|script| - 1].End()
  }

  /**
   A futex call: the loop's clock at the top of its iteration, the kernel's when the deadline was computed, and the
   deadline, if there is one.
   */
  datatype FutexCall = FutexCall(clock: int, now: Reading, deadline: Option<Timespec>) {
    /** How long the kernel is asked to wait. */
    function Asked(): int
      requires deadline.Some?
    {
      deadline.value.Nanos() - now.Nanos()
    }

    /** The deadline on the loop's clock, were both clocks read at once. */
    function Aim(): int
      requires deadline.Some?
    {
      clock + Asked()
    }
  }

  /** What one iteration asks for with this timeout; 0 means forever. */
  predicate Asks(call: FutexCall, round: Round, timeout: int) {
    && call.clock == round.clock && call.now == round.now
    && (timeout == 0 <==> call.deadline.None?)
    && (timeout != 0 ==> call.Asked() == timeout)
    && (timeout > 0 ==> call.deadline.value.Normal())
  }

  ghost predicate AskedOnce(before: seq<FutexCall>, asked: seq<FutexCall>, round: Round, timeout: int) {
    |asked| == |before| + 1 && before <= asked && Asks(asked[|before|], round, timeout)
  }

  /**
   What a call with this timeout, begun at `start`, may ask of the kernel: to wait for ever if it is untimed; else no
   longer than its own timeout, up to a deadline that the kernel accepts and that aims at its own, or at most `slack`
   later.
   */
  predicate Within(call: FutexCall, start: int, timeout: int, slack: nat) {
    if timeout == 0 then call.deadline.None?
    else
      && call.deadline.Some? && call.deadline.value.Normal()
      && 0 < call.Asked() <= timeout
      && start + timeout <= call.Aim() <= start + timeout + slack
  }

  /** Every futex call since `before` asked for that. */
  ghost predicate AskedSince(before: seq<FutexCall>, asked: seq<FutexCall>, start: int, timeout: int, slack: nat) {
    before <= asked && forall i | |before| <= i < |asked| :: Within(asked[i], start, timeout, slack)
  }

  /** One more report. */
  function Plus(taken: multiset<Bit>, bits: Bits): (r: multiset<Bit>)
    ensures bits == {} ==> r == taken
  {
    taken + multiset(bits)
  }

  /** The bits one iteration finds. */
  function Found(mask: Bits, round: Round): (bits: Bits)
    ensures bits <= mask
  {
    if round.before * mask != {} then round.before * mask
    else if round.kernel.Woke? then round.after * mask
    else {}
  }

  /** What waitHelper answers. */
  function Answer(mask: Bits, round: Round): (status: Status)
    ensures status == NoError <==> Found(mask, round) != {}
  {
    if Found(mask, round) != {} then NoError
    else if round.kernel.Woke? then Interrupted
    else round.kernel.error
  }

  /**
   Bit by bit and case by case: a bit is found if it is in the mask and on at the first AND, or at the second when the
   first found none and the futex call returned 0; with none found the answer is the call's error, or EINTR if it
   returned 0.
   */
  lemma AnswerMeaning(mask: Bits, round: Round, b: Bit)
    ensures b in Found(mask, round) <==>
            b in mask && (b in round.before || (b in round.after && mask !! round.before && round.kernel == Woke))
    ensures (exists c :: c in mask && c in round.before) ==> Answer(mask, round) == NoError
    ensures mask !! round.before && round.kernel.Refused? ==> Answer(mask, round) == round.kernel.error
    ensures mask !! round.before && round.kernel == Woke ==>
              Answer(mask, round) == if mask !! round.after then Interrupted else NoError
  {
    if c :| c in mask && c in round.before {
      assert c in round.before * mask;
    } else {
      assert round.before * mask == {};
    }
    if !(mask !! round.after) {
      var c :| c in mask && c in round.after;
      assert c in round.after * mask;
    }
  }

  /** What one iteration leaves in the word: what its last AND met, less the mask. */
  function Left(mask: Bits, round: Round): (word: Bits)
    ensures word !! mask
  {
    (if round.before * mask == {} && round.kernel.Woke? then round.after else round.before) - mask
  }

  predicate Due(start: int, timeout: int, clock: int) {
    timeout != 0 && start + timeout <= clock
  }

  /** A retrying wait() ends in this iteration: its time is up, or the answer is not one to retry. */
  predicate Ends(mask: Bits, start: int, timeout: int, round: Round) {
    Due(start, timeout, round.clock) || (Answer(mask, round) != Again && Answer(mask, round) != Interrupted)
  }

  /** The first iteration in which it ends, if any. */
  function Last(mask: Bits, start: int, timeout: int, script: seq<Round>): (n: nat)
    ensures n <= |script| && forall i | 0 <= i < n :: !Ends(mask, start, timeout, script[i])
    ensures n < |script| ==> Ends(mask, start, timeout, script[n])
  {
    if script == [] || Ends(mask, start, timeout, script[0]) then 0 else 1 + Last(mask, start, timeout, script[1..])
  }

  /** What a retrying wait() returns. */
  function Verdict(mask: Bits, start: int, timeout: int, script: seq<Round>): WaitResult {
    var n := Last(mask, start, timeout, script);
    if n == |script| then StillWaiting
    else if Due(start, timeout, script[n].clock) then Returned(TimedOut, {})
    else Returned(Answer(mask, script[n]), Found(mask, script[n]))
  }

  /** The word after a retrying wait(): what its last iteration left, or as it was before the first. */
  function WordAfter(mask: Bits, start: int, timeout: int, script: seq<Round>, word: Bits): Bits {
    var n := Last(mask, start, timeout, script);
    if n < |script| && !Due(start, timeout, script[n].clock) then Left(mask, script[n])
    else if n > 0 then Left(mask, script[n - 1])
    else word
  }

  /** wait() goes round again after each of the first n iterations. */
  ghost predicate Fruitless(mask: Bits, script: seq<Round>, n: nat) {
    && n <= |script|
    && forall i | 0 <= i < n :: Answer(mask, script[i]) == Again || Answer(mask, script[i]) == Interrupted
  }

  /**
   A retrying wait() ended with the first iteration that was not fruitless, or because its time was up, or not yet.
   */
  ghost predicate EndsAt(result: WaitResult, mask: Bits, script: seq<Round>, rounds: nat, timeout: int) {
    && Fruitless(mask, script, rounds)
    && match result
       case StillWaiting => rounds == |script|
       case Returned(status, efState) =>
         || (&& rounds < |script| && status == Answer(mask, script[rounds]) && efState == Found(mask, script[rounds])
             && status != Again && status != Interrupted)
         || (timeout != 0 && status == TimedOut && efState == {})
  }

  /** Bad input is found out in the first iteration, unless the time is up before it. */
  predicate BadResult(result: WaitResult, efIn: Bits, start: int, timeout: int, script: seq<Round>) {
    result ==
      if |script| == 0 then StillWaiting
      else if Due(start, timeout, script[0].clock) then Returned(TimedOut, {})
      else Returned(BadValue, efIn)
  }

  lemma LastIs(mask: Bits, start: int, timeout: int, script: seq<Round>, n: nat)
    requires n <= |script| && forall i | 0 <= i < n :: !Ends(mask, start, timeout, script[i])
    requires n < |script| ==> Ends(mask, start, timeout, script[n])
    ensures Last(mask, start, timeout, script) == n
  {
  }

  /** wait() has gone round n times, and left this word. */
  ghost predicate Tried(mask: Bits, start: int, timeout: int, script: seq<Round>, n: nat, before: Bits, word: Bits) {
    && n <= |script|
    && (forall i | 0 <= i < n :: !Ends(mask, start, timeout, script[i]))
    && word == if n == 0 then before else Left(mask, script[n - 1])
  }

  /** It has ended after as many fruitless iterations as there are, with the result and the word they give. */
  ghost predicate Ended(result: WaitResult, mask: Bits, start: int, timeout: int, script: seq<Round>, n: nat,
                        before: Bits, word: Bits) {
    && n == Last(mask, start, timeout, script)
    && result == Verdict(mask, start, timeout, script)
    && word == WordAfter(mask, start, timeout, script, before)
    && EndsAt(result, mask, script, n, timeout)
  }

  lemma TriedOnce(mask: Bits, start: int, timeout: int, script: seq<Round>, n: nat, before: Bits, word: Bits)
    requires Tried(mask, start, timeout, script, n, before, word) && n < |script|
    requires !Due(start, timeout, script[n].clock)
    requires Answer(mask, script[n]) == Again || Answer(mask, script[n]) == Interrupted
    ensures Tried(mask, start, timeout, script, n + 1, before, Left(mask, script[n]))
  {
  }

  lemma AnswerEnds(mask: Bits, start: int, timeout: int, script: seq<Round>, n: nat, before: Bits, word: Bits)
    requires Tried(mask, start, timeout, script, n, before, word) && n < |script|
    requires !Due(start, timeout, script[n].clock)
    requires Answer(mask, script[n]) != Again && Answer(mask, script[n]) != Interrupted
    ensures Ended(Returned(Answer(mask, script[n]), Found(mask, script[n])), mask, start, timeout, script, n, before,
                  Left(mask, script[n]))
  {
    LastIs(mask, start, timeout, script, n);
    hide Left, Found, Answer, Last;
  }

  lemma TimeEnds(mask: Bits, start: int, timeout: int, script: seq<Round>, n: nat, before: Bits, word: Bits)
    requires Tried(mask, start, timeout, script, n, before, word)
    requires n < |script| ==> Due(start, timeout, script[n].clock)
    ensures Ended(if n < |script| then Returned(TimedOut, {}) else StillWaiting, mask, start, timeout, script, n,
                  before, word)
  {
    LastIs(mask, start, timeout, script, n);
    hide Left, Found, Answer, Last;
  }

  lemma AskedOneMore(before: seq<FutexCall>, middle: seq<FutexCall>, asked: seq<FutexCall>, start: int, timeout: int,
                     round: Round, remaining: int)
    requires AskedSince(before, middle, start, timeout, 0) && AskedOnce(middle, asked, round, remaining)
    requires if timeout == 0 then remaining == 0
             else 0 < remaining <= timeout && round.clock + remaining == start + timeout
    ensures AskedSince(before, asked, start, timeout, 0)
  {
  }

  /** Where the i-th round stands in time. */
  lemma InTime(start: int, script: seq<Round>, i: nat)
    requires Chronological(start, script) && i < |script|
    ensures start <= script[i].clock <= script[i].End() <= Finish(start, script)
  {
  }

  /** An advancing clock is past start + i at iteration i. */
  lemma {:induction false} ClockMoves(start: int, script: seq<Round>, i: nat)
    requires Advancing(start, script) && i <= |script|
    ensures start + i <= ClockBefore(start, script, i)
  {
    if i > 0 {
      ClockMoves(start, script, i - 1);
      assert ClockBefore(start, script, i - 1) < script[i - 1].clock;
    }
  }

  /** So it uses up a timeout no longer than the script. */
  lemma TimeRunsOut(start: int, script: seq<Round>, timeout: int, remaining: int)
    requires |script| > 0 ==> remaining > 0 && remaining + ClockBefore(start, script, |script|) == timeout + start
    ensures !(Advancing(start, script) && |script| >= timeout && |script| > 0)
  {
    if Advancing(start, script) {
      ClockMoves(start, script, |script|);
    }
  }

  class EventFlag {
    var word: Bits

    // What this object's operations took out of the word, and the futex calls they made.
    ghost var taken: multiset<Bit>
    ghost var asked: seq<FutexCall>

    constructor (word: Bits)
      ensures this.word == word && taken == multiset{} && asked == []
    {
      this.word := word;
      taken, asked := multiset{}, [];
    }

    /**
     wake(): `found` is the word the OR meets, `failure` an errno of the futex call. All bits of the mask end up on, and
     the futex call is made exactly when some bit was off.
     */
    method Wake(mask: Bits, found: Bits, failure: Option<nat>) returns (status: Status, called: bool)
      modifies this`word
      ensures mask == {} ==> word == old(word)
      ensures mask != {} ==> word == found + mask
      ensures called <==> !(mask <= found)
      ensures status == if called && failure.Some? then OtherError(failure.value) else NoError
    {
      if mask == {} {
        return NoError, false;
      }
      status := NoError;
      word := found + mask;
      called := mask - found != {};
      assert called <==> !(mask <= found) by {
        if !called {
          forall b | b in mask ensures b in found {
            assert b !in mask - found;
          }
        }
      }
      if called {
        if failure.Some? {
          status := OtherError(failure.value);
        }
      }
    }

    /** atomic_fetch_and of the complement, on the word as it is found. */
    method TakeBits(mask: Bits, found: Bits) returns (setBits: Bits)
      modifies this`word, this`taken
      ensures word == found - mask && setBits == found * mask
      ensures taken == Plus(old(taken), setBits)
    {
      setBits := found * mask;
      word := found - mask;
      taken := Plus(taken, setBits);
    }

    /** waitHelper(): at most one futex call; bits leave the word only as the reported state. */
    method WaitHelper(mask: Bits, hasState: bool, efIn: Bits, timeout: int, round: Round)
      returns (status: Status, efState: Bits, end: int)
      modifies this`word, this`taken, this`asked
      ensures mask == {} || !hasState ==>
                status == BadValue && efState == efIn && word == old(word) && taken == old(taken) && asked == old(asked)
      ensures mask != {} && hasState ==>
                && status == Answer(mask, round) && efState == Found(mask, round)
                && taken == Plus(old(taken), efState)
                && (if round.before * mask != {} then asked == old(asked)
                    else AskedOnce(old(asked), asked, round, timeout))
                && word == Left(mask, round)
      ensures end == if mask != {} && hasState && timeout > 0 && status == TimedOut then round.End() + timeout
                     else round.End()
    {
      end := round.End();
      if mask == {} || !hasState {
        return BadValue, efIn, end;
      }
      status := NoError;
      var setBits := TakeBits(mask, round.before);
      if setBits != {} {
        return status, setBits, end;
      }
      ghost var deadline := None;
      if timeout != 0 {
        var waitTimeAbsolute := AddNanosecondsToCurrentTime(round.now, timeout);
        deadline := Some(waitTimeAbsolute);
      }
      asked := asked + [FutexCall(round.clock, round.now, deadline)];
      match round.kernel {
        case Refused(error) =>
          status := error;
          efState := {};
          if error == TimedOut && timeout > 0 {
            end := end + timeout;
          }
        case Woke =>
          efState := TakeBits(mask, round.after);
          if efState == {} {
            status := Interrupted;
          }
      }
    }

    /** waitHelper() inside a longer wait: its futex call, if it makes one, asks for what the longer wait may. */
    method WaitOnce(mask: Bits, hasState: bool, efIn: Bits, remaining: int, round: Round, ghost before: seq<FutexCall>,
                    ghost start: int, ghost timeout: int)
      returns (status: Status, efState: Bits, end: int)
      requires AskedSince(before, asked, start, timeout, 0)
      requires if timeout == 0 then remaining == 0
               else 0 < remaining <= timeout && round.clock + remaining == start + timeout
      modifies this`word, this`taken, this`asked
      ensures AskedSince(before, asked, start, timeout, 0)
      ensures mask == {} || !hasState ==>
                status == BadValue && efState == efIn && word == old(word) && taken == old(taken)
      ensures mask != {} && hasState ==>
                && status == Answer(mask, round) && efState == Found(mask, round)
                && word == Left(mask, round) && taken == Plus(old(taken), efState)
      ensures end == if mask != {} && hasState && remaining > 0 && status == TimedOut then round.End() + remaining
                     else round.End()
    {
      hide AskedSince, AskedOnce, Found, Answer, Left, Plus;
      ghost var askedBefore := asked;
      status, efState, end := WaitHelper(mask, hasState, efIn, remaining, round);
      if asked != askedBefore {
        AskedOneMore(before, askedBefore, asked, start, timeout, round, remaining);
      }
    }

    /**
     The retry loop of wait(). `start` is the first clock reading, `rounds` the number of iterations that were
     fruitless. EAGAIN and EINTR never reach the caller; success reports a non-empty part of the mask and anything else
     reports nothing; exactly the reported bits have left the word. A timed call gives every futex call a deadline
     that aims at its own, ends for lack of time only when its time is up, and ends within `timeout`
     iterations of an advancing clock.
     */
    method WaitRetrying(mask: Bits, hasState: bool, efIn: Bits, timeout: int, start: int, script: seq<Round>)
      returns (result: WaitResult, end: int, ghost rounds: nat)
      requires Chronological(start, script)
      requires timeout != 0 ==> hasState
      modifies this`word, this`taken, this`asked
      ensures AskedSince(old(asked), asked, start, timeout, 0)
      ensures mask == {} || !hasState ==>
                word == old(word) && taken == old(taken) && BadResult(result, efIn, start, timeout, script)
      ensures mask != {} && hasState ==>
                && Ended(result, mask, start, timeout, script, rounds, old(word), word)
                && taken == if result.Returned? then Plus(old(taken), result.efState) else old(taken)
      ensures result.StillWaiting? <==> rounds == |script|
      ensures rounds <= |script|
      ensures result.Returned? && result.status == TimedOut && timeout != 0 ==> start + timeout <= end
      ensures (result.Returned? && result.status == TimedOut) || start <= end <= Finish(start, script)
      ensures timeout != 0 && Advancing(start, script) && |script| >= timeout && |script| > 0 ==> result.Returned?
    {
      end := start;
      var shouldTimeOut := timeout != 0;
      var remaining, prevTime := timeout, start;
      var i := 0;
      assert Tried(mask, start, timeout, script, 0, word, word) && AskedSince(asked, asked, start, timeout, 0)
             && start <= Finish(start, script);
      hide Chronological, Advancing, AskedSince, AskedOnce, Finish, Found, Answer, Fruitless, Plus, EndsAt, Left, Last,
           Tried, Ended;
      while i < |script|
        invariant 0 <= i <= |script|
        invariant if mask != {} && hasState then Tried(mask, start, timeout, script, i, old(word), word)
                  else i == 0 && word == old(word)
        invariant taken == old(taken) && AskedSince(old(asked), asked, start, timeout, 0)
        invariant if shouldTimeOut then remaining + prevTime == timeout + start else remaining == 0
        invariant shouldTimeOut ==> prevTime == ClockBefore(start, script, i) && (i > 0 ==> remaining > 0)
        invariant start <= end <= Finish(start, script)
      {
        rounds := i;
        var round := script[i];
        InTime(start, script, i);
        if shouldTimeOut {
          var currentTime := round.clock;
          remaining := remaining - (currentTime - prevTime);
          prevTime := currentTime;
          if remaining <= 0 {
            if mask != {} && hasState {
              TimeEnds(mask, start, timeout, script, i, old(word), word);
            }
            return Returned(TimedOut, {}), round.clock, i;
          }
        }
        ghost var wordBefore := word;
        var status, efState;
        status, efState, end := WaitOnce(mask, hasState, efIn, remaining, round, old(asked), start, timeout);
        if status != Again && status != Interrupted {
          if mask != {} && hasState {
            AnswerEnds(mask, start, timeout, script, i, old(word), wordBefore);
          }
          return Returned(status, efState), end, i;
        }
        if mask != {} && hasState {
          TriedOnce(mask, start, timeout, script, i, old(word), wordBefore);
        }
        i := i + 1;
      }
      if mask != {} && hasState {
        TimeEnds(mask, start, timeout, script, i, old(word), word);
      }
      if shouldTimeOut {
        TimeRunsOut(start, script, timeout, remaining);
      }
      result, rounds := StillWaiting, |script|;
    }

    /** wait(): without retry, what the one futex call gives. */
    method Wait(mask: Bits, hasState: bool, efIn: Bits, timeout: int, retry: bool, start: int, script: seq<Round>)
      returns (result: WaitResult, end: int, ghost rounds: nat)
      requires Chronological(start, script)
      requires retry && timeout != 0 ==> hasState
      modifies this`word, this`taken, this`asked
      ensures retry ==> AskedSince(old(asked), asked, start, timeout, 0)
      ensures rounds <= |script| && (result.StillWaiting? <==> rounds == |script|) && (!retry ==> rounds == 0)
      ensures result.StillWaiting? ==> taken == old(taken)
      ensures mask == {} || !hasState ==>
                && word == old(word) && taken == old(taken)
                && BadResult(result, efIn, start, if retry then timeout else 0, script)
      ensures mask != {} && hasState && !retry ==>
                && result == (if |script| == 0 then StillWaiting
                              else Returned(Answer(mask, script[0]), Found(mask, script[0])))
                && word == if |script| == 0 then old(word) else Left(mask, script[0])
      ensures mask != {} && hasState && retry ==>
                && rounds == Last(mask, start, timeout, script)
                && result == Verdict(mask, start, timeout, script)
                && word == WordAfter(mask, start, timeout, script, old(word))
      ensures mask != {} && hasState ==>
                && Fruitless(mask, script, rounds)
                && (result.Returned? ==>
                      && result.efState <= mask && (result.status == NoError <==> result.efState != {})
                      && taken == Plus(old(taken), result.efState)
                      && (|| result == Returned(Answer(mask, script[rounds]), Found(mask, script[rounds]))
                          || (retry && timeout != 0 && result == Returned(TimedOut, {}))))
      ensures result.Returned? && retry ==> result.status != Again && result.status != Interrupted
      ensures result.Returned? && retry && result.status == TimedOut && timeout != 0 ==> start + timeout <= end
      ensures (result.Returned? && result.status == TimedOut) || start <= end <= Finish(start, script)
      ensures retry && timeout != 0 && Advancing(start, script) && |script| >= timeout && |script| > 0 ==>
              result.Returned?
    {
      if !retry {
        if |script| == 0 {
          return StillWaiting, start, 0;
        }
        var status, efState;
        status, efState, end := WaitHelper(mask, hasState, efIn, timeout, script[0]);
        InTime(start, script, 0);
        return Returned(status, efState), end, 0;
      }
      hide Chronological, Advancing, AskedSince, AskedOnce, Finish, Found, Answer, Fruitless, Plus, Left, Last;
      result, end, rounds := WaitRetrying(mask, hasState, efIn, timeout, start, script);
    }
  }

  // ----- deadlines -----

  /** Division and remainder toward zero. */
  function TruncDiv(a: int, b: int): int
    requires b > 0
  {
    if a >= 0 then a / b else -((-a) / b)
  }

  function TruncMod(a: int, b: int): int
    requires b > 0
  {
    a - TruncDiv(a, b) * b
  }

  /**
   addNanosecondsToCurrentTime: the exact deadline, and one the kernel accepts if and only if the nanoseconds do not
   go below zero, as they never do for the positive timeouts wait() passes on when it retries.
   */
  method AddNanosecondsToCurrentTime(now: Timespec, nanoSeconds: int) returns (waitTime: Timespec)
    requires now.Normal()
    ensures waitTime.Nanos() == now.Nanos() + nanoSeconds
    ensures waitTime.Normal() <==> now.nsec + TruncMod(nanoSeconds, NANOS_PER_SECOND) >= 0
    ensures nanoSeconds >= 0 ==> waitTime.Normal()
  {
    waitTime := now;
    waitTime := waitTime.(sec := waitTime.sec + TruncDiv(nanoSeconds, NANOS_PER_SECOND));
    waitTime := waitTime.(nsec := waitTime.nsec + TruncMod(nanoSeconds, NANOS_PER_SECOND));
    if waitTime.nsec >= NANOS_PER_SECOND {
      waitTime := waitTime.(sec := waitTime.sec + 1);
      waitTime := waitTime.(nsec := waitTime.nsec - NANOS_PER_SECOND);
    }
  }
}
