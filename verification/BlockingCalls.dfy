/**
 writeBlocking() and readBlocking() on the objects of one process. A `Lap` is what one pass of the outer
 loop meets: what the peer has done to the queue since the last attempt, the clock, and what the wait()
 of that pass meets. Either call gives up for lack of time only when its time is up, in its own loop or
 in the retry loop of the wait() inside it.
 */
module BlockingCalls {
  import opened Prelude
  import F = FutexProtocol
  import E = EventFlag
  import Q = MessageQueue
  import Ring

  datatype Lap<P> = Lap(progress: P, clock: int, waitStart: int, waits: seq<E.Round>)

  /**
   Done is the program's true and the next three its false; StillBlocked has used up its laps, `waiting` inside wait()
   or not.
   */
  datatype Outcome = Done | Refused | Expired | WaitFailed(status: F.Status) | StillBlocked(waiting: bool)

  /** The notification the peer's wake() meets, and an errno of its futex call. */
  datatype Wakeup = Wakeup(found: F.Bits, failure: Option<nat>)

  // ----- time -----

  ghost predicate Chronological<P>(start: int, laps: seq<Lap<P>>) {
    forall i | 0 <= i < |laps| ::
      && start <= laps[i].clock <= laps[i].waitStart
      && E.Chronological(laps[i].waitStart, laps[i].waits)
  }

  function ClockBefore<P>(start: int, laps: seq<Lap<P>>, i: nat): int
    requires i <= |laps|
  {
    if i == 0 then start else laps[i - 1].clock
  }

  /** The clock moves on between laps and inside every wait(), and the script is long enough to see the time out. */
  ghost predicate Advancing<P>(start: int, timeOut: int, laps: seq<Lap<P>>) {
    && 0 < |laps| && timeOut <= |laps|
    && forall i | 0 <= i < |laps| ::
         && ClockBefore(start, laps, i) < laps[i].clock
         && E.Advancing(laps[i].waitStart, laps[i].waits)
         && 0 < |laps[i].waits| && timeOut <= |laps[i].waits|
  }

  /**
   The futex call of this iteration fails only as it is meant to: with EAGAIN, EINTR or, given a timeout, ETIMEDOUT.
   */
  predicate Expected(round: E.Round, timeOut: int) {
    round.kernel.Refused? ==>
      match round.kernel.error
      case Again => true
      case Interrupted => true
      case TimedOut => timeOut != 0
      case _ => false
  }

  ghost predicate Undisturbed<P>(laps: seq<Lap<P>>, timeOut: int) {
    forall i, j | 0 <= i < |laps| && 0 <= j < |laps[i].waits| :: Expected(laps[i].waits[j], timeOut)
  }

  lemma LapInTime<P>(start: int, laps: seq<Lap<P>>, i: nat)
    requires Chronological(start, laps) && i < |laps|
    ensures start <= laps[i].clock <= laps[i].waitStart && E.Chronological(laps[i].waitStart, laps[i].waits)
  {
  }

  lemma LapAdvances<P>(start: int, timeOut: int, laps: seq<Lap<P>>, i: nat)
    requires Advancing(start, timeOut, laps) && i < |laps|
    ensures ClockBefore(start, laps, i) < laps[i].clock && E.Advancing(laps[i].waitStart, laps[i].waits)
    ensures 0 < |laps[i].waits| && timeOut <= |laps[i].waits| && timeOut <= |laps|
  {
  }

  /** An undisturbed wait() answers NO_ERROR or, given a timeout, ETIMEDOUT. */
  lemma ExpectedAnswer<P>(laps: seq<Lap<P>>, timeOut: int, i: nat, j: nat, mask: F.Bits)
    requires Undisturbed(laps, timeOut) && i < |laps| && j < |laps[i].waits|
    ensures var answer := E.Answer(mask, laps[i].waits[j]);
            answer in {F.NoError, F.Again, F.Interrupted} || (answer == F.TimedOut && timeOut != 0)
  {
    assert Expected(laps[i].waits[j], timeOut);
  }

  /**
   A call that gives up has waited as long as it was asked to, in its own loop or in wait(), unless the futex call
   failed in some other way; and on a clock that moves on it does not wait for ever.
   */
  ghost predicate Timely<P>(outcome: Outcome, end: int, start: int, timeOut: int, laps: seq<Lap<P>>) {
    && (outcome.Expired? ==> timeOut != 0 && start + timeOut <= end)
    && (outcome.WaitFailed? ==>
          && outcome.status !in {F.NoError, F.Again, F.Interrupted}
          && (outcome.status.TimedOut? && timeOut != 0 ==> start + timeOut <= end)
          && (Undisturbed(laps, timeOut) ==> outcome.status.TimedOut? && timeOut != 0))
    && (timeOut != 0 && Advancing(start, timeOut, laps) ==> !outcome.StillBlocked?)
  }

  /** The attempt made when the budget is used up. */
  lemma TimelyAttempt<P>(ok: bool, end: int, start: int, timeOut: int, laps: seq<Lap<P>>)
    requires !ok ==> timeOut != 0 && start + timeOut <= end
    ensures Timely(if ok then Done else Expired, end, start, timeOut, laps)
  {
  }

  /** A clock that moves on is past start + i at lap i. */
  lemma {:induction false} ClockMoves<P>(start: int, timeOut: int, laps: seq<Lap<P>>, i: nat)
    requires Advancing(start, timeOut, laps) && i <= |laps|
    ensures start + i <= ClockBefore(start, laps, i)
  {
    if i > 0 {
      ClockMoves(start, timeOut, laps, i - 1);
      LapAdvances(start, timeOut, laps, i - 1);
    }
  }

  /** And so uses up the budget before the laps. */
  lemma TimelyEnd<P>(remaining: int, end: int, start: int, timeOut: int, laps: seq<Lap<P>>)
    requires timeOut != 0 && |laps| > 0 ==> OnBudget(remaining, ClockBefore(start, laps, |laps|), timeOut, start)
    ensures Timely(StillBlocked(false), end, start, timeOut, laps)
  {
    if Advancing(start, timeOut, laps) {
      ClockMoves(start, timeOut, laps, |laps|);
    }
  }

  /** The longest a lap takes from its clock reading to that of its wait(). */
  ghost function Slack<P>(laps: seq<Lap<P>>): nat {
    if |laps| == 0 then 0 else
    var before, lap := Slack(laps[..|laps| - 1]), laps[|laps| - 1];
    if lap.waitStart - lap.clock > before then lap.waitStart - lap.clock else before
  }

  lemma {:induction false} SlackOf<P>(laps: seq<Lap<P>>, i: nat)
    requires i < |laps|
    ensures laps[i].waitStart - laps[i].clock <= Slack(laps)
  {
    if i < |laps| - 1 {
      SlackOf(laps[..|laps| - 1], i);
    }
  }

  /** A wait() on what is left of the budget asks within it, and for the deadline of the whole call. */
  lemma AskedSooner<P>(before: seq<E.FutexCall>, middle: seq<E.FutexCall>, asked: seq<E.FutexCall>, remaining: int,
                       timeOut: int, start: int, laps: seq<Lap<P>>, i: nat)
    requires i < |laps| && Chronological(start, laps) && OnBudget(remaining, laps[i].clock, timeOut, start)
    requires E.AskedSince(before, middle, start, timeOut, Slack(laps))
    requires E.AskedSince(middle, asked, laps[i].waitStart, remaining, 0)
    ensures E.AskedSince(before, asked, start, timeOut, Slack(laps))
  {
    SlackOf(laps, i);
    hide Slack;
    forall k | |before| <= k < |asked|
      ensures E.Within(asked[k], start, timeOut, Slack(laps))
    {
      if k < |middle| {
        assert middle[k] == asked[k];
      } else {
        assert E.Within(asked[k], laps[i].waitStart, remaining, 0);
      }
    }
  }

  // ----- the course of a call -----

  /** How a call that has to wait ends, and what it leaves in the event flag's word. */
  datatype Course = Course(outcome: Outcome, word: F.Bits)

  /** What a lap gives its wait(). */
  function Budget(timeOut: int, start: int, clock: int): int {
    if timeOut == 0 then 0 else timeOut + start - clock
  }

  /** How the wait() of a lap ends the call, unless it brings a notification. */
  function Paused<P>(mask: F.Bits, timeOut: int, start: int, lap: Lap<P>): Option<Outcome> {
    match E.Verdict(mask, lap.waitStart, Budget(timeOut, start, lap.clock), lap.waits)
    case StillWaiting => Some(StillBlocked(true))
    case Returned(status, _) => if status == F.NoError then None else Some(WaitFailed(status))
  }

  function WordPaused<P>(mask: F.Bits, timeOut: int, start: int, lap: Lap<P>, word: F.Bits): F.Bits {
    E.WordAfter(mask, lap.waitStart, Budget(timeOut, start, lap.clock), lap.waits, word)
  }

  /** How a lap ends the call, unless it is followed by another; `enough` says whether an attempt in it succeeds. */
  function Lapse<P>(mask: F.Bits, timeOut: int, start: int, lap: Lap<P>, enough: bool): Option<Outcome> {
    if E.Due(start, timeOut, lap.clock) then Some(if enough then Done else Expired)
    else
      match Paused(mask, timeOut, start, lap)
      case Some(outcome) => Some(outcome)
      case None => if enough then Some(Done) else None
  }

  function WordLapsed<P>(mask: F.Bits, timeOut: int, start: int, lap: Lap<P>, word: F.Bits): F.Bits {
    if E.Due(start, timeOut, lap.clock) then word else WordPaused(mask, timeOut, start, lap, word)
  }

  /** The course from lap i on. */
  function CourseFrom<P>(mask: F.Bits, timeOut: int, start: int, laps: seq<Lap<P>>, enough: seq<bool>, i: nat,
                         word: F.Bits): Course
    requires i <= |laps| == |enough|
    decreases |laps| - i
  {
    if i == |laps| then Course(StillBlocked(false), word)
    else
      var now := WordLapsed(mask, timeOut, start, laps[i], word);
      match Lapse(mask, timeOut, start, laps[i], enough[i])
      case Some(outcome) => Course(outcome, now)
      case None => CourseFrom(mask, timeOut, start, laps, enough, i + 1, now)
  }

  /** The call has come to lap i, with this word. */
  ghost predicate OnCourse<P>(course: Course, mask: F.Bits, timeOut: int, start: int, laps: seq<Lap<P>>,
                              enough: seq<bool>, i: nat, word: F.Bits)
  {
    i <= |laps| == |enough| && course == CourseFrom(mask, timeOut, start, laps, enough, i, word)
  }

  /** A lap further on. */
  lemma CourseGoesOn<P>(course: Course, mask: F.Bits, timeOut: int, start: int, laps: seq<Lap<P>>, enough: seq<bool>,
                        i: nat, word: F.Bits, succeeds: bool, stop: Option<Outcome>, now: F.Bits)
    requires i < |laps| == |enough| && succeeds == enough[i]
    requires OnCourse(course, mask, timeOut, start, laps, enough, i, word)
    requires stop == Lapse(mask, timeOut, start, laps[i], succeeds)
    requires now == WordLapsed(mask, timeOut, start, laps[i], word)
    ensures match stop
            case Some(outcome) => course == Course(outcome, now)
            case None => OnCourse(course, mask, timeOut, start, laps, enough, i + 1, now)
  {
  }

  /** Each of the first n laps has had its notification, without time running out or an attempt succeeding. */
  ghost predicate Passed<P>(mask: F.Bits, timeOut: int, start: int, laps: seq<Lap<P>>, enough: seq<bool>, n: nat)
    requires n <= |laps| == |enough|
  {
    forall k | 0 <= k < n :: Lapse(mask, timeOut, start, laps[k], enough[k]).None?
  }

  /** The first lap that ends the call says how; if none does, it is in its loop still. */
  lemma {:induction false} CourseIs<P>(mask: F.Bits, timeOut: int, start: int, laps: seq<Lap<P>>, enough: seq<bool>,
                                       i: nat, n: nat, word: F.Bits)
    requires i <= n <= |laps| == |enough| && Passed(mask, timeOut, start, laps, enough, n)
    requires n < |laps| ==> Lapse(mask, timeOut, start, laps[n], enough[n]).Some?
    ensures CourseFrom(mask, timeOut, start, laps, enough, i, word).outcome ==
            if n < |laps| then Lapse(mask, timeOut, start, laps[n], enough[n]).value else StillBlocked(false)
    decreases n - i
  {
    hide Lapse, WordLapsed;
    if i < n {
      CourseIs(mask, timeOut, start, laps, enough, i + 1, n, WordLapsed(mask, timeOut, start, laps[i], word));
    }
  }

  /** There is such a lap, or none. */
  lemma {:induction false} FirstEnd<P>(mask: F.Bits, timeOut: int, start: int, laps: seq<Lap<P>>, enough: seq<bool>,
                                       i: nat)
    returns (n: nat)
    requires i <= |laps| == |enough| && Passed(mask, timeOut, start, laps, enough, i)
    ensures i <= n <= |laps| && Passed(mask, timeOut, start, laps, enough, n)
    ensures n < |laps| ==> Lapse(mask, timeOut, start, laps[n], enough[n]).Some?
    decreases |laps| - i
  {
    hide Lapse;
    n := i;
    if i < |laps| && Lapse(mask, timeOut, start, laps[i], enough[i]).None? {
      n := FirstEnd(mask, timeOut, start, laps, enough, i + 1);
    }
  }

  /** An untimed wait() that meets these rounds finds a bit after fruitless iterations only. */
  ghost predicate Notifies(mask: F.Bits, waits: seq<E.Round>) {
    exists j :: 0 <= j < |waits| && E.Fruitless(mask, waits, j) && E.Found(mask, waits[j]) != {}
  }

  /** It brings a notification exactly then, and never ends exactly if all of them are fruitless. */
  lemma UntimedPause<P>(mask: F.Bits, start: int, lap: Lap<P>)
    ensures Paused(mask, 0, start, lap).None? <==> Notifies(mask, lap.waits)
    ensures Paused(mask, 0, start, lap) == Some(StillBlocked(true)) <==> E.Fruitless(mask, lap.waits, |lap.waits|)
  {
    var n := E.Last(mask, lap.waitStart, 0, lap.waits);
    hide E.Last, E.Found, E.Answer;
    if Paused(mask, 0, start, lap).None? {
      assert E.Fruitless(mask, lap.waits, n) && E.Found(mask, lap.waits[n]) != {};
    }
    if Notifies(mask, lap.waits) {
      var j :| 0 <= j < |lap.waits| && E.Fruitless(mask, lap.waits, j) && E.Found(mask, lap.waits[j]) != {};
      E.LastIs(mask, lap.waitStart, 0, lap.waits, j);
    }
    if E.Fruitless(mask, lap.waits, |lap.waits|) {
      E.LastIs(mask, lap.waitStart, 0, lap.waits, |lap.waits|);
    }
  }

  lemma UntimedLapse<P>(mask: F.Bits, start: int, lap: Lap<P>, enough: bool)
    ensures Lapse(mask, 0, start, lap, enough) == Some(Done) <==> enough && Notifies(mask, lap.waits)
    ensures Lapse(mask, 0, start, lap, enough).None? <==> !enough && Notifies(mask, lap.waits)
  {
    UntimedPause(mask, start, lap);
    hide Notifies, E.Verdict;
  }

  /** Every wait() up to lap n, if untimed, brings a notification. */
  ghost predicate NotifiedTo<P>(mask: F.Bits, laps: seq<Lap<P>>, n: nat) {
    n < |laps| && forall k | 0 <= k <= n :: Notifies(mask, laps[k].waits)
  }

  /**
   An untimed call succeeds if and only if some lap finds enough and every lap up to it has been notified. No other
   condition is needed: such a call never gives up, and never waits on.
   */
  lemma UntimedDone<P>(mask: F.Bits, start: int, laps: seq<Lap<P>>, enough: seq<bool>, word: F.Bits)
    requires |laps| == |enough|
    ensures CourseFrom(mask, 0, start, laps, enough, 0, word).outcome.Done? <==>
            exists n: nat :: NotifiedTo(mask, laps, n) && enough[n]
  {
    hide Lapse, Notifies, CourseFrom;
    forall k | 0 <= k < |laps|
      ensures Lapse(mask, 0, start, laps[k], enough[k]) == Some(Done) <==> enough[k] && Notifies(mask, laps[k].waits)
      ensures Lapse(mask, 0, start, laps[k], enough[k]).None? <==> !enough[k] && Notifies(mask, laps[k].waits)
    {
      UntimedLapse(mask, start, laps[k], enough[k]);
    }
    var n := FirstEnd(mask, 0, start, laps, enough, 0);
    CourseIs(mask, 0, start, laps, enough, 0, n, word);
    if m: nat :| NotifiedTo(mask, laps, m) && enough[m] {
      assert n <= m;
    }
    assert n < |laps| && enough[n] && (forall k | 0 <= k <= n :: Notifies(mask, laps[k].waits)) ==>
        NotifiedTo(mask, laps, n);
  }

  /**
   A call is blocked in wait() only because a lap it has reached in time meets nothing but fruitless iterations; in
   its loop, if and only if it has passed every lap; and it gives up for lack of time in its loop if and only if the
   budget is used up in a lap it has reached that does not find enough.
   */
  lemma CourseEnds<P>(mask: F.Bits, timeOut: int, start: int, laps: seq<Lap<P>>, enough: seq<bool>, word: F.Bits)
    requires |laps| == |enough|
    ensures var outcome := CourseFrom(mask, timeOut, start, laps, enough, 0, word).outcome;
            && (outcome == StillBlocked(true) ==>
                  exists n :: 0 <= n < |laps| && Passed(mask, timeOut, start, laps, enough, n)
                              && !E.Due(start, timeOut, laps[n].clock)
                              && E.Fruitless(mask, laps[n].waits, |laps[n].waits|))
            && (outcome == StillBlocked(false) <==> Passed(mask, timeOut, start, laps, enough, |laps|))
            && (outcome.Expired? <==>
                  exists n :: 0 <= n < |laps| && Passed(mask, timeOut, start, laps, enough, n)
                              && E.Due(start, timeOut, laps[n].clock) && !enough[n])
            && !outcome.Refused?
  {
    var n := FirstEnd(mask, timeOut, start, laps, enough, 0);
    CourseIs(mask, timeOut, start, laps, enough, 0, n, word);
    hide CourseFrom, E.Answer, E.Found;
    if n < |laps| && Paused(mask, timeOut, start, laps[n]) == Some(StillBlocked(true)) {
      assert E.Fruitless(mask, laps[n].waits, |laps[n].waits|);
    }
  }

  // ----- the peer -----

  /** Messages the reader has not passed. */
  ghost function Behind<T>(q: Q.MessageQueue<T>): int
    reads q`written, q`position
  {
    |q.written| - q.position
  }

  /** What is left pending by a reader that takes up to n messages. */
  function LeftBy(pending: int, n: nat): int {
    if n <= pending then pending - n else 0
  }

  /** What is pending after a write of n messages, which is done whole or not at all. */
  function GrownBy(capacity: nat, pending: int, n: nat): int {
    if n <= capacity - pending then pending + n else pending
  }

  /** What is pending after n laps of a waiting writer, and of a waiting reader. */
  function LeftAfter(pending: int, laps: seq<Lap<nat>>, n: nat): int
    requires n <= |laps|
  {
    if n == 0 then pending else LeftBy(LeftAfter(pending, laps, n - 1), laps[n - 1].progress)
  }

  function GrownAfter<T>(capacity: nat, pending: int, laps: seq<Lap<seq<T>>>, n: nat): int
    requires n <= |laps|
  {
    if n == 0 then pending
    else GrownBy(capacity, GrownAfter(capacity, pending, laps, n - 1), |laps[n - 1].progress|)
  }

  /** In which laps an attempt finds room for `count` messages, or that many pending. */
  ghost function RoomIn(able: bool, count: nat, capacity: nat, pending: int, laps: seq<Lap<nat>>): (enough: seq<bool>)
    ensures |enough| == |laps|
  {
    seq(|laps|, i requires 0 <= i < |laps| => able && LeftAfter(pending, laps, i + 1) + count <= capacity)
  }

  ghost function PendingIn<T>(able: bool, count: nat, capacity: nat, pending: int, laps: seq<Lap<seq<T>>>):
    (enough: seq<bool>)
    ensures |enough| == |laps|
  {
    seq(|laps|, i requires 0 <= i < |laps| => able && count <= GrownAfter(capacity, pending, laps, i + 1))
  }

  /** The course of writeBlocking() after its checks, and of readBlocking(): the first attempt, then the loop. */
  ghost function WriterCourse(mask: F.Bits, timeOut: int, start: int, able: bool, count: nat, capacity: nat,
                              pending: int, laps: seq<Lap<nat>>, word: F.Bits): Course {
    if able && pending + count <= capacity then Course(Done, word)
    else CourseFrom(mask, timeOut, start, laps, RoomIn(able, count, capacity, pending, laps), 0, word)
  }

  ghost function ReaderCourse<T>(mask: F.Bits, timeOut: int, start: int, able: bool, count: nat, capacity: nat,
                                 pending: int, laps: seq<Lap<seq<T>>>, word: F.Bits): Course {
    if able && count <= pending then Course(Done, word)
    else CourseFrom(mask, timeOut, start, laps, PendingIn(able, count, capacity, pending, laps), 0, word)
  }

  /**
   An untimed call succeeds if and only if it can at once, or some lap finds enough and every lap up to it brings a
   notification.
   */
  lemma UntimedWrite(mask: F.Bits, start: int, able: bool, count: nat, capacity: nat, pending: int,
                     laps: seq<Lap<nat>>, word: F.Bits)
    ensures WriterCourse(mask, 0, start, able, count, capacity, pending, laps, word).outcome.Done? <==>
            able && (|| pending + count <= capacity
                     || exists n: nat ::
                          NotifiedTo(mask, laps, n) && LeftAfter(pending, laps, n + 1) + count <= capacity)
  {
    hide CourseFrom, Notifies, LeftAfter;
    UntimedDone(mask, start, laps, RoomIn(able, count, capacity, pending, laps), word);
  }

  lemma UntimedRead<T>(mask: F.Bits, start: int, able: bool, count: nat, capacity: nat, pending: int,
                       laps: seq<Lap<seq<T>>>, word: F.Bits)
    ensures ReaderCourse(mask, 0, start, able, count, capacity, pending, laps, word).outcome.Done? <==>
            able && (|| count <= pending
                     || exists n: nat ::
                          NotifiedTo(mask, laps, n) && count <= GrownAfter(capacity, pending, laps, n + 1))
  {
    hide CourseFrom, Notifies, GrownAfter;
    UntimedDone(mask, start, laps, PendingIn(able, count, capacity, pending, laps), word);
  }

  /** What lap i does to the queue and finds there. */
  lemma RoomAt(able: bool, count: nat, capacity: nat, pending: int, laps: seq<Lap<nat>>, i: nat)
    requires i < |laps|
    ensures var left := LeftBy(LeftAfter(pending, laps, i), laps[i].progress);
            && LeftAfter(pending, laps, i + 1) == left
            && RoomIn(able, count, capacity, pending, laps)[i] == (able && left + count <= capacity)
  {
  }

  lemma PendingAt<T>(able: bool, count: nat, capacity: nat, pending: int, laps: seq<Lap<seq<T>>>, i: nat)
    requires i < |laps|
    ensures var grown := GrownBy(capacity, GrownAfter(capacity, pending, laps, i), |laps[i].progress|);
            && GrownAfter(capacity, pending, laps, i + 1) == grown
            && PendingIn(able, count, capacity, pending, laps)[i] == (able && count <= grown)
  {
  }

  /** A waiting writer has come to lap i, with so many messages pending and this word. */
  ghost predicate Writing(course: Course, mask: F.Bits, timeOut: int, start: int, able: bool, count: nat,
                          capacity: nat, pending: int, laps: seq<Lap<nat>>, i: nat, behind: int, word: F.Bits)
  {
    && i <= |laps| && behind == LeftAfter(pending, laps, i)
    && OnCourse(course, mask, timeOut, start, laps, RoomIn(able, count, capacity, pending, laps), i, word)
  }

  lemma WritingGoesOn(course: Course, mask: F.Bits, timeOut: int, start: int, able: bool, count: nat, capacity: nat,
                      pending: int, laps: seq<Lap<nat>>, i: nat, behind: int, word: F.Bits,
                      stop: Option<Outcome>, behind': int, now: F.Bits)
    requires Writing(course, mask, timeOut, start, able, count, capacity, pending, laps, i, behind, word) && i < |laps|
    requires var now := LeftBy(behind, laps[i].progress);
             stop == Lapse(mask, timeOut, start, laps[i], able && now + count <= capacity)
    requires stop.None? ==> behind' == LeftBy(behind, laps[i].progress)
    requires now == WordLapsed(mask, timeOut, start, laps[i], word)
    ensures match stop
            case Some(outcome) => course == Course(outcome, now)
            case None =>
              Writing(course, mask, timeOut, start, able, count, capacity, pending, laps, i + 1, behind', now)
  {
    hide Lapse, WordLapsed, OnCourse;
    RoomAt(able, count, capacity, pending, laps, i);
    CourseGoesOn(course, mask, timeOut, start, laps, RoomIn(able, count, capacity, pending, laps), i, word,
                 RoomIn(able, count, capacity, pending, laps)[i], stop, now);
  }

  lemma WritingOver(course: Course, mask: F.Bits, timeOut: int, start: int, able: bool, count: nat, capacity: nat,
                    pending: int, laps: seq<Lap<nat>>, behind: int, word: F.Bits)
    requires Writing(course, mask, timeOut, start, able, count, capacity, pending, laps, |laps|, behind, word)
    ensures course == Course(StillBlocked(false), word)
  {
  }

  /** A waiting reader has. */
  ghost predicate Reading<T>(course: Course, mask: F.Bits, timeOut: int, start: int, able: bool, count: nat,
                             capacity: nat, pending: int, laps: seq<Lap<seq<T>>>, i: nat, behind: int, word: F.Bits)
  {
    && i <= |laps| && behind == GrownAfter(capacity, pending, laps, i)
    && OnCourse(course, mask, timeOut, start, laps, PendingIn(able, count, capacity, pending, laps), i, word)
  }

  lemma ReadingGoesOn<T>(course: Course, mask: F.Bits, timeOut: int, start: int, able: bool, count: nat, capacity: nat,
                         pending: int, laps: seq<Lap<seq<T>>>, i: nat, behind: int, word: F.Bits,
                         stop: Option<Outcome>, behind': int, now: F.Bits)
    requires Reading(course, mask, timeOut, start, able, count, capacity, pending, laps, i, behind, word) && i < |laps|
    requires var now := GrownBy(capacity, behind, |laps[i].progress|);
             stop == Lapse(mask, timeOut, start, laps[i], able && count <= now)
    requires stop.None? ==> behind' == GrownBy(capacity, behind, |laps[i].progress|)
    requires now == WordLapsed(mask, timeOut, start, laps[i], word)
    ensures match stop
            case Some(outcome) => course == Course(outcome, now)
            case None =>
              Reading(course, mask, timeOut, start, able, count, capacity, pending, laps, i + 1, behind', now)
  {
    hide Lapse, WordLapsed, OnCourse;
    PendingAt(able, count, capacity, pending, laps, i);
    CourseGoesOn(course, mask, timeOut, start, laps, PendingIn(able, count, capacity, pending, laps), i, word,
                 PendingIn(able, count, capacity, pending, laps)[i], stop, now);
  }

  lemma ReadingOver<T>(course: Course, mask: F.Bits, timeOut: int, start: int, able: bool, count: nat, capacity: nat,
                       pending: int, laps: seq<Lap<seq<T>>>, behind: int, word: F.Bits)
    requires Reading(course, mask, timeOut, start, able, count, capacity, pending, laps, |laps|, behind, word)
    ensures course == Course(StillBlocked(false), word)
  {
  }

  /** The reader takes up to n messages. */
  method PeerReads<T>(q: Q.MessageQueue<T>, n: nat)
    requires q.Valid() && q.cfg.flavor.Synchronized?
    modifies q`readPtr, q`position
    ensures q.Valid() && old(q.position) <= q.position
    ensures Behind(q) == LeftBy(old(Behind(q)), n)
  {
    var available := q.AvailableToRead();
    var taken := if n <= available then n else available;
    q.Locating(|q.written|);
    Ring.ScaleOrder(q.cfg.quantum, taken, |q.written| - q.position);
    var granted, _ := q.BeginRead(taken);
    if granted {
      var _ := q.CommitRead(taken);
    }
  }

  /** A 64-bit counter passes `total` messages without wrapping. */
  predicate Countable(cfg: Ring.Config, total: nat) {
    cfg.quantum * total < Ring.TWO_TO_64
  }

  /** A count the calls do not refuse is at most the capacity, and so many bytes fit a queue's size. */
  lemma CountFits(cfg: Ring.Config, count: nat)
    ensures count <= cfg.QuantumCount() <==> count <= cfg.capacity
    ensures count <= cfg.capacity && cfg.Size() < Ring.TWO_TO_64 ==> Countable(cfg, count)
  {
    Ring.QuantumCountIsCapacity(cfg);
    Ring.ScaleOrder(cfg.quantum, cfg.capacity, count);
  }

  /** The counters do not wrap before `total` messages. */
  lemma Carried<T>(q: Q.MessageQueue<T>, total: nat)
    requires q.Valid() && q.cfg.flavor.Synchronized? && |q.written| <= total && Countable(q.cfg, total)
    ensures q.Carries(total)
  {
    Ring.ScaleOrder(q.cfg.quantum, total, total - q.position);
    hide Q.Keeps;
  }

  /** The writer writes these messages if there is room; `later` more still fit its counter. */
  method PeerWrites<T>(q: Q.MessageQueue<T>, items: seq<T>, ghost later: nat)
    requires q.Valid() && q.cfg.flavor.Synchronized?
    requires Countable(q.cfg, |q.written| + |items| + later)
    modifies q`writePtr, q`written, q.ring
    ensures q.Valid()
    ensures q.written == if |items| <= old(q.Room()) then old(q.written) + items else old(q.written)
    ensures Behind(q) == GrownBy(q.cfg.capacity, old(Behind(q)), |items|)
    ensures Countable(q.cfg, |q.written| + later)
  {
    Ring.ScaleOrder(q.cfg.quantum, |q.written| + |items| + later, |q.written| + |items|);
    Ring.ScaleOrder(q.cfg.quantum, |q.written| + |items| + later, |q.written| + later);
    Carried(q, |q.written| + |items|);
    var data := new T[|items|](i requires 0 <= i < |items| => items[i]);
    assert data[..|items|] == items;
    var _ := q.Write(data, |items|);
  }

  /** Messages the writer may still bring. */
  ghost function Arrivals<T>(laps: seq<Lap<seq<T>>>, from: nat): nat
    requires from <= |laps|
    decreases |laps| - from
  {
    if from == |laps| then 0 else |laps[from].progress| + Arrivals(laps, from + 1)
  }

  /** The counters carry these messages and all that may follow. */
  ghost predicate Expecting<T>(cfg: Ring.Config, total: nat, laps: seq<Lap<seq<T>>>, i: nat) {
    i <= |laps| && Countable(cfg, total + Arrivals(laps, i))
  }

  lemma NextArrival<T>(cfg: Ring.Config, total: nat, laps: seq<Lap<seq<T>>>, i: nat)
    requires i < |laps|
    ensures Expecting(cfg, total, laps, i) <==> Countable(cfg, total + |laps[i].progress| + Arrivals(laps, i + 1))
    ensures Expecting(cfg, total, laps, i + 1) <==> Countable(cfg, total + Arrivals(laps, i + 1))
  {
  }

  // ----- the calls -----

  /** One attempt of a writer whose counter does not wrap. */
  method TryWrite<T>(q: Q.MessageQueue<T>, data: array?<T>, count: nat) returns (ok: bool)
    requires q.Valid() && q.cfg.flavor.Synchronized? && Countable(q.cfg, |q.written| + count)
    requires data != null ==> count <= data.Length && data != q.ring
    modifies q`writePtr, q`written, q.ring
    ensures q.Valid()
    ensures ok <==> data != null && count <= old(q.Room())
    ensures ok ==> data[..count] == old(data[..count]) && q.written == old(q.written) + data[..count]
    ensures !ok ==> q.written == old(q.written) && (data == null || q.Room() < count)
  {
    Carried(q, |q.written| + count);
    ok := q.Write(data, count);
  }

  /** The flag a call uses: the one it is given, else the queue's own. */
  function Chosen(evFlag: E.EventFlag?, own: E.EventFlag?): (flag: E.EventFlag?)
    ensures flag == null <==> evFlag == null && own == null
    ensures flag == evFlag || (evFlag == null && flag == own)
  {
    if evFlag != null then evFlag else own
  }

  function Buffer<T>(data: array?<T>): set<object> {
    if data != null then {data} else {}
  }

  /** What the buffer holds. */
  ghost function Contents<T>(data: array?<T>): seq<T>
    reads Buffer(data)
  {
    if data != null then data[..] else []
  }

  /**
   A read that succeeds puts the `count` messages of the history from the cursor on in front of the buffer and moves
   the cursor past them; one that fails leaves both as they were.
   */
  ghost predicate ReadOnce<T>(ok: bool, before: seq<T>, now: seq<T>, count: nat, written: seq<T>, from: nat,
                              position: nat) {
    if ok then
      && position == from + count <= |written| && count <= |before|
      && now == written[from..from + count] + before[count..]
    else position == from && now == before
  }

  lemma NothingRead<T>(before: seq<T>, count: nat, written: seq<T>, from: nat)
    ensures ReadOnce(false, before, before, count, written, from, from)
  {
  }

  function Frame(flag: E.EventFlag?): set<object> {
    if flag != null then {flag} else {}
  }

  /** The remaining budget and the last clock reading always make up the deadline; an untimed call has no budget. */
  predicate OnBudget(remaining: int, clock: int, timeOut: int, start: int) {
    if timeOut != 0 then 0 < remaining && remaining + clock == timeOut + start else remaining == 0
  }

  /** An endless wait() is untimed, if its clock moves on. */
  lemma BlockedTimely<P>(end: int, remaining: int, start: int, timeOut: int, laps: seq<Lap<P>>, i: nat)
    requires i < |laps| && OnBudget(remaining, laps[i].clock, timeOut, start)
    requires var lap := laps[i];
             !(remaining != 0 && E.Advancing(lap.waitStart, lap.waits) && |lap.waits| >= remaining && |lap.waits| > 0)
    requires start <= laps[i].clock
    ensures Timely(StillBlocked(true), end, start, timeOut, laps)
  {
    if Advancing(start, timeOut, laps) {
      LapAdvances(start, timeOut, laps, i);
    }
  }

  /** A failed one has used up the budget or met an unexpected error. */
  lemma FailureTimely<P>(status: F.Status, mask: F.Bits, rounds: nat, end: int, remaining: int, start: int,
                         timeOut: int, laps: seq<Lap<P>>, i: nat)
    requires i < |laps| && OnBudget(remaining, laps[i].clock, timeOut, start) && laps[i].clock <= laps[i].waitStart
    requires status !in {F.NoError, F.Again, F.Interrupted} && rounds < |laps[i].waits|
    requires status == E.Answer(mask, laps[i].waits[rounds]) || (remaining != 0 && status == F.TimedOut)
    requires status.TimedOut? && remaining != 0 ==> laps[i].waitStart + remaining <= end
    ensures Timely(WaitFailed(status), end, start, timeOut, laps)
  {
    if Undisturbed(laps, timeOut) {
      ExpectedAnswer(laps, timeOut, i, rounds, mask);
    }
  }

  /** The wait() of lap i: None if it brings a notification, else how the call ends. */
  method Pause<P>(flag: E.EventFlag, mask: F.Bits, remaining: int, timeOut: int, start: int, laps: seq<Lap<P>>, i: nat,
                  ghost before: seq<E.FutexCall>)
    returns (stop: Option<Outcome>, efState: F.Bits, end: int)
    requires i < |laps| && Chronological(start, laps) && mask != {}
    requires OnBudget(remaining, laps[i].clock, timeOut, start)
    requires E.AskedSince(before, flag.asked, start, timeOut, Slack(laps))
    modifies flag
    ensures E.AskedSince(before, flag.asked, start, timeOut, Slack(laps))
    ensures stop.None? ==> efState != {} && efState <= mask
    ensures stop == Paused(mask, timeOut, start, laps[i])
    ensures flag.word == WordPaused(mask, timeOut, start, laps[i], old(flag.word))
    ensures stop.Some? ==> stop.value.WaitFailed? || stop.value == StillBlocked(true)
    ensures stop.Some? ==> Timely(stop.value, end, start, timeOut, laps)
  {
    var lap := laps[i];
    LapInTime(start, laps, i);
    hide Chronological, Advancing, Undisturbed, Timely, E.AskedSince, Slack, E.Chronological, E.Advancing, E.Finish,
         E.Answer, E.Found, E.Plus, E.Fruitless, E.Last, E.WordAfter, E.Due, E.Verdict, E.BadResult, E.Left;
    ghost var asked := flag.asked;
    var wait;
    ghost var rounds;
    wait, end, rounds := flag.Wait(mask, true, {}, remaining, true, lap.waitStart, lap.waits);
    AskedSooner(before, asked, flag.asked, remaining, timeOut, start, laps, i);
    if wait.StillWaiting? {
      BlockedTimely(end, remaining, start, timeOut, laps, i);
      return Some(StillBlocked(true)), {}, end;
    }
    if wait.status != F.NoError {
      FailureTimely(wait.status, mask, rounds, end, remaining, start, timeOut, laps, i);
      return Some(WaitFailed(wait.status)), {}, end;
    }
    return None, wait.efState, end;
  }

  /** One lap of writeBlocking(): the time, a wait() and an attempt. None if it is to be followed by another. */
  method WriteLap<T>(q: Q.MessageQueue<T>, flag: E.EventFlag, data: array?<T>, count: nat, readMask: F.Bits,
                     timeOut: int, start: int, laps: seq<Lap<nat>>, i: nat, remainingIn: int, prevTime: int,
                     ghost before: seq<E.FutexCall>)
    returns (stop: Option<Outcome>, remaining: int, end: int)
    requires q.Valid() && q.cfg.flavor.Synchronized? && Countable(q.cfg, |q.written| + count)
    requires data != null ==> count <= data.Length && data != q.ring
    requires i < |laps| && Chronological(start, laps) && readMask != {}
    requires if timeOut != 0 then remainingIn + prevTime == timeOut + start else remainingIn == 0
    requires E.AskedSince(before, flag.asked, start, timeOut, Slack(laps))
    modifies q`readPtr, q`position, q`writePtr, q`written, q.ring, flag
    ensures q.Valid() && old(q.position) <= q.position
    ensures stop == Some(Done) ==> data != null
    ensures data != null ==> data[..count] == old(data[..count])
    ensures q.written == if stop == Some(Done) then old(q.written) + data[..count] else old(q.written)
    ensures stop.None? || stop.value.Expired? ==> data == null || q.Room() < count
    ensures stop == Lapse(readMask, timeOut, start, laps[i],
                          data != null && LeftBy(old(Behind(q)), laps[i].progress) + count <= q.cfg.capacity)
    ensures flag.word == WordLapsed(readMask, timeOut, start, laps[i], old(flag.word))
    ensures stop.None? ==> Behind(q) == LeftBy(old(Behind(q)), laps[i].progress)
    ensures E.AskedSince(before, flag.asked, start, timeOut, Slack(laps))
    ensures stop.None? ==> OnBudget(remaining, laps[i].clock, timeOut, start)
    ensures stop.Some? ==>
              !stop.value.Refused? && stop.value != StillBlocked(false) && Timely(stop.value, end, start, timeOut, laps)
  {
    hide Chronological, Advancing, Undisturbed, Timely, E.AskedSince, Slack, Q.MessageQueue.Valid,
         Q.MessageQueue.Carries, Countable;
    remaining := remainingIn;
    PeerReads(q, laps[i].progress);
    if timeOut != 0 {
      end := laps[i].clock;
      remaining := remaining - (end - prevTime);
      if remaining <= 0 {
        var result := TryWrite(q, data, count);
        TimelyAttempt(result, end, start, timeOut, laps);
        return Some(if result then Done else Expired), remaining, end;
      }
    }
    var efState;
    stop, efState, end := Pause(flag, readMask, remaining, timeOut, start, laps, i, before);
    if stop.None? && efState * readMask != {} {
      var result := TryWrite(q, data, count);
      if result {
        TimelyAttempt(true, end, start, timeOut, laps);
        stop := Some(Done);
      }
    }
  }

  /** The loop of writeBlocking(), entered when the first attempt has failed. */
  method WriteLoop<T>(q: Q.MessageQueue<T>, flag: E.EventFlag, data: array?<T>, count: nat,
                      readMask: F.Bits, timeOut: int, start: int, laps: seq<Lap<nat>>)
    returns (outcome: Outcome, end: int)
    requires q.Valid() && q.cfg.flavor.Synchronized? && Countable(q.cfg, |q.written| + count)
    requires data != null ==> count <= data.Length && data != q.ring
    requires Chronological(start, laps) && readMask != {}
    requires data == null || q.Room() < count
    modifies q`readPtr, q`position, q`writePtr, q`written, q.ring, flag
    ensures q.Valid() && old(q.position) <= q.position && !outcome.Refused?
    ensures outcome.Done? ==> data != null && data[..count] == old(data[..count])
    ensures q.written == if outcome.Done? then old(q.written) + data[..count] else old(q.written)
    ensures outcome.Expired? || outcome == StillBlocked(false) ==> data == null || q.Room() < count
    ensures Course(outcome, flag.word) ==
            CourseFrom(readMask, timeOut, start, laps,
                       RoomIn(data != null, count, q.cfg.capacity, old(Behind(q)), laps), 0, old(flag.word))
    ensures E.AskedSince(old(flag.asked), flag.asked, start, timeOut, Slack(laps))
    ensures Timely(outcome, end, start, timeOut, laps)
  {
    end := start;
    assert E.AskedSince(flag.asked, flag.asked, start, timeOut, Slack(laps));
    hide Chronological, Advancing, Undisturbed, Timely, E.AskedSince, Slack, Q.MessageQueue.Valid,
         Q.MessageQueue.Carries, Q.MessageQueue.Room, Countable, CourseFrom, Lapse, WordLapsed,
         RoomIn, LeftAfter, LeftBy;
    ghost var enough := RoomIn(data != null, count, q.cfg.capacity, Behind(q), laps);
    ghost var course := CourseFrom(readMask, timeOut, start, laps, enough, 0, flag.word);
    assert Writing(course, readMask, timeOut, start, data != null, count, q.cfg.capacity, Behind(q), laps, 0,
                   Behind(q), flag.word);
    ghost var pending := Behind(q);
    hide Writing;
    var remaining, prevTime := timeOut, start;
    var i := 0;
    while i < |laps|
      invariant 0 <= i <= |laps|
      invariant q.Valid() && q.written == old(q.written) && old(q.position) <= q.position
      invariant Writing(course, readMask, timeOut, start, data != null, count, q.cfg.capacity, pending,
                        laps, i, Behind(q), flag.word)
      invariant data == null || (q.Room() < count && data[..count] == old(data[..count]))
      invariant E.AskedSince(old(flag.asked), flag.asked, start, timeOut, Slack(laps))
      invariant if timeOut != 0 then remaining + prevTime == timeOut + start else remaining == 0
      invariant timeOut != 0 ==> prevTime == ClockBefore(start, laps, i) && (i > 0 ==> remaining > 0)
    {
      ghost var behind, word := Behind(q), flag.word;
      var stop;
      stop, remaining, end :=
        WriteLap(q, flag, data, count, readMask, timeOut, start, laps, i, remaining, prevTime, old(flag.asked));
      WritingGoesOn(course, readMask, timeOut, start, data != null, count, q.cfg.capacity, pending, laps,
                    i, behind, word, stop, Behind(q), flag.word);
      if stop.Some? {
        return stop.value, end;
      }
      prevTime := laps[i].clock;
      i := i + 1;
    }
    WritingOver(course, readMask, timeOut, start, data != null, count, q.cfg.capacity, pending, laps, Behind(q),
                flag.word);
    TimelyEnd(remaining, end, start, timeOut, laps);
    outcome := StillBlocked(false);
  }

  /** One attempt of a reader that the writer has not lapped. */
  method TryRead<T>(q: Q.MessageQueue<T>, data: array?<T>, count: nat) returns (ok: bool)
    requires q.Valid() && q.cfg.flavor.Synchronized? && Countable(q.cfg, count)
    requires data != null ==> count <= data.Length && data != q.ring
    modifies q`readPtr, q`position, Buffer(data)
    ensures q.Valid()
    ensures ok <==> data != null && old(q.position) + count <= |q.written|
    ensures ReadOnce(ok, old(Contents(data)), Contents(data), count, q.written, old(q.position), q.position)
    ensures !ok ==> q.position == old(q.position) && Contents(data) == old(Contents(data))
  {
    hide Q.Keeps;
    ok := q.Read(data, count);
    if ok {
      assert data[..] == data[..count] + data[count..];
    }
  }

  /** One lap of readBlocking(). */
  method ReadLap<T>(q: Q.MessageQueue<T>, flag: E.EventFlag, data: array?<T>, count: nat, writeMask: F.Bits,
                    timeOut: int, start: int, laps: seq<Lap<seq<T>>>, i: nat, remainingIn: int, prevTime: int,
                    ghost before: seq<E.FutexCall>)
    returns (stop: Option<Outcome>, remaining: int, end: int)
    requires q.Valid() && q.cfg.flavor.Synchronized? && Countable(q.cfg, count)
    requires data != null ==> count <= data.Length && data != q.ring
    requires i < |laps| && Chronological(start, laps) && writeMask != {}
    requires Expecting(q.cfg, |q.written|, laps, i)
    requires if timeOut != 0 then remainingIn + prevTime == timeOut + start else remainingIn == 0
    requires E.AskedSince(before, flag.asked, start, timeOut, Slack(laps))
    modifies q`readPtr, q`position, q`writePtr, q`written, q.ring, Buffer(data), flag
    ensures q.Valid() && old(q.written) <= q.written && Expecting(q.cfg, |q.written|, laps, i + 1)
    ensures ReadOnce(stop == Some(Done), old(Contents(data)), Contents(data), count, q.written, old(q.position),
                     q.position)
    ensures stop != Some(Done) ==> q.position == old(q.position) && Contents(data) == old(Contents(data))
    ensures stop == Some(Done) ==> data != null
    ensures stop.None? || stop.value.Expired? ==> data == null || |q.written| < q.position + count
    ensures var pending := GrownBy(q.cfg.capacity, old(Behind(q)), |laps[i].progress|);
            && stop == Lapse(writeMask, timeOut, start, laps[i], data != null && count <= pending)
            && (stop.None? ==> Behind(q) == pending)
    ensures flag.word == WordLapsed(writeMask, timeOut, start, laps[i], old(flag.word))
    ensures E.AskedSince(before, flag.asked, start, timeOut, Slack(laps))
    ensures stop.None? ==> OnBudget(remaining, laps[i].clock, timeOut, start)
    ensures stop.Some? ==>
              !stop.value.Refused? && stop.value != StillBlocked(false) && Timely(stop.value, end, start, timeOut, laps)
  {
    hide Chronological, Advancing, Undisturbed, Timely, E.AskedSince, Slack, Q.MessageQueue.Valid,
         Q.MessageQueue.Carries, Contents, ReadOnce, Arrivals, Expecting, Countable;
    remaining := remainingIn;
    NextArrival(q.cfg, |q.written|, laps, i);
    PeerWrites(q, laps[i].progress, Arrivals(laps, i + 1));
    NextArrival(q.cfg, |q.written|, laps, i);
    if timeOut != 0 {
      end := laps[i].clock;
      remaining := remaining - (end - prevTime);
      if remaining <= 0 {
        var result := TryRead(q, data, count);
        TimelyAttempt(result, end, start, timeOut, laps);
        return Some(if result then Done else Expired), remaining, end;
      }
    }
    var efState;
    stop, efState, end := Pause(flag, writeMask, remaining, timeOut, start, laps, i, before);
    NothingRead(Contents(data), count, q.written, q.position);
    if stop.None? && efState * writeMask != {} {
      var result := TryRead(q, data, count);
      if result {
        TimelyAttempt(true, end, start, timeOut, laps);
        stop := Some(Done);
      }
    }
  }

  /** The loop of readBlocking(), entered when the first attempt has failed. */
  method ReadLoop<T>(q: Q.MessageQueue<T>, flag: E.EventFlag, data: array?<T>, count: nat,
                     writeMask: F.Bits, timeOut: int, start: int, laps: seq<Lap<seq<T>>>)
    returns (outcome: Outcome, end: int)
    requires q.Valid() && q.cfg.flavor.Synchronized? && Countable(q.cfg, count)
    requires Expecting(q.cfg, |q.written|, laps, 0)
    requires data != null ==> count <= data.Length && data != q.ring
    requires Chronological(start, laps) && writeMask != {}
    requires data == null || |q.written| < q.position + count
    modifies q`readPtr, q`position, q`writePtr, q`written, q.ring, Buffer(data), flag
    ensures q.Valid() && old(q.written) <= q.written && !outcome.Refused?
    ensures ReadOnce(outcome.Done?, old(Contents(data)), Contents(data), count, q.written, old(q.position), q.position)
    ensures outcome.Done? ==> data != null
    ensures outcome.Expired? || outcome == StillBlocked(false) ==> data == null || |q.written| < q.position + count
    ensures Course(outcome, flag.word) ==
            CourseFrom(writeMask, timeOut, start, laps,
                       PendingIn(data != null, count, q.cfg.capacity, old(Behind(q)), laps), 0, old(flag.word))
    ensures E.AskedSince(old(flag.asked), flag.asked, start, timeOut, Slack(laps))
    ensures Timely(outcome, end, start, timeOut, laps)
  {
    end := start;
    assert E.AskedSince(flag.asked, flag.asked, start, timeOut, Slack(laps));
    hide Chronological, Advancing, Undisturbed, Timely, E.AskedSince, Slack, Q.MessageQueue.Valid,
         Q.MessageQueue.Carries, Contents, ReadOnce, Arrivals, Expecting, Countable, CourseFrom, Lapse, WordLapsed,
         PendingIn, GrownAfter, GrownBy;
    ghost var enough := PendingIn(data != null, count, q.cfg.capacity, Behind(q), laps);
    ghost var course := CourseFrom(writeMask, timeOut, start, laps, enough, 0, flag.word);
    assert Reading(course, writeMask, timeOut, start, data != null, count, q.cfg.capacity, Behind(q), laps, 0,
                   Behind(q), flag.word);
    ghost var pending := Behind(q);
    hide Reading;
    var remaining, prevTime := timeOut, start;
    var i := 0;
    while i < |laps|
      invariant 0 <= i <= |laps|
      invariant q.Valid() && old(q.written) <= q.written
      invariant q.position == old(q.position) && Contents(data) == old(Contents(data))
      invariant Reading(course, writeMask, timeOut, start, data != null, count, q.cfg.capacity, pending,
                        laps, i, Behind(q), flag.word)
      invariant Expecting(q.cfg, |q.written|, laps, i)
      invariant data == null || |q.written| < q.position + count
      invariant E.AskedSince(old(flag.asked), flag.asked, start, timeOut, Slack(laps))
      invariant if timeOut != 0 then remaining + prevTime == timeOut + start else remaining == 0
      invariant timeOut != 0 ==> prevTime == ClockBefore(start, laps, i) && (i > 0 ==> remaining > 0)
    {
      ghost var behind, word := Behind(q), flag.word;
      var stop;
      stop, remaining, end :=
        ReadLap(q, flag, data, count, writeMask, timeOut, start, laps, i, remaining, prevTime, old(flag.asked));
      ReadingGoesOn(course, writeMask, timeOut, start, data != null, count, q.cfg.capacity, pending, laps,
                    i, behind, word, stop, Behind(q), flag.word);
      if stop.Some? {
        return stop.value, end;
      }
      prevTime := laps[i].clock;
      i := i + 1;
    }
    ReadingOver(course, writeMask, timeOut, start, data != null, count, q.cfg.capacity, pending, laps, Behind(q),
                flag.word);
    TimelyEnd(remaining, end, start, timeOut, laps);
    NothingRead(Contents(data), count, q.written, q.position);
    outcome := StillBlocked(false);
  }

  /**
   writeBlocking(). Refused exactly when there is no flag, no read notification or no way for the data to fit, and then
   nothing changes. Otherwise the data is appended once if the call succeeds, with the write notification set, and not
   at all if it does not. `start` is the clock after the first attempt.
   */
  method WriteBlocking<T>(q: Q.MessageQueue<T>, own: E.EventFlag?, evFlag: E.EventFlag?, data: array?<T>, count: nat,
                          readMask: F.Bits, writeMask: F.Bits, timeOut: int,
                          start: int, laps: seq<Lap<nat>>, wakeup: Wakeup)
    returns (outcome: Outcome, end: int, woke: bool)
    requires q.Valid() && q.cfg.flavor.Synchronized? && Countable(q.cfg, |q.written| + count)
    requires data != null ==> count <= data.Length && data != q.ring
    requires Chronological(start, laps)
    modifies q`readPtr, q`position, q`writePtr, q`written, q.ring, Frame(Chosen(evFlag, own))
    ensures q.Valid() && old(q.position) <= q.position
    ensures outcome.Refused? <==> Chosen(evFlag, own) == null || readMask == {} || count > q.cfg.capacity
    ensures outcome.Refused? ==>
              && q.writePtr == old(q.writePtr) && q.readPtr == old(q.readPtr) && q.ring[..] == old(q.ring[..])
              && q.position == old(q.position)
              && (Chosen(evFlag, own) != null ==> unchanged(Chosen(evFlag, own)))
    ensures outcome.Done? ==> data != null && data[..count] == old(data[..count])
    ensures q.written == if outcome.Done? then old(q.written) + data[..count] else old(q.written)
    ensures !outcome.Refused? && data != null && count <= old(q.Room()) ==>
              && outcome.Done? && q.position == old(q.position)
              && Chosen(evFlag, own).taken == old(Chosen(evFlag, own).taken)
              && Chosen(evFlag, own).asked == old(Chosen(evFlag, own).asked)
    ensures !outcome.Refused? ==>
              var course := WriterCourse(readMask, timeOut, start, data != null, count, q.cfg.capacity,
                                         old(Behind(q)), laps, old(Chosen(evFlag, own).word));
              && outcome == course.outcome
              && Chosen(evFlag, own).word ==
                 if outcome.Done? && writeMask != {} then wakeup.found + writeMask else course.word
    ensures woke <==> outcome.Done? && !(writeMask <= wakeup.found)
    ensures outcome.Expired? || outcome == StillBlocked(false) ==> data == null || q.Room() < count
    ensures !outcome.Refused? ==>
              E.AskedSince(old(Chosen(evFlag, own).asked), Chosen(evFlag, own).asked, start, timeOut, Slack(laps))
    ensures Timely(outcome, end, start, timeOut, laps)
  {
    end, woke := start, false;
    var flag := Chosen(evFlag, own);
    Ring.QuantumCountIsCapacity(q.cfg);
    if flag == null || readMask == {} || count > q.cfg.QuantumCount() {
      return Refused, end, false;
    }
    hide Chronological, Q.MessageQueue.Valid, Q.MessageQueue.Room, CourseFrom, RoomIn;
    var result := TryWrite(q, data, count);
    if result {
      outcome := Done;
    } else {
      outcome, end := WriteLoop(q, flag, data, count, readMask, timeOut, start, laps);
    }
    if outcome.Done? && writeMask != {} {
      var _, called := flag.Wake(writeMask, wakeup.found, wakeup.failure);
      woke := called;
    }
  }

  /**
   readBlocking(), under the same terms: a call that succeeds has delivered the next `count` messages once, with the
   read notification set, and one that does not has delivered and passed none.
   */
  method ReadBlocking<T>(q: Q.MessageQueue<T>, own: E.EventFlag?, evFlag: E.EventFlag?, data: array?<T>, count: nat,
                         readMask: F.Bits, writeMask: F.Bits, timeOut: int,
                         start: int, laps: seq<Lap<seq<T>>>, wakeup: Wakeup)
    returns (outcome: Outcome, end: int, woke: bool)
    requires q.Valid() && q.cfg.flavor.Synchronized? && q.cfg.Size() < Ring.TWO_TO_64
    requires Countable(q.cfg, |q.written| + Arrivals(laps, 0))
    requires data != null ==> count <= data.Length && data != q.ring
    requires Chronological(start, laps)
    modifies q`readPtr, q`position, q`writePtr, q`written, q.ring, Buffer(data), Frame(Chosen(evFlag, own))
    ensures q.Valid() && old(q.written) <= q.written
    ensures outcome.Refused? <==> Chosen(evFlag, own) == null || writeMask == {} || count > q.cfg.capacity
    ensures outcome.Refused? ==>
              && q.writePtr == old(q.writePtr) && q.readPtr == old(q.readPtr) && q.ring[..] == old(q.ring[..])
              && q.written == old(q.written) && (Chosen(evFlag, own) != null ==> unchanged(Chosen(evFlag, own)))
    ensures ReadOnce(outcome.Done?, old(Contents(data)), Contents(data), count, q.written, old(q.position), q.position)
    ensures outcome.Done? ==> data != null
    ensures !outcome.Refused? && data != null && old(q.position) + count <= |old(q.written)| ==>
              && outcome.Done? && q.written == old(q.written)
              && Chosen(evFlag, own).taken == old(Chosen(evFlag, own).taken)
              && Chosen(evFlag, own).asked == old(Chosen(evFlag, own).asked)
    ensures !outcome.Refused? ==>
              var course := ReaderCourse(writeMask, timeOut, start, data != null, count, q.cfg.capacity,
                                         old(Behind(q)), laps, old(Chosen(evFlag, own).word));
              && outcome == course.outcome
              && Chosen(evFlag, own).word ==
                 if outcome.Done? && readMask != {} then wakeup.found + readMask else course.word
    ensures woke <==> outcome.Done? && !(readMask <= wakeup.found)
    ensures outcome.Expired? || outcome == StillBlocked(false) ==> data == null || |q.written| < q.position + count
    ensures !outcome.Refused? ==>
              E.AskedSince(old(Chosen(evFlag, own).asked), Chosen(evFlag, own).asked, start, timeOut, Slack(laps))
    ensures Timely(outcome, end, start, timeOut, laps)
  {
    end, woke := start, false;
    var flag := Chosen(evFlag, own);
    CountFits(q.cfg, count);
    if flag == null || writeMask == {} || count > q.cfg.QuantumCount() {
      return Refused, end, false;
    }
    TimelyAttempt(true, end, start, timeOut, laps);
    hide Chronological, Timely, Arrivals, Slack, Countable, Contents, ReadOnce, Q.MessageQueue.Valid,
         CourseFrom, PendingIn;
    var result := TryRead(q, data, count);
    if result {
      outcome := Done;
    } else {
      outcome, end := ReadLoop(q, flag, data, count, writeMask, timeOut, start, laps);
    }
    if outcome.Done? && readMask != {} {
      var _, called := flag.Wake(readMask, wakeup.found, wakeup.failure);
      woke := called;
    }
  }
}
