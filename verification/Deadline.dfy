/**
 Waiting with a sliding deadline. One loop serves both the health check and the installation check:
 they differ only in which answers move the deadline.
 */
module Deadline {
  import opened Wrappers

  /** One poll: the time at its start, what the check said, and the time read if it moves the deadline. */
  datatype Poll<E> =
    | Ready(time: int)
    | Progress(time: int, resetAt: int, err: Option<E>)
    | Failing(time: int, err: Option<E>)
    | Cancelled

  datatype Ending<E> = Succeeded(polls: nat) | TimedOut(polls: nat, latest: Option<E>) | Interrupted(polls: nat) | StillWaiting

  /** When the deadline was last moved, before the `n`-th poll. */
  function Begin<E>(start: int, polls: seq<Poll<E>>, n: nat): int
    requires n <= |polls|
  {
    if n == 0 then start
    else if polls[n - 1].Progress? then polls[n - 1].resetAt
    else Begin(start, polls, n - 1)
  }

  /** The error of the latest check before the `n`-th poll. */
  function Latest<E>(polls: seq<Poll<E>>, n: nat): Option<E>
    requires n <= |polls|
  {
    if n == 0 then None
    else match polls[n - 1]
      case Progress(_, _, err) => err
      case Failing(_, err) => err
      case _ => Latest(polls, n - 1)
  }

  predicate InTime<E>(start: int, timeout: int, polls: seq<Poll<E>>, i: nat)
    requires i < |polls|
  {
    !polls[i].Cancelled? ==> polls[i].time <= Begin(start, polls, i) + timeout
  }

  /** Poll `i` is in time, and its check leaves the matter open. */
  predicate Open<E>(start: int, timeout: int, polls: seq<Poll<E>>, i: nat)
    requires i < |polls|
  {
    !polls[i].Cancelled? && InTime(start, timeout, polls, i) && !polls[i].Ready?
  }

  predicate OpenBefore<E>(start: int, timeout: int, polls: seq<Poll<E>>, n: nat)
    requires n <= |polls|
  {
    forall i :: 0 <= i < n ==> Open(start, timeout, polls, i)
  }

  /** How a wait ends: at the first poll that does not leave the matter open. That poll succeeds when it
      is in time and ready, and times out when it starts after the deadline as last moved. */
  predicate EndsWith<E(==)>(start: int, timeout: int, polls: seq<Poll<E>>, r: Ending<E>) {
    match r
    case StillWaiting => OpenBefore(start, timeout, polls, |polls|)
    case Succeeded(n) =>
      n < |polls| && OpenBefore(start, timeout, polls, n) && InTime(start, timeout, polls, n) && polls[n].Ready?
    case TimedOut(n, latest) =>
      n < |polls| && OpenBefore(start, timeout, polls, n) && !InTime(start, timeout, polls, n) && latest == Latest(polls, n)
    case Interrupted(n) =>
      n < |polls| && OpenBefore(start, timeout, polls, n) && polls[n].Cancelled?
  }

  /** Every trace ends in one way only. */
  lemma EndingIsUnique<E>(start: int, timeout: int, polls: seq<Poll<E>>, r: Ending<E>, r': Ending<E>)
    requires EndsWith(start, timeout, polls, r) && EndsWith(start, timeout, polls, r')
    ensures r == r'
  {
    var n := if r.StillWaiting? then |polls| else r.polls;
    var n' := if r'.StillWaiting? then |polls| else r'.polls;
    assert n' < n ==> Open(start, timeout, polls, n');
    assert n < n' ==> Open(start, timeout, polls, n);
  }

  method WaitWithDeadline<E>(start: int, timeout: int, polls: seq<Poll<E>>) returns (r: Ending<E>)
    ensures EndsWith(start, timeout, polls, r)
  {
    var latestErr: Option<E> := None;
    var timeoutBeginTime := start;
    var n := 0;
    while n < |polls|
      invariant 0 <= n <= |polls|
      invariant OpenBefore(start, timeout, polls, n)
      invariant timeoutBeginTime == Begin(start, polls, n)
      invariant latestErr == Latest(polls, n)
    {
      var poll := polls[n];
      if poll.Cancelled? {
        return Interrupted(n);
      }
      if timeoutBeginTime + timeout < poll.time {
        return TimedOut(n, latestErr);
      }
      match poll {
        case Ready(_) =>
          return Succeeded(n);
        case Progress(_, resetAt, err) =>
          latestErr := err;
          timeoutBeginTime := resetAt;
        case Failing(_, err) =>
          latestErr := err;
      }
      n := n + 1;
    }
    return StillWaiting;
  }

  // ---------- the two checks ----------

  /** One turn of a check's loop: the clock before the question, the answer, and the clock after it. */
  datatype Turn<A> = Asked(before: int, answer: A, after: int) | Stopped

  datatype HealthAnswer<E> = Healthy | StartingUp(e: E) | ContainerNotFound(e: E) | OtherHealthError(e: E)

  datatype InstallAnswer<E> = InstallAnswer(ready: bool, err: Option<E>)

  /** The engine starting up moves the deadline; every other error only waits. */
  function HealthPoll<E>(turn: Turn<HealthAnswer<E>>): Poll<E> {
    match turn
    case Stopped => Cancelled
    case Asked(before, Healthy, _) => Ready(before)
    case Asked(before, StartingUp(e), after) => Progress(before, after, Some(e))
    case Asked(before, answer, _) => Failing(before, Some(answer.e))
  }

  /** Not ready without an error moves the deadline; not ready with one only waits. */
  function InstallPoll<E>(turn: Turn<InstallAnswer<E>>): Poll<E> {
    match turn
    case Stopped => Cancelled
    case Asked(before, InstallAnswer(ready, err), after) =>
      if ready then Ready(before) else if err.None? then Progress(before, after, None) else Failing(before, err)
  }

  function HealthPolls<E>(turns: seq<Turn<HealthAnswer<E>>>): seq<Poll<E>> {
    seq(|turns|, i requires 0 <= i < |turns| => HealthPoll(turns[i]))
  }

  function InstallPolls<E>(turns: seq<Turn<InstallAnswer<E>>>): seq<Poll<E>> {
    seq(|turns|, i requires 0 <= i < |turns| => InstallPoll(turns[i]))
  }

  method CheckHealthWithTimeout<E>(start: int, timeout: int, turns: seq<Turn<HealthAnswer<E>>>) returns (r: Ending<E>)
    ensures EndsWith(start, timeout, HealthPolls(turns), r)
  {
    r := WaitWithDeadline(start, timeout, HealthPolls(turns));
  }

  method CheckInstallProgressWithTimeout<E>(start: int, timeout: int, turns: seq<Turn<InstallAnswer<E>>>)
    returns (r: Ending<E>)
    ensures EndsWith(start, timeout, InstallPolls(turns), r)
  {
    r := WaitWithDeadline(start, timeout, InstallPolls(turns));
  }

  /** `moment` is the clock after the latest turn that `moves` the deadline, or the start without one. */
  ghost predicate IsLatestMove<A>(start: int, turns: seq<Turn<A>>, moves: A -> bool, n: nat, moment: int)
    requires n <= |turns|
  {
    || (moment == start && forall j :: 0 <= j < n ==> !Moves(turns[j], moves))
    || exists j :: 0 <= j < n && Moves(turns[j], moves) && moment == turns[j].after
         && forall k :: j < k < n ==> !Moves(turns[k], moves)
  }

  predicate Moves<A>(turn: Turn<A>, moves: A -> bool) {
    turn.Asked? && moves(turn.answer)
  }

  /** Turn `n` begins more than `timeout` after the latest move of the deadline. */
  ghost predicate IsLate<A>(start: int, timeout: int, turns: seq<Turn<A>>, moves: A -> bool, n: nat)
    requires n < |turns|
  {
    && turns[n].Asked?
    && exists moment :: IsLatestMove(start, turns, moves, n, moment) && moment + timeout < turns[n].before
  }

  /** Turn `n` is the first that is late, and no turn before it was the last one asked for. */
  ghost predicate IsFirstLate<A>(start: int, timeout: int, turns: seq<Turn<A>>, moves: A -> bool, ready: A -> bool, n: nat)
    requires n < |turns|
  {
    && IsLate(start, timeout, turns, moves, n)
    && forall i :: 0 <= i < n ==> turns[i].Asked? && !ready(turns[i].answer) && !IsLate(start, timeout, turns, moves, i)
  }

  /** The poll that a turn comes to, when `moves` and `ready` tell what its answer means. */
  predicate Matches<A, E>(turn: Turn<A>, poll: Poll<E>, moves: A -> bool, ready: A -> bool) {
    && (turn.Stopped? <==> poll.Cancelled?)
    && (turn.Asked? ==>
          && poll.time == turn.before
          && (poll.Ready? <==> ready(turn.answer))
          && (poll.Progress? <==> moves(turn.answer))
          && (poll.Progress? ==> poll.resetAt == turn.after))
  }

  predicate AllMatch<A, E>(turns: seq<Turn<A>>, polls: seq<Poll<E>>, moves: A -> bool, ready: A -> bool) {
    |turns| == |polls| && forall i :: 0 <= i < |turns| ==> Matches(turns[i], polls[i], moves, ready)
  }

  lemma {:induction false} BeginIsLatestMove<A, E>(start: int, turns: seq<Turn<A>>, polls: seq<Poll<E>>,
                                                  moves: A -> bool, ready: A -> bool, n: nat, moment: int)
    requires AllMatch(turns, polls, moves, ready) && n <= |turns|
    ensures IsLatestMove(start, turns, moves, n, moment) <==> moment == Begin(start, polls, n)
  {
    if n > 0 {
      assert Matches(turns[n - 1], polls[n - 1], moves, ready);
      BeginIsLatestMove(start, turns, polls, moves, ready, n - 1, moment);
    }
  }

  lemma LateIff<A, E>(start: int, timeout: int, turns: seq<Turn<A>>, polls: seq<Poll<E>>,
                      moves: A -> bool, ready: A -> bool, n: nat)
    requires AllMatch(turns, polls, moves, ready) && n < |turns|
    ensures IsLate(start, timeout, turns, moves, n) <==> !InTime(start, timeout, polls, n)
  {
    hide IsLatestMove, Begin;
    assert Matches(turns[n], polls[n], moves, ready);
    forall moment
      ensures IsLatestMove(start, turns, moves, n, moment) <==> moment == Begin(start, polls, n)
    {
      BeginIsLatestMove(start, turns, polls, moves, ready, n, moment);
    }
    assert IsLatestMove(start, turns, moves, n, Begin(start, polls, n));
  }

  lemma TimesOutIff<A, E>(start: int, timeout: int, turns: seq<Turn<A>>, polls: seq<Poll<E>>,
                          moves: A -> bool, ready: A -> bool, r: Ending<E>, n: nat)
    requires AllMatch(turns, polls, moves, ready) && EndsWith(start, timeout, polls, r) && n < |turns|
    ensures r.TimedOut? && r.polls == n <==> IsFirstLate(start, timeout, turns, moves, ready, n)
    ensures r.TimedOut? && r.polls == n && n > 0 ==> polls[n - 1].Progress? || polls[n - 1].Failing?
  {
    hide IsLate, InTime, Latest;
    forall i | 0 <= i < |turns|
      ensures IsLate(start, timeout, turns, moves, i) <==> !InTime(start, timeout, polls, i)
      ensures Matches(turns[i], polls[i], moves, ready)
    {
      LateIff(start, timeout, turns, polls, moves, ready, i);
    }
    if r.TimedOut? && r.polls == n {
      forall i | 0 <= i < n
        ensures turns[i].Asked? && !ready(turns[i].answer) && !IsLate(start, timeout, turns, moves, i)
        ensures polls[i].Progress? || polls[i].Failing?
      {
        assert Open(start, timeout, polls, i) && Matches(turns[i], polls[i], moves, ready);
      }
    } else if IsFirstLate(start, timeout, turns, moves, ready, n) {
      assert forall i :: 0 <= i < n ==> Open(start, timeout, polls, i);
      EndingIsUnique(start, timeout, polls, r, TimedOut(n, Latest(polls, n)));
    }
  }

  /** A health check times out at a turn exactly when that turn is the first to begin more than the
      timeout after the latest answer that the engine is starting up, and no turn before it was stopped
      or found the engine healthy. It reports the error of the turn before. */
  lemma HealthTimesOutIff<E>(start: int, timeout: int, turns: seq<Turn<HealthAnswer<E>>>, r: Ending<E>, n: nat)
    requires EndsWith(start, timeout, HealthPolls(turns), r) && n < |turns|
    ensures r.TimedOut? && r.polls == n <==>
            IsFirstLate(start, timeout, turns, (a: HealthAnswer<E>) => a.StartingUp?, (a: HealthAnswer<E>) => a.Healthy?, n)
    ensures r.TimedOut? && r.polls == n && n > 0 ==>
              turns[n - 1].Asked? && !turns[n - 1].answer.Healthy? && r.latest == Some(turns[n - 1].answer.e)
  {
    hide IsFirstLate;
    TimesOutIff(start, timeout, turns, HealthPolls(turns),
               (a: HealthAnswer<E>) => a.StartingUp?, (a: HealthAnswer<E>) => a.Healthy?, r, n);
  }

  /** The same for the installation: answering that it is not ready, without an error, moves the
      deadline and clears the error. */
  lemma InstallTimesOutIff<E>(start: int, timeout: int, turns: seq<Turn<InstallAnswer<E>>>, r: Ending<E>, n: nat)
    requires EndsWith(start, timeout, InstallPolls(turns), r) && n < |turns|
    ensures r.TimedOut? && r.polls == n <==>
            IsFirstLate(start, timeout, turns, (a: InstallAnswer<E>) => !a.ready && a.err.None?, (a: InstallAnswer<E>) => a.ready, n)
    ensures r.TimedOut? && r.polls == n && n > 0 ==> turns[n - 1].Asked? && r.latest == turns[n - 1].answer.err
  {
    hide IsFirstLate;
    TimesOutIff(start, timeout, turns, InstallPolls(turns),
               (a: InstallAnswer<E>) => !a.ready && a.err.None?, (a: InstallAnswer<E>) => a.ready, r, n);
  }

  /** An engine that keeps starting up, asked again within the timeout each time, is waited for without
      end, however long it takes. */
  lemma StartingUpNeverTimesOut<E>(start: int, timeout: int, turns: seq<Turn<HealthAnswer<E>>>, r: Ending<E>)
    requires EndsWith(start, timeout, HealthPolls(turns), r)
    requires forall i :: 0 <= i < |turns| ==> turns[i].Asked? && turns[i].answer.StartingUp?
    requires forall i :: 0 <= i < |turns| ==>
               turns[i].before <= (if i == 0 then start else turns[i - 1].after) + timeout
    ensures r == StillWaiting
  {
    var polls := HealthPolls(turns);
    assert forall i :: 0 <= i < |turns| ==>
             polls[i].Progress? && Begin(start, polls, i) == if i == 0 then start else turns[i - 1].after;
    assert forall i :: 0 <= i < |turns| ==> Open(start, timeout, polls, i);
    EndingIsUnique(start, timeout, polls, r, StillWaiting);
  }

  // ---------- every wait ends ----------

  /** From poll `from` on no check moves the deadline, and polls are at least `interval` apart. */
  predicate NoMoreProgress<E>(polls: seq<Poll<E>>, from: nat, interval: int) {
    && (forall i :: from <= i < |polls| ==> polls[i].Ready? || polls[i].Failing?)
    && (forall i :: from < i < |polls| ==> polls[i].time >= polls[i - 1].time + interval)
  }

  lemma {:induction false} BeginStays<E>(start: int, polls: seq<Poll<E>>, from: nat, n: nat, interval: int)
    requires from <= n <= |polls| && NoMoreProgress(polls, from, interval)
    ensures Begin(start, polls, n) == Begin(start, polls, from)
  {
    if n > from {
      BeginStays(start, polls, from, n - 1, interval);
    }
  }

  lemma {:induction false} TimePasses<E>(polls: seq<Poll<E>>, from: nat, n: nat, interval: int)
    requires from <= n < |polls| && NoMoreProgress(polls, from, interval) && interval > 0
    ensures polls[n].time >= polls[from].time + (n - from) * interval
  {
    if n > from {
      TimePasses(polls, from, n - 1, interval);
      assert (n - from) * interval == (n - 1 - from) * interval + interval;
    }
  }

  lemma LatePoll<E>(start: int, timeout: nat, polls: seq<Poll<E>>, from: nat, interval: int, gaps: nat)
    requires interval > 0 && NoMoreProgress(polls, from, interval)
    requires |polls| > from + gaps && gaps * interval > timeout
    requires polls[from].time >= Begin(start, polls, from)
    ensures !Open(start, timeout, polls, from + gaps)
  {
    BeginStays(start, polls, from, from + gaps, interval);
    TimePasses(polls, from, from + gaps, interval);
  }

  /** Once resets stop and the clock has not gone back, the wait is over within
      `timeout / interval + 1` further polls. */
  lemma WaitEnds<E>(start: int, timeout: nat, polls: seq<Poll<E>>, from: nat, interval: int, r: Ending<E>)
    requires interval > 0 && NoMoreProgress(polls, from, interval)
    requires |polls| > from + timeout / interval + 1
    requires polls[from].time >= Begin(start, polls, from)
    requires EndsWith(start, timeout, polls, r)
    ensures !r.StillWaiting? && r.polls <= from + timeout / interval + 1
  {
    hide Open, NoMoreProgress, Begin, InTime, Latest;
    var gaps := timeout / interval + 1;
    assert gaps * interval > timeout;
    LatePoll(start, timeout, polls, from, interval, gaps);
  }
}
