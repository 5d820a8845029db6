// Waiting for a connection against a deadline that stands still while the
// user is being asked something.
module ConnectDeadline {
  import opened Options

  datatype Progress = WaitingForUser | NetworkActivityResumed

  datatype Outcome<T, E> = Ok(value: T) | Err(error: E)

  // One look at everything the wait depends on: the time, and what is ready.
  datatype Poll<T, E> = Poll(now: nat, connect: Option<Outcome<T, E>>, disconnect: bool, progress: Option<Progress>)

  datatype ConnectWaitResult<T, E> = Connected(value: T) | Failed(error: E) | Cancelled | TimedOut

  datatype Clock = Clock(waitingForUser: bool, deadline: nat)

  // Something ready that goes before any progress.
  predicate Decided<T, E>(p: Poll<T, E>) {
    p.connect.Some? || p.disconnect
  }

  // The first ready branch, in order: connection, disconnect, progress, and the
  // deadline unless the user is being waited for.
  function Verdict<T, E>(clock: Clock, p: Poll<T, E>): Option<ConnectWaitResult<T, E>> {
    if p.connect.Some? then
      Some(match p.connect.value case Ok(value) => Connected(value) case Err(error) => Failed(error))
    else if p.disconnect then Some(Cancelled)
    else if p.progress.Some? then None
    else if !clock.waitingForUser && clock.deadline <= p.now then Some(TimedOut)
    else None
  }

  function Advance<T, E>(clock: Clock, timeout: nat, p: Poll<T, E>): Clock {
    if Decided(p) then clock
    else if p.progress == Some(WaitingForUser) then clock.(waitingForUser := true)
    else if p.progress == Some(NetworkActivityResumed) then Clock(false, p.now + timeout)
    else clock
  }

  // The clock when poll `n` is looked at.
  function ClockAt<T, E>(start: nat, timeout: nat, polls: seq<Poll<T, E>>, n: nat): Clock
    requires n <= |polls|
  {
    if n == 0 then Clock(false, start + timeout)
    else Advance(ClockAt(start, timeout, polls, n - 1), timeout, polls[n - 1])
  }

  ghost predicate GoesOn<T, E>(start: nat, timeout: nat, polls: seq<Poll<T, E>>, n: nat)
    requires n <= |polls|
  {
    n == 0 ||
    (GoesOn(start, timeout, polls, n - 1) && Verdict(ClockAt(start, timeout, polls, n - 1), polls[n - 1]).None?)
  }

  // The wait ends at poll `n` with result `r`.
  ghost predicate Ends<T, E>(start: nat, timeout: nat, polls: seq<Poll<T, E>>, n: nat, r: ConnectWaitResult<T, E>) {
    && n < |polls| && GoesOn(start, timeout, polls, n)
    && Verdict(ClockAt(start, timeout, polls, n), polls[n]) == Some(r)
  }

  method WaitForConnect<T, E>(start: nat, timeout: nat, polls: seq<Poll<T, E>>)
    returns (r: Option<ConnectWaitResult<T, E>>, n: nat)
    ensures r.Some? ==> Ends(start, timeout, polls, n, r.value)
    ensures r.None? ==> n == |polls| && GoesOn(start, timeout, polls, n)
  {
    var deadline: nat := start + timeout;
    var waitingForUser := false;
    n := 0;
    while n < |polls|
      invariant n <= |polls| && GoesOn(start, timeout, polls, n)
      invariant ClockAt(start, timeout, polls, n) == Clock(waitingForUser, deadline)
    {
      var p := polls[n];
      if p.connect.Some? {
        match p.connect.value {
          case Ok(value) => return Some(Connected(value)), n;
          case Err(error) => return Some(Failed(error)), n;
        }
      } else if p.disconnect {
        return Some(Cancelled), n;
      } else if p.progress.Some? {
        match p.progress.value {
          case WaitingForUser =>
            waitingForUser := true;
          case NetworkActivityResumed =>
            waitingForUser := false;
            deadline := p.now + timeout;
        }
      } else if !waitingForUser && deadline <= p.now {
        return Some(TimedOut), n;
      }
      n := n + 1;
    }
    return None, n;
  }

  // ----- when it times out -----

  ghost predicate Chronological<T, E>(start: nat, polls: seq<Poll<T, E>>) {
    && (forall i :: 0 <= i < |polls| ==> start <= polls[i].now)
    && (forall i, j :: 0 <= i < j < |polls| ==> polls[i].now <= polls[j].now)
  }

  // The last progress reported among the first `n` polls is a wait for the user.
  ghost predicate UserIsAsked<T, E>(polls: seq<Poll<T, E>>, n: nat)
    requires n <= |polls|
  {
    exists i :: 0 <= i < n && polls[i].progress == Some(WaitingForUser) && Silent(polls, i + 1, n)
  }

  ghost predicate Silent<T, E>(polls: seq<Poll<T, E>>, i: nat, n: nat)
    requires n <= |polls|
  {
    forall j :: i <= j < n ==> polls[j].progress == None
  }

  // At least `timeout` has passed at `now` since the start and since the network
  // was last active among the first `n` polls.
  ghost predicate Expired<T, E>(start: nat, timeout: nat, polls: seq<Poll<T, E>>, n: nat, now: nat)
    requires n <= |polls|
  {
    && start + timeout <= now
    && forall i :: 0 <= i < n && polls[i].progress == Some(NetworkActivityResumed) ==> polls[i].now + timeout <= now
  }

  lemma AskedByLast<T, E>(polls: seq<Poll<T, E>>, n: nat)
    requires 0 < n <= |polls|
    ensures UserIsAsked(polls, n) <==>
            || polls[n - 1].progress == Some(WaitingForUser)
            || (polls[n - 1].progress == None && UserIsAsked(polls, n - 1))
  {
    if polls[n - 1].progress == Some(WaitingForUser) {
      assert Silent(polls, n, n);
    }
    if polls[n - 1].progress == None && UserIsAsked(polls, n - 1) {
      var i :| 0 <= i < n - 1 && polls[i].progress == Some(WaitingForUser) && Silent(polls, i + 1, n - 1);
      assert Silent(polls, i + 1, n);
    }
    if UserIsAsked(polls, n) {
      var i :| 0 <= i < n && polls[i].progress == Some(WaitingForUser) && Silent(polls, i + 1, n);
      assert i < n - 1 ==> Silent(polls, i + 1, n - 1);
    }
  }

  lemma {:induction false} ClockMeaning<T, E>(start: nat, timeout: nat, polls: seq<Poll<T, E>>, n: nat, now: nat)
    requires n <= |polls| && Chronological(start, polls) && forall i :: 0 <= i < n ==> !Decided(polls[i])
    ensures ClockAt(start, timeout, polls, n).waitingForUser <==> UserIsAsked(polls, n)
    ensures ClockAt(start, timeout, polls, n).deadline <= now <==> Expired(start, timeout, polls, n, now)
  {
    if n == 0 {
    } else {
      ClockMeaning(start, timeout, polls, n - 1, now);
      AskedByLast(polls, n);
      assert !Decided(polls[n - 1]);
      match polls[n - 1].progress {
        case None => assert ClockAt(start, timeout, polls, n) == ClockAt(start, timeout, polls, n - 1);
        case Some(WaitingForUser) => assert UserIsAsked(polls, n);
        case Some(NetworkActivityResumed) => assert !UserIsAsked(polls, n);
      }
    }
  }

  lemma {:induction false} NoneDecided<T, E>(start: nat, timeout: nat, polls: seq<Poll<T, E>>, n: nat)
    requires n <= |polls| && GoesOn(start, timeout, polls, n)
    ensures forall i :: 0 <= i < n ==> !Decided(polls[i])
  {
    if n == 0 {
    } else {
      NoneDecided(start, timeout, polls, n - 1);
    }
  }

  // Poll `n` finds nothing ready, the user not being asked, and the timeout passed
  // since the start and since the last network activity.
  ghost predicate OutOfTime<T, E>(start: nat, timeout: nat, polls: seq<Poll<T, E>>, n: nat)
    requires n < |polls|
  {
    && polls[n].connect == None && !polls[n].disconnect && polls[n].progress == None
    && !UserIsAsked(polls, n) && Expired(start, timeout, polls, n, polls[n].now)
  }

  // None of the first `n` polls finds a connection result, a disconnect, or the
  // time over.
  ghost predicate Uneventful<T, E>(start: nat, timeout: nat, polls: seq<Poll<T, E>>, n: nat)
    requires n <= |polls|
  {
    forall i :: 0 <= i < n ==>
      polls[i].connect == None && !polls[i].disconnect && !OutOfTime(start, timeout, polls, i)
  }

  // The wait times out at the first poll that finds nothing else ready, the
  // user not being asked, and the timeout passed since the start and the last
  // network activity; and at no other poll.
  lemma TimesOutExactly<T, E>(start: nat, timeout: nat, polls: seq<Poll<T, E>>, n: nat)
    requires n < |polls| && Chronological(start, polls) && GoesOn(start, timeout, polls, n)
    ensures Ends(start, timeout, polls, n, TimedOut) <==> OutOfTime(start, timeout, polls, n)
  {
    NoneDecided(start, timeout, polls, n);
    ClockMeaning(start, timeout, polls, n, polls[n].now);
  }

  lemma {:induction false} GoesOnExactly<T, E>(start: nat, timeout: nat, polls: seq<Poll<T, E>>, n: nat)
    requires n <= |polls| && Chronological(start, polls)
    ensures GoesOn(start, timeout, polls, n) <==> Uneventful(start, timeout, polls, n)
  {
    if n == 0 {
    } else {
      GoesOnExactly(start, timeout, polls, n - 1);
      if GoesOn(start, timeout, polls, n - 1) {
        TimesOutExactly(start, timeout, polls, n - 1);
      }
    }
  }

  // How the wait ends, read off the polls alone. It ends at the first poll with
  // an event, and there a connection result goes before a disconnect, and both
  // before the end of the time.
  lemma EndsExactly<T, E>(start: nat, timeout: nat, polls: seq<Poll<T, E>>, n: nat)
    requires n < |polls| && Chronological(start, polls)
    ensures var (earlier, p) := (Uneventful(start, timeout, polls, n), polls[n]);
            && (forall v :: Ends(start, timeout, polls, n, Connected(v)) <==> earlier && p.connect == Some(Ok(v)))
            && (forall e :: Ends(start, timeout, polls, n, Failed(e)) <==> earlier && p.connect == Some(Err(e)))
            && (Ends(start, timeout, polls, n, Cancelled) <==> earlier && p.connect == None && p.disconnect)
            && (Ends(start, timeout, polls, n, TimedOut) <==> earlier && OutOfTime(start, timeout, polls, n))
  {
    GoesOnExactly(start, timeout, polls, n);
    if GoesOn(start, timeout, polls, n) {
      TimesOutExactly(start, timeout, polls, n);
    }
  }

  // ----- the length of a wait for the user does not matter -----

  // The same polls, those from `k` on later by `delay`.
  function Delayed<T, E>(polls: seq<Poll<T, E>>, k: nat, delay: nat): (later: seq<Poll<T, E>>)
    ensures |later| == |polls|
    ensures forall i :: 0 <= i < |polls| ==>
              later[i] == if i < k then polls[i] else polls[i].(now := polls[i].now + delay)
  {
    seq(|polls|, i requires 0 <= i < |polls| => if i < k then polls[i] else polls[i].(now := polls[i].now + delay))
  }

  // If the user is being asked at poll `k`, the clock from there on is either
  // still waiting or set later by the same delay.
  lemma {:induction false} DelayedClock<T, E>(start: nat, timeout: nat, polls: seq<Poll<T, E>>, k: nat,
                                                delay: nat, n: nat)
    requires k <= |polls| && ClockAt(start, timeout, polls, k).waitingForUser && n <= |polls|
    ensures var (before, after) :=
              (ClockAt(start, timeout, polls, n), ClockAt(start, timeout, Delayed(polls, k, delay), n));
            && before.waitingForUser == after.waitingForUser
            && (n <= k ==> before == after)
            && (n >= k ==> before.waitingForUser || after.deadline == before.deadline + delay)
  {
    if n == 0 {
    } else {
      DelayedClock(start, timeout, polls, k, delay, n - 1);
    }
  }

  lemma {:induction false} DelayedVerdicts<T, E>(start: nat, timeout: nat, polls: seq<Poll<T, E>>, k: nat,
                                                   delay: nat, n: nat)
    requires k <= |polls| && ClockAt(start, timeout, polls, k).waitingForUser && n <= |polls|
    ensures GoesOn(start, timeout, polls, n) <==> GoesOn(start, timeout, Delayed(polls, k, delay), n)
  {
    if n == 0 {
    } else {
      DelayedVerdicts(start, timeout, polls, k, delay, n - 1);
      DelayedClock(start, timeout, polls, k, delay, n - 1);
    }
  }

  // However long the user takes to answer, the wait ends at the same poll with
  // the same result.
  lemma UserMayTakeAnyTime<T, E>(start: nat, timeout: nat, polls: seq<Poll<T, E>>, k: nat, delay: nat, n: nat,
                                 r: ConnectWaitResult<T, E>)
    requires k <= |polls| && ClockAt(start, timeout, polls, k).waitingForUser
    ensures Ends(start, timeout, polls, n, r) <==> Ends(start, timeout, Delayed(polls, k, delay), n, r)
  {
    if n < |polls| {
      DelayedVerdicts(start, timeout, polls, k, delay, n);
      DelayedClock(start, timeout, polls, k, delay, n);
    }
  }
}
