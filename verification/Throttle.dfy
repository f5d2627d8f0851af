/**
 The fixed-window limiter of system/rate.go, the one-slot lock of system/locker.go
 and the console throttle of server/console.go built from them. The clock is a
 parameter; counts are Go's uint64, so `count + 1` wraps.
 */
module Throttle {

  const MAX_UINT64: int := 0xFFFF_FFFF_FFFF_FFFF

  type uint64 = x: int | 0 <= x <= MAX_UINT64
  type Time = int   // nanoseconds

  datatype Window = Window(count: uint64, last: Time)

  /** One `Try` at time `now`: the new window and whether the call is let through. */
  function TryAt(w: Window, limit: uint64, duration: int, now: Time): (Window, bool) {
    var w1 := if now - w.last > duration then Window(0, now) else w;
    var next := (w1.count + 1) % (MAX_UINT64 + 1);
    if next > limit then (w1, false) else (Window(next, w1.last), true)
  }

  class Rate {
    const limit: uint64
    const duration: int
    var count: uint64
    var last: Time

    constructor (limit: uint64, duration: int, now: Time)
      ensures this.limit == limit && this.duration == duration && count == 0 && last == now
    {
      this.limit, this.duration, count, last := limit, duration, 0, now;
    }

    /**
     A window older than the duration is over. The call is let through, and counted,
     exactly when the window in force has seen fewer calls than the limit; a count
     that cannot grow any further wraps.
     */
    method Try(now: Time) returns (ok: bool)
      modifies this
      ensures last == if now - old(last) > duration then now else old(last)
      ensures var used := if now - old(last) > duration then 0 else old(count);
              && (ok <==> used < limit || used == MAX_UINT64)
              && count == if !ok then used else if used == MAX_UINT64 then 0 else used + 1
    {
      if now - last > duration {
        count := 0;
        last := now;
      }
      var next := (count + 1) % (MAX_UINT64 + 1);
      if next > limit {
        return false;
      }
      count := next;
      return true;
    }

    method Reset(now: Time)
      modifies this
      ensures count == 0 && last == now
    {
      count, last := 0, now;
    }
  }

  // ---------------------------------------------------------------------
  // Any interval one duration long
  // ---------------------------------------------------------------------

  ghost predicate NonDecreasing(times: seq<Time>) {
    forall i, j :: 0 <= i < j < |times| ==> times[i] <= times[j]
  }

  /** The number of calls let through at times in [a, b]. */
  function Passed(w: Window, limit: uint64, duration: int, times: seq<Time>, a: Time, b: Time): nat
    decreases |times|
  {
    if times == [] then 0
    else
      var (w1, ok) := TryAt(w, limit, duration, times[0]);
      (if ok && a <= times[0] <= b then 1 else 0) + Passed(w1, limit, duration, times[1..], a, b)
  }

  lemma {:induction false} NothingAfter(w: Window, limit: uint64, duration: int, times: seq<Time>, a: Time, b: Time)
    requires forall i :: 0 <= i < |times| ==> times[i] > b
    ensures Passed(w, limit, duration, times, a, b) == 0
    decreases |times|
  {
    if times != [] {
      NothingAfter(TryAt(w, limit, duration, times[0]).0, limit, duration, times[1..], a, b);
    }
  }

  lemma TailNonDecreasing(times: seq<Time>)
    requires times != [] && NonDecreasing(times)
    ensures NonDecreasing(times[1..]) && forall i :: 0 <= i < |times| - 1 ==> times[0] <= times[1..][i]
  {
    forall i | 0 <= i < |times| - 1 ensures times[0] <= times[1..][i] {
      assert times[1..][i] == times[i + 1];
    }
  }

  /** A call within the window in force. */
  lemma TryWithin(w: Window, limit: uint64, duration: int, now: Time)
    requires limit < MAX_UINT64 && w.count <= limit && now - w.last <= duration
    ensures TryAt(w, limit, duration, now) == if w.count < limit then (Window(w.count + 1, w.last), true) else (w, false)
  {
  }

  /** A call after it. */
  lemma TryLater(w: Window, limit: uint64, duration: int, now: Time)
    requires limit < MAX_UINT64 && now - w.last > duration
    ensures TryAt(w, limit, duration, now) == if 0 < limit then (Window(1, now), true) else (Window(0, now), false)
  {
  }

  lemma {:induction false} PassedCons(w: Window, limit: uint64, duration: int, times: seq<Time>, a: Time, b: Time)
    requires times != []
    ensures var (w1, ok) := TryAt(w, limit, duration, times[0]);
            Passed(w, limit, duration, times, a, b) ==
            (if ok && a <= times[0] <= b then 1 else 0) + Passed(w1, limit, duration, times[1..], a, b)
  {
  }

  /** Within one window at most the rest of the limit gets through. */
  lemma {:induction false} SameWindow(w: Window, limit: uint64, duration: int, times: seq<Time>, a: Time, b: Time)
    requires limit < MAX_UINT64 && w.count <= limit && NonDecreasing(times) && b - w.last <= duration
    ensures Passed(w, limit, duration, times, a, b) <= limit - w.count
    decreases |times|
  {
    hide TryAt, Passed;
    if times == [] {
      NothingAfter(w, limit, duration, times, a, b);
    } else {
      TailNonDecreasing(times);
      if times[0] > b {
        assert forall i :: 0 <= i < |times| ==> times[i] >= times[0];
        NothingAfter(w, limit, duration, times, a, b);
      } else {
        TryWithin(w, limit, duration, times[0]);
        PassedCons(w, limit, duration, times, a, b);
        SameWindow(TryAt(w, limit, duration, times[0]).0, limit, duration, times[1..], a, b);
      }
    }
  }

  /** From inside the interval at most one window change can follow. */
  lemma {:induction false} FromInside(w: Window, limit: uint64, duration: int, times: seq<Time>, a: Time, b: Time)
    requires limit < MAX_UINT64 && w.count <= limit && NonDecreasing(times) && a <= b <= a + duration
    requires forall i :: 0 <= i < |times| ==> times[i] >= a
    ensures Passed(w, limit, duration, times, a, b) <= (limit - w.count) + limit
    decreases |times|
  {
    hide TryAt, Passed;
    if times == [] {
      NothingAfter(w, limit, duration, times, a, b);
    } else {
      TailNonDecreasing(times);
      var t := times[0];
      if t > b {
        assert forall i :: 0 <= i < |times| ==> times[i] >= t;
        NothingAfter(w, limit, duration, times, a, b);
      } else {
        PassedCons(w, limit, duration, times, a, b);
        if t - w.last > duration {
          TryLater(w, limit, duration, t);
          SameWindow(TryAt(w, limit, duration, t).0, limit, duration, times[1..], a, b);
        } else {
          TryWithin(w, limit, duration, t);
          FromInside(TryAt(w, limit, duration, t).0, limit, duration, times[1..], a, b);
        }
      }
    }
  }

  /**
   Any closed interval one duration long contains at most twice the limit of calls
   that get through, at whatever times the calls come.
   */
  lemma {:induction false} AtMostTwiceTheLimit(
    w: Window, limit: uint64, duration: int, times: seq<Time>, a: Time, b: Time)
    requires limit < MAX_UINT64 && w.count <= limit && NonDecreasing(times) && a <= b <= a + duration
    ensures Passed(w, limit, duration, times, a, b) <= 2 * limit
    decreases |times|
  {
    if times != [] {
      TailNonDecreasing(times);
      if times[0] >= a {
        assert forall i :: 0 <= i < |times| ==> times[i] >= times[0];
        FromInside(w, limit, duration, times, a, b);
      } else {
        AtMostTwiceTheLimit(TryAt(w, limit, duration, times[0]).0, limit, duration, times[1..], a, b);
      }
    }
  }

  /** Within one window exactly the first calls get through, as many as are left of the limit. */
  lemma {:induction false} WindowIsUsedUp(w: Window, limit: uint64, duration: int, times: seq<Time>, a: Time, b: Time)
    requires limit < MAX_UINT64 && w.count <= limit
    requires forall i :: 0 <= i < |times| ==> a <= times[i] <= b && times[i] - w.last <= duration
    ensures Passed(w, limit, duration, times, a, b) == if |times| <= limit - w.count then |times| else limit - w.count
    decreases |times|
  {
    hide TryAt, Passed;
    if times == [] {
      NothingAfter(w, limit, duration, times, a, b);
    } else {
      TryWithin(w, limit, duration, times[0]);
      PassedCons(w, limit, duration, times, a, b);
      WindowIsUsedUp(TryAt(w, limit, duration, times[0]).0, limit, duration, times[1..], a, b);
    }
  }

  function Repeat(t: Time, n: nat): (times: seq<Time>)
    ensures |times| == n && forall i :: 0 <= i < n ==> times[i] == t
  {
    seq(n, _ => t)
  }

  lemma TryInside(w: Window, limit: uint64, duration: int, now: Time)
    requires limit < MAX_UINT64 && w.count < limit && now - w.last <= duration
    ensures TryAt(w, limit, duration, now) == (Window(w.count + 1, w.last), true)
  {
  }

  lemma {:induction false} PassedStep(w: Window, limit: uint64, duration: int, times: seq<Time>, a: Time, b: Time)
    requires times != [] && TryAt(w, limit, duration, times[0]).1 && a <= times[0] <= b
    ensures Passed(w, limit, duration, times, a, b) ==
            1 + Passed(TryAt(w, limit, duration, times[0]).0, limit, duration, times[1..], a, b)
  {
  }

  lemma {:induction false} PassedAppend(w: Window, limit: uint64, duration: int, n: nat, t: Time, more: seq<Time>, a: Time, b: Time)
    requires limit < MAX_UINT64 && w.count + n <= limit && a <= t <= b && t - w.last <= duration
    ensures Passed(w, limit, duration, Repeat(t, n) + more, a, b) ==
            n + Passed(Window(w.count + n, w.last), limit, duration, more, a, b)
    decreases n
  {
    hide TryAt, Passed;
    var times := Repeat(t, n) + more;
    if n == 0 {
      assert times == more;
    } else {
      assert times[0] == t && times[1..] == Repeat(t, n - 1) + more;
      TryInside(w, limit, duration, t);
      PassedStep(w, limit, duration, times, a, b);
      PassedAppend(Window(w.count + 1, w.last), limit, duration, n - 1, t, more, a, b);
    }
  }

  /** The first call after a window has run out starts a new one and gets through. */
  lemma NewWindowOpens(w: Window, limit: uint64, duration: int, now: Time)
    requires 0 < limit && now - w.last > duration
    ensures TryAt(w, limit, duration, now) == (Window(1, now), true)
  {
  }

  /**
   The bound is reached, for every limit and duration: after a quiet window, `limit`
   calls in its last moment and `limit` calls in the moment after all get through.
   */
  lemma TwiceIsReached(limit: uint64, duration: int)
    requires 0 < limit < MAX_UINT64 && duration >= 1
    ensures var times := Repeat(duration, limit) + Repeat(duration + 1, limit);
            && NonDecreasing(times)
            && Passed(Window(0, 0), limit, duration, times, duration, duration + duration) == 2 * limit
  {
    hide TryAt, Passed;
    var late := Repeat(duration + 1, limit);
    var a, b := duration, duration + duration;
    PassedAppend(Window(0, 0), limit, duration, limit, duration, late, a, b);
    NewWindowOpens(Window(limit, 0), limit, duration, duration + 1);
    PassedStep(Window(limit, 0), limit, duration, late, a, b);
    assert late[1..] == Repeat(duration + 1, limit - 1) + [];
    PassedAppend(Window(1, duration + 1), limit, duration, limit - 1, duration + 1, [], a, b);
    NothingAfter(Window(limit, duration + 1), limit, duration, [], a, b);
  }

  /** The largest limit never refuses: the sum wraps to zero first. */
  lemma LargestLimitNeverRefuses(w: Window, duration: int, now: Time)
    ensures TryAt(w, MAX_UINT64, duration, now).1
  {
  }

  // ---------------------------------------------------------------------
  // The limiter over a run of calls
  // ---------------------------------------------------------------------

  /** The number of calls at times in [a, b] that were answered with true. */
  function Count(answers: seq<bool>, times: seq<Time>, a: Time, b: Time): nat
    requires |answers| == |times|
  {
    if answers == [] then 0
    else (if answers[0] && a <= times[0] <= b then 1 else 0) + Count(answers[1..], times[1..], a, b)
  }

  /** One answer per call, as `TryAt` gives it. */
  ghost predicate Answered(w: Window, limit: uint64, duration: int, times: seq<Time>, answers: seq<bool>)
    decreases |times|
  {
    && |answers| == |times|
    && (times != [] ==>
          && answers[0] == TryAt(w, limit, duration, times[0]).1
          && Answered(TryAt(w, limit, duration, times[0]).0, limit, duration, times[1..], answers[1..]))
  }

  lemma {:induction false} CountIsPassed(
    w: Window, limit: uint64, duration: int, times: seq<Time>, answers: seq<bool>, a: Time, b: Time)
    requires Answered(w, limit, duration, times, answers)
    ensures Count(answers, times, a, b) == Passed(w, limit, duration, times, a, b)
    decreases |times|
  {
    if times != [] {
      CountIsPassed(TryAt(w, limit, duration, times[0]).0, limit, duration, times[1..], answers[1..], a, b);
    }
  }

  lemma {:induction false} AnsweredOneMore(
    w: Window, w': Window, limit: uint64, duration: int, times: seq<Time>, answers: seq<bool>, t: Time, ok: bool)
    requires Answered(w, limit, duration, times, answers) && w' == After(w, limit, duration, times)
    requires ok == TryAt(w', limit, duration, t).1
    ensures Answered(w, limit, duration, times + [t], answers + [ok])
    ensures After(w, limit, duration, times + [t]) == TryAt(w', limit, duration, t).0
    decreases |times|
  {
    if times == [] {
      assert times + [t] == [t] && answers + [ok] == [ok];
    } else {
      assert (times + [t])[1..] == times[1..] + [t] && (answers + [ok])[1..] == answers[1..] + [ok];
      AnsweredOneMore(TryAt(w, limit, duration, times[0]).0, w', limit, duration, times[1..], answers[1..], t, ok);
    }
  }

  function After(w: Window, limit: uint64, duration: int, times: seq<Time>): Window
    decreases |times|
  {
    if times == [] then w else After(TryAt(w, limit, duration, times[0]).0, limit, duration, times[1..])
  }

  lemma {:induction false} AnsweredNothing(w: Window, limit: uint64, duration: int)
    ensures Answered(w, limit, duration, [], []) && After(w, limit, duration, []) == w
  {
  }

  /** What `Try` promises determines the window and the answer. */
  lemma TryIs(w: Window, limit: uint64, duration: int, now: Time, w': Window, ok: bool)
    requires w'.last == if now - w.last > duration then now else w.last
    requires var used := if now - w.last > duration then 0 else w.count;
             && (ok <==> used < limit || used == MAX_UINT64)
             && w'.count == if !ok then used else if used == MAX_UINT64 then 0 else used + 1
    ensures TryAt(w, limit, duration, now) == (w', ok)
  {
  }

  /** A fresh limiter, called at the given times: no interval one duration long lets more than twice the limit through. */
  method Serve(limit: uint64, duration: int, start: Time, times: seq<Time>) returns (answers: seq<bool>)
    ensures |answers| == |times|
    ensures limit == MAX_UINT64 ==> forall i :: 0 <= i < |answers| ==> answers[i]
    ensures limit < MAX_UINT64 && NonDecreasing(times) ==>
              forall a, b :: a <= b <= a + duration ==> Count(answers, times, a, b) <= 2 * limit
  {
    hide TryAt, After, Answered, Count, Passed, NonDecreasing;
    var r := new Rate(limit, duration, start);
    AnsweredNothing(Window(0, start), limit, duration);
    ghost var w := Window(0, start);
    answers := [];
    for i := 0 to |times|
      invariant fresh(r) && r.limit == limit && r.duration == duration && |answers| == i
      invariant Window(r.count, r.last) == After(w, limit, duration, times[..i])
      invariant Answered(w, limit, duration, times[..i], answers)
      invariant limit == MAX_UINT64 ==> forall j :: 0 <= j < i ==> answers[j]
    {
      ghost var before := Window(r.count, r.last);
      var ok := r.Try(times[i]);
      TryIs(before, limit, duration, times[i], Window(r.count, r.last), ok);
      AnsweredOneMore(w, before, limit, duration, times[..i], answers, times[i], ok);
      assert times[..i] + [times[i]] == times[..i + 1];
      answers := answers + [ok];
    }
    assert times[..|times|] == times;
    if limit < MAX_UINT64 && NonDecreasing(times) {
      forall a, b | a <= b <= a + duration ensures Count(answers, times, a, b) <= 2 * limit {
        CountIsPassed(w, limit, duration, times, answers, a, b);
        AtMostTwiceTheLimit(w, limit, duration, times, a, b);
      }
    }
  }

  // ---------------------------------------------------------------------
  // Locker and console throttle
  // ---------------------------------------------------------------------

  /** A channel with room for one value: full means locked. */
  class Locker {
    var locked: bool

    constructor ()
      ensures !locked
    {
      locked := false;
    }

    method Acquire() returns (ok: bool)
      modifies this
      ensures ok == !old(locked) && locked
    {
      if locked {
        return false;
      }
      locked := true;
      return true;
    }

    method Release()
      modifies this
      ensures !locked
    {
      locked := false;
    }
  }

  /** The number of maximal runs of refusals. */
  function RefusalRuns(answers: seq<bool>): nat {
    if answers == [] then 0
    else
      var n := |answers| - 1;
      RefusalRuns(answers[..n]) + if !answers[n] && (n == 0 || answers[n - 1]) then 1 else 0
  }

  class ConsoleThrottle {
    const limit: Rate
    const lock: Locker
    var strikes: nat            // how often the strike callback ran
    ghost var answers: seq<bool>

    ghost predicate Valid()
      reads this, lock
    {
      && strikes == RefusalRuns(answers)
      && lock.locked == (answers != [] && !answers[|answers| - 1])
    }

    constructor (lines: uint64, period: int, now: Time)
      ensures Valid() && fresh(limit) && fresh(lock) && answers == []
    {
      limit := new Rate(lines, period, now);
      lock := new Locker();
      strikes, answers := 0, [];
    }

    /** The strike callback runs once for every maximal run of refused calls. */
    method Allow(now: Time) returns (ok: bool)
      requires Valid()
      modifies this, limit, lock
      ensures Valid()
      ensures answers == old(answers) + [ok]
      ensures strikes == RefusalRuns(old(answers) + [ok])
      ensures ok <==> var used := if now - old(limit.last) > limit.duration then 0 else old(limit.count);
                      used < limit.limit || used == MAX_UINT64
    {
      assert (answers + [true])[..|answers|] == answers == (answers + [false])[..|answers|];
      ok := limit.Try(now);
      answers := answers + [ok];
      if !ok {
        var first := lock.Acquire();
        if first {
          strikes := strikes + 1;
        }
      } else {
        lock.Release();
      }
    }

    /** Resetting the limiter forgets neither the strikes nor an ongoing run. */
    method Reset(now: Time)
      requires Valid()
      modifies limit
      ensures Valid() && answers == old(answers) && strikes == old(strikes)
      ensures limit.count == 0 && limit.last == now
    {
      limit.Reset(now);
    }
  }
}
