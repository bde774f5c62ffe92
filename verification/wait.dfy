// common/wait.c: a wait that sleeps longer each time, like the Fibonacci numbers, until its time is up. The clock is a
// parameter of every call. Times are in milliseconds.
module Waits {
  const UINT64 := 0x1_0000_0000_0000_0000
  const MSEC_PER_SEC := 1000

  // The fields of a wait
  datatype State = State(waitTime: nat, sleepTime: nat, sleepPrevTime: nat, beginTime: nat, retry: nat)

  function FirstSleep(waitTime: nat): nat {
    if waitTime >= MSEC_PER_SEC then MSEC_PER_SEC / 10 else waitTime / 10
  }

  function Start(waitTime: nat, now: nat): State {
    State(waitTime, FirstSleep(waitTime), 0, now, 2)
  }

  // Unsigned 64-bit subtraction
  function Elapsed(beginTime: nat, now: nat): nat {
    (now - beginTime) % UINT64
  }

  // What waitRemains returns at a reading of the clock, and the state it leaves
  function Remains(w: State, now: nat): (nat, State) {
    if w.sleepTime == 0 then (0, w)
    else
      var elapsed := Elapsed(w.beginTime, now);
      var retry := if w.retry > 0 then w.retry - 1 else 0;
      if elapsed < w.waitTime then
        var result := w.waitTime - elapsed;
        var sum := w.sleepTime + w.sleepPrevTime;
        (result, w.(sleepPrevTime := w.sleepTime, sleepTime := if sum > result then result else sum, retry := retry))
      else if w.retry != 0 then (w.sleepTime, w.(retry := retry))
      else (0, w.(sleepTime := 0, retry := retry))
  }

  class Wait {
    var waitTime: nat
    var sleepTime: nat
    var sleepPrevTime: nat
    var beginTime: nat
    var retry: nat

    ghost function Value(): State
      reads this
    {
      State(waitTime, sleepTime, sleepPrevTime, beginTime, retry)
    }

    // waitNew
    constructor (waitTime: nat, now: nat)
      requires waitTime <= 999999000
      ensures Value() == Start(waitTime, now)
    {
      this.waitTime := waitTime;
      retry := 2;
      sleepPrevTime := 0;
      if waitTime >= MSEC_PER_SEC {
        sleepTime := MSEC_PER_SEC / 10;
      } else {
        sleepTime := waitTime / 10;
      }
      beginTime := now;
    }

    // waitRemains
    method WaitRemains(now: nat) returns (result: nat)
      modifies this
      ensures (result, Value()) == Remains(old(Value()), now)
    {
      result := 0;
      if sleepTime > 0 {
        var elapsedTime := Elapsed(beginTime, now);
        if elapsedTime < waitTime {
          result := waitTime - elapsedTime;
          var sleep := sleepTime + sleepPrevTime;
          if sleep > result {
            sleep := result;
          }
          sleepPrevTime := sleepTime;
          sleepTime := sleep;
        } else if retry != 0 {
          result := sleepTime;
        } else {
          sleepTime := 0;
        }
        if retry > 0 {
          retry := retry - 1;
        }
      }
    }

    // waitMore: whether there is more to wait, and the time it sleeps for
    method WaitMore(now: nat) returns (more: bool, slept: nat)
      modifies this
      ensures Value() == Remains(old(Value()), now).1
      ensures more == More(old(Value()), now)
      ensures slept == Slept(old(Value()), now)
    {
      var remains := WaitRemains(now);
      more, slept := remains > 0, if remains > 0 then sleepTime else 0;
    }
  }

  predicate More(w: State, now: nat) {
    Remains(w, now).0 > 0
  }

  function Slept(w: State, now: nat): nat {
    if More(w, now) then Remains(w, now).1.sleepTime else 0
  }

  // The state after a call at each of the times
  function After(w: State, times: seq<nat>): State
    decreases |times|
  {
    if times == [] then w else After(Remains(w, times[0]).1, times[1..])
  }

  // ---- whatever the clock does

  // Two calls are always worth a try
  lemma MoreTwice(waitTime: nat, now: nat, first: nat, second: nat)
    requires waitTime >= 10
    ensures var w := Start(waitTime, now);
            More(w, first) && More(Remains(w, first).1, second)
            && Slept(w, first) > 0 && Slept(Remains(w, first).1, second) > 0
  {
  }

  // The first sleep is a tenth of the wait, but no more than a tenth of a second
  lemma FirstSleepIs(waitTime: nat, now: nat)
    requires 10 <= waitTime
    ensures More(Start(waitTime, now), now)
    ensures Slept(Start(waitTime, now), now) == if waitTime < 1000 then waitTime / 10 else 100
  {
    assert Elapsed(now, now) == 0;
  }

  // A shorter wait never waits at all
  lemma NeverShort(waitTime: nat, now: nat, first: nat)
    requires waitTime < 10
    ensures !More(Start(waitTime, now), first) && Remains(Start(waitTime, now), first).1 == Start(waitTime, now)
  {
  }

  // Once there is no more there never will be
  lemma {:induction false} DoneStaysDone(w: State, now: nat, times: seq<nat>, later: nat)
    requires !More(w, now)
    ensures !More(After(Remains(w, now).1, times), later)
    decreases |times|
  {
    var done := Remains(w, now).1;
    assert done.sleepTime == 0;
    if times != [] {
      assert Remains(done, times[0]).1 == done;
      DoneStaysDone(done, times[0], times[1..], later);
    }
  }

  // ---- with a clock that does not go back

  // Calls that all find more to wait for, each no earlier than the one before and its sleep
  ghost predicate Paced(w: State, from: nat, times: seq<nat>)
    decreases |times|
  {
    times == [] || (from <= times[0] && More(w, times[0])
                    && Paced(Remains(w, times[0]).1, times[0] + Slept(w, times[0]), times[1..]))
  }

  function TotalSlept(w: State, times: seq<nat>): nat
    decreases |times|
  {
    if times == [] then 0 else Slept(w, times[0]) + TotalSlept(Remains(w, times[0]).1, times[1..])
  }

  // Within the range of the unsigned subtraction the elapsed time is the difference
  ghost predicate InRange(w: State, times: seq<nat>) {
    forall k :: 0 <= k < |times| ==> w.beginTime <= times[k] < w.beginTime + UINT64
  }

  lemma ElapsedIs(beginTime: nat, now: nat)
    requires beginTime <= now < beginTime + UINT64
    ensures Elapsed(beginTime, now) == now - beginTime
  {
  }

  function Left(w: State, now: nat): nat {
    if now - w.beginTime < w.waitTime && now >= w.beginTime then w.waitTime - (now - w.beginTime) else 0
  }

  // Without retries no more is slept than the time that is left
  lemma {:induction false} SleepsInTime(w: State, from: nat, times: seq<nat>)
    requires Paced(w, from, times) && InRange(w, times) && w.beginTime <= from && w.retry == 0
    ensures TotalSlept(w, times) <= Left(w, from)
    decreases |times|
  {
    if times != [] {
      var now := times[0];
      ElapsedIs(w.beginTime, now);
      Later(w, times);
      SleepsInTime(Remains(w, now).1, now + Slept(w, now), times[1..]);
    }
  }

  lemma Later(w: State, times: seq<nat>)
    requires times != [] && InRange(w, times)
    ensures InRange(Remains(w, times[0]).1, times[1..]) && Remains(w, times[0]).1.beginTime == w.beginTime
  {
    forall k | 0 <= k < |times[1..]|
      ensures w.beginTime <= times[1..][k] < w.beginTime + UINT64
    {
      assert times[1..][k] == times[k + 1];
    }
  }

  // All the sleeps of a wait together are no longer than its time and one first sleep
  lemma TotalBound(waitTime: nat, now: nat, times: seq<nat>)
    requires Paced(Start(waitTime, now), now, times) && InRange(Start(waitTime, now), times)
    ensures TotalSlept(Start(waitTime, now), times) <= waitTime + FirstSleep(waitTime)
  {
    var w := Start(waitTime, now);
    if times != [] {
      ElapsedIs(now, times[0]);
      Later(w, times);
      var v, rest := Remains(w, times[0]).1, times[1..];
      var next := times[0] + Slept(w, times[0]);
      if rest != [] {
        ElapsedIs(now, rest[0]);
        Later(v, rest);
        SleepsInTime(Remains(v, rest[0]).1, rest[0] + Slept(v, rest[0]), rest[1..]);
        SecondBound(w, v, times[0], rest[0]);
      } else {
        assert TotalSlept(v, rest) == 0;
      }
    }
  }

  // The first two sleeps and what is left after them
  lemma SecondBound(w: State, v: State, first: nat, second: nat)
    requires w == Start(w.waitTime, w.beginTime) && v == Remains(w, first).1
    requires More(w, first) && More(v, second)
    requires w.beginTime <= first && first + Slept(w, first) <= second < w.beginTime + UINT64
    ensures Slept(w, first) + Slept(v, second) + Left(Remains(v, second).1, second + Slept(v, second))
         <= w.waitTime + FirstSleep(w.waitTime)
  {
    ElapsedIs(w.beginTime, first);
    ElapsedIs(w.beginTime, second);
  }

  function Fib(n: nat): nat {
    if n < 2 then n else Fib(n - 1) + Fib(n - 2)
  }

  // Every call came in time and its sleep was not cut to the time left
  ghost predicate Uncapped(w: State, times: seq<nat>)
    decreases |times|
  {
    times == [] ||
    (&& Elapsed(w.beginTime, times[0]) < w.waitTime
     && w.sleepTime + w.sleepPrevTime <= w.waitTime - Elapsed(w.beginTime, times[0])
     && Uncapped(Remains(w, times[0]).1, times[1..]))
  }

  lemma {:induction false} FibSleeps(w: State, times: seq<nat>, first: nat, k: nat)
    requires Uncapped(w, times) && first > 0
    requires w.sleepTime == Fib(k + 1) * first && w.sleepPrevTime == Fib(k) * first && w.sleepTime > 0
    ensures TotalSlept(w, times) + Fib(k + 3) * first == Fib(k + |times| + 3) * first
    decreases |times|
  {
    if times != [] {
      var next := Remains(w, times[0]).1;
      assert Fib(k + 2) == Fib(k + 1) + Fib(k);
      Distribute(Fib(k + 1), Fib(k), first);
      FibSleeps(next, times[1..], first, k + 1);
      assert Fib(k + 4) == Fib(k + 3) + Fib(k + 2);
      Distribute(Fib(k + 3), Fib(k + 2), first);
    }
  }

  lemma Distribute(a: nat, b: nat, c: nat)
    ensures (a + b) * c == a * c + b * c
  {
  }

  // While sleeps are not cut they grow as the Fibonacci numbers, so there are only as many of them as fit the time:
  // their sum is a difference of two such numbers and no longer than the wait
  lemma FibonacciBound(waitTime: nat, now: nat, times: seq<nat>)
    requires waitTime >= 10
    requires Paced(Start(waitTime, now), now, times) && InRange(Start(waitTime, now), times)
    requires Uncapped(Start(waitTime, now), times)
    ensures TotalSlept(Start(waitTime, now), times) == FirstSleep(waitTime) * (Fib(|times| + 3) - 2)
    ensures FirstSleep(waitTime) * (Fib(|times| + 3) - 2) <= waitTime
  {
    hide Uncapped, TotalSlept, Paced, InRange;
    var w, first := Start(waitTime, now), FirstSleep(waitTime);
    assert Fib(1) == 1 && Fib(3) == 2;
    FibSleeps(w, times, first, 0);
    hide Fib;
    Minus(Fib(|times| + 3), first);
    UncappedInTime(w, now, times);
    if times == [] {
      NothingSlept(w);
    }
  }

  lemma NothingSlept(w: State)
    ensures TotalSlept(w, []) == 0
  {
  }

  lemma Minus(n: nat, first: nat)
    ensures n * first - 2 * first == first * (n - 2)
  {
  }

  lemma {:induction false} UncappedInTime(w: State, from: nat, times: seq<nat>)
    requires Paced(w, from, times) && InRange(w, times) && Uncapped(w, times) && w.beginTime <= from
    ensures times != [] ==> TotalSlept(w, times) <= Left(w, from)
    decreases |times|
  {
    if times != [] {
      var now := times[0];
      ElapsedIs(w.beginTime, now);
      Later(w, times);
      UncappedInTime(Remains(w, now).1, now + Slept(w, now), times[1..]);
    }
  }
}
