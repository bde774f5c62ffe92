// db/db.c: dbReplayWait, two loops that poll a standby. The first one starts its timer again whenever the standby
// moves.
//
// What the standby and the clock answer is given for every round of a loop. That the answers make sense (positions and
// time do not go back, a sleep lasts as long as asked) is a hypothesis about each round as it is reached.
module DbWait {
  import opened Options
  import opened Waits

  // The position reported, the time if the timer is started again, and the time when more waiting is asked for
  datatype Round = Round(lsn: Option<nat>, created: nat, asked: nat)

  datatype Outcome = Reached(lsn: nat) | NotStandby | TimedOut(lsn: nat)

  // The wait, the last position and the time from which the next round runs
  datatype Position = Running(wait: State, last: Option<nat>, from: nat) | Stopped(outcome: Outcome)

  // The first query counts as progress
  predicate Progress(last: Option<nat>, lsn: nat) {
    last.None? || lsn > last.value
  }

  // The wait of this round, started again when the target is not reached but there is progress
  function Timer(p: Position, r: Round, timeout: nat, lsn: nat): State
    requires p.Running?
  {
    if Progress(p.last, lsn) then Start(timeout, r.created) else p.wait
  }

  function Advance(p: Position, r: Round, timeout: nat, target: nat): Position {
    if p.Stopped? then p
    else if r.lsn.None? then Stopped(NotStandby)
    else
      var lsn := r.lsn.value;
      if lsn > target then Stopped(Reached(lsn))
      else
        var w := Timer(p, r, timeout, lsn);
        if More(w, r.asked) then Running(Remains(w, r.asked).1, Some(lsn), r.asked + Slept(w, r.asked))
        else Stopped(TimedOut(lsn))
  }

  // Where the loop is after n rounds
  function Run(rounds: nat -> Round, timeout: nat, target: nat, begin: nat, n: nat): Position {
    if n == 0 then Running(Start(timeout, begin), None, begin)
    else Advance(Run(rounds, timeout, target, begin, n - 1), rounds(n - 1), timeout, target)
  }

  // A round the standby and the clock may give: a position that does not go back, times that do not go back, and a wait
  // that began less than 2^64 milliseconds ago
  predicate Honest(p: Position, r: Round, timeout: nat) {
    p.Running? && r.lsn.Some? ==>
      && (p.last.Some? ==> p.last.value <= r.lsn.value)
      && p.from <= r.created <= r.asked
      && r.asked < Timer(p, r, timeout, r.lsn.value).beginTime + UINT64
  }

  ghost predicate AllHonest(rounds: nat -> Round, timeout: nat, target: nat, begin: nat) {
    forall n: nat :: Honest(Run(rounds, timeout, target, begin, n), rounds(n), timeout)
  }

  lemma HonestAt(rounds: nat -> Round, timeout: nat, target: nat, begin: nat, n: nat)
    requires AllHonest(rounds, timeout, target, begin)
    ensures Honest(Run(rounds, timeout, target, begin, n), rounds(n), timeout)
  {
    hide Run, Honest;
  }

  lemma RunStep(rounds: nat -> Round, timeout: nat, target: nat, begin: nat, n: nat)
    ensures Run(rounds, timeout, target, begin, n + 1)
         == Advance(Run(rounds, timeout, target, begin, n), rounds(n), timeout, target)
    ensures Run(rounds, timeout, target, begin, 0) == Running(Start(timeout, begin), None, begin)
  {
    hide Advance;
  }

  // ---- the loop ends

  // What every round uses up: positions up to the target, and within one position time and retries
  function Measure(p: Position, timeout: nat, target: nat): int
    requires p.Running?
  {
    var ahead := if p.last.None? then target + 2 else target + 1 - p.last.value;
    ahead * (timeout + 3) + Left(p.wait, p.from) + p.wait.retry
  }

  // What holds of the position after every round
  ghost predicate Fine(p: Position, timeout: nat, target: nat) {
    p.Running? ==>
      && p.wait.waitTime == timeout && p.wait.retry <= 2 && p.wait.beginTime <= p.from
      && (p.last.Some? ==> p.last.value <= target)
  }

  // One more call uses up time or a retry
  lemma CallUses(w: State, asked: nat, from: nat)
    requires w.beginTime <= from <= asked < w.beginTime + UINT64 && More(w, asked)
    ensures var next := Remains(w, asked).1;
            && next.waitTime == w.waitTime && next.beginTime == w.beginTime && next.retry <= w.retry
            && Left(next, asked + Slept(w, asked)) + next.retry < Left(w, from) + w.retry
  {
    ElapsedIs(w.beginTime, asked);
  }

  lemma RoundUses(p: Position, r: Round, timeout: nat, target: nat)
    requires Fine(p, timeout, target) && Honest(p, r, timeout)
    ensures Fine(Advance(p, r, timeout, target), timeout, target)
    ensures Advance(p, r, timeout, target).Running? ==>
              Measure(Advance(p, r, timeout, target), timeout, target) < Measure(p, timeout, target)
  {
    hide Remains, Slept, More, Left;
    var next := Advance(p, r, timeout, target);
    if next.Running? {
      var lsn := r.lsn.value;
      var w := Timer(p, r, timeout, lsn);
      if Progress(p.last, lsn) {
        CallUses(w, r.asked, r.created);
        FreshTimer(timeout, r.created);
        var ahead := if p.last.None? then target + 2 else target + 1 - p.last.value;
        Product(target + 1 - lsn, ahead, timeout + 3);
        LeftIsNat(p.wait, p.from);
      } else {
        CallUses(w, r.asked, p.from);
      }
    }
  }

  lemma FreshTimer(timeout: nat, now: nat)
    ensures Left(Start(timeout, now), now) + Start(timeout, now).retry <= timeout + 2
  {
  }

  lemma LeftIsNat(w: State, now: nat)
    ensures Left(w, now) >= 0
  {
  }

  lemma Product(a: nat, b: nat, c: nat)
    requires a < b
    ensures a * c + c <= b * c
  {
    assert (a + 1) * c <= b * c;
  }

  lemma {:induction false} RunMeasure(rounds: nat -> Round, timeout: nat, target: nat, begin: nat, n: nat)
    requires AllHonest(rounds, timeout, target, begin)
    ensures Fine(Run(rounds, timeout, target, begin, n), timeout, target)
    ensures Run(rounds, timeout, target, begin, n).Running? ==>
              n + Measure(Run(rounds, timeout, target, begin, n), timeout, target)
              <= Measure(Run(rounds, timeout, target, begin, 0), timeout, target)
    decreases n
  {
    hide Measure, Advance, AllHonest, Run, Honest;
    RunStep(rounds, timeout, target, begin, if n > 0 then n - 1 else 0);
    if n > 0 {
      RunMeasure(rounds, timeout, target, begin, n - 1);
      HonestAt(rounds, timeout, target, begin, n - 1);
      RoundUses(Run(rounds, timeout, target, begin, n - 1), rounds(n - 1), timeout, target);
      StaysStopped(Run(rounds, timeout, target, begin, n - 1), rounds(n - 1), timeout, target);
    }
  }

  lemma StaysStopped(p: Position, r: Round, timeout: nat, target: nat)
    ensures p.Stopped? ==> Advance(p, r, timeout, target) == p
  {
  }

  // No more rounds than this, however often the timer is started again
  function RoundLimit(timeout: nat, target: nat): nat {
    (target + 3) * (timeout + 3)
  }

  lemma MeasureIsNat(p: Position, timeout: nat, target: nat)
    requires p.Running? && Fine(p, timeout, target)
    ensures Measure(p, timeout, target) >= 0
  {
    LeftIsNat(p.wait, p.from);
  }

  lemma FirstMeasure(timeout: nat, target: nat, begin: nat)
    ensures Measure(Running(Start(timeout, begin), None, begin), timeout, target) < RoundLimit(timeout, target)
  {
    FreshTimer(timeout, begin);
    assert (target + 3) * (timeout + 3) == (target + 2) * (timeout + 3) + (timeout + 3);
  }

  lemma FirstLoopEnds(rounds: nat -> Round, timeout: nat, target: nat, begin: nat, n: nat)
    requires AllHonest(rounds, timeout, target, begin)
    ensures n >= RoundLimit(timeout, target) ==> Run(rounds, timeout, target, begin, n).Stopped?
  {
    hide AllHonest, Run, Measure, Fine;
    RunStep(rounds, timeout, target, begin, 0);
    FirstMeasure(timeout, target, begin);
    RunMeasure(rounds, timeout, target, begin, n);
    if Run(rounds, timeout, target, begin, n).Running? {
      MeasureIsNat(Run(rounds, timeout, target, begin, n), timeout, target);
    }
  }

  // ---- what a timeout means

  // A wait that is over has had all its time
  lemma OverMeansFull(w: State, asked: nat)
    requires w.beginTime <= asked && !More(w, asked) && w.sleepTime > 0
    ensures asked - w.beginTime >= w.waitTime
  {
  }

  // A running wait is the one started at the last progress, and every round since reported the same position
  ghost predicate Since(rounds: nat -> Round, p: Position, n: nat, k: nat) {
    && p.Running? && k < n && p.last.Some?
    && p.wait.beginTime == rounds(k).created && p.wait.sleepTime > 0
    && (forall j :: k <= j < n ==> rounds(j).lsn == p.last)
  }

  lemma {:induction false} RunSince(rounds: nat -> Round, timeout: nat, target: nat, begin: nat, n: nat)
    returns (k: nat)
    requires AllHonest(rounds, timeout, target, begin) && n > 0 && timeout >= 10
    requires Run(rounds, timeout, target, begin, n).Running?
    ensures Since(rounds, Run(rounds, timeout, target, begin, n), n, k)
    decreases n
  {
    hide Measure, Left, AllHonest, Run;
    var p := Run(rounds, timeout, target, begin, n - 1);
    var r := rounds(n - 1);
    HonestAt(rounds, timeout, target, begin, n - 1);
    RunStep(rounds, timeout, target, begin, n - 1);
    RunStep(rounds, timeout, target, begin, 0);
    StaysStopped(p, r, timeout, target);
    RunMeasure(rounds, timeout, target, begin, n - 1);
    if Progress(p.last, r.lsn.value) {
      k := n - 1;
    } else {
      k := RunSince(rounds, timeout, target, begin, n - 1);
    }
  }

  // The loop gives up only after a full timeout in which the standby did not move
  lemma TimedOutAfterFull(rounds: nat -> Round, timeout: nat, target: nat, begin: nat, n: nat) returns (k: nat)
    requires AllHonest(rounds, timeout, target, begin) && timeout >= 10
    requires Run(rounds, timeout, target, begin, n).Running?
    requires Run(rounds, timeout, target, begin, n + 1).Stopped?
    requires Run(rounds, timeout, target, begin, n + 1).outcome.TimedOut?
    ensures var lsn := Run(rounds, timeout, target, begin, n + 1).outcome.lsn;
            && lsn <= target && k <= n
            && (forall j :: k <= j <= n ==> rounds(j).lsn == Some(lsn))
            && rounds(n).asked - rounds(k).created >= timeout
  {
    hide Measure, Left, AllHonest, Run;
    var p := Run(rounds, timeout, target, begin, n);
    var r := rounds(n);
    HonestAt(rounds, timeout, target, begin, n);
    RunStep(rounds, timeout, target, begin, n);
    RunStep(rounds, timeout, target, begin, 0);
    RunMeasure(rounds, timeout, target, begin, n);
    var w := Timer(p, r, timeout, r.lsn.value);
    if n == 0 || Progress(p.last, r.lsn.value) {
      k := n;
      OverMeansFull(w, r.asked);
    } else {
      k := RunSince(rounds, timeout, target, begin, n);
      OverMeansFull(w, r.asked);
    }
  }

  // ---- a standby that meets the hypotheses

  // One position more in every round, and a timeout between rounds
  function Steady(timeout: nat): nat -> Round {
    (n: nat) => Round(Some(n), n * timeout, n * timeout)
  }

  // Where the loop is then: every round starts the timer again
  ghost predicate SteadyAt(p: Position, timeout: nat, target: nat, n: nat) {
    if n > target + 1 then p == Stopped(Reached(target + 1))
    else
      && p.Running? && p.wait.beginTime <= p.from <= n * timeout
      && p.last == if n == 0 then None else Some(n - 1)
  }

  lemma SteadyStep(p: Position, timeout: nat, target: nat, n: nat)
    requires timeout >= 10 && timeout < UINT64 && SteadyAt(p, timeout, target, n)
    ensures Honest(p, Steady(timeout)(n), timeout)
    ensures SteadyAt(Advance(p, Steady(timeout)(n), timeout, target), timeout, target, n + 1)
  {
    if n <= target {
      var w := Start(timeout, n * timeout);
      ElapsedIs(n * timeout, n * timeout);
      assert Slept(w, n * timeout) <= timeout;
      assert (n + 1) * timeout == n * timeout + timeout;
    }
  }

  // The hypotheses can be met, by a run that takes longer than its timeout and reaches its target
  lemma {:induction false} SteadyRun(timeout: nat, target: nat, n: nat)
    requires timeout >= 10 && timeout < UINT64
    ensures SteadyAt(Run(Steady(timeout), timeout, target, 0, n), timeout, target, n)
    ensures Honest(Run(Steady(timeout), timeout, target, 0, n), Steady(timeout)(n), timeout)
    decreases n
  {
    hide Advance, Honest, SteadyAt;
    SteadyStart(timeout, target);
    RunStep(Steady(timeout), timeout, target, 0, if n > 0 then n - 1 else 0);
    if n > 0 {
      SteadyRun(timeout, target, n - 1);
      SteadyStep(Run(Steady(timeout), timeout, target, 0, n - 1), timeout, target, n - 1);
    }
    SteadyStep(Run(Steady(timeout), timeout, target, 0, n), timeout, target, n);
  }

  lemma SteadyStart(timeout: nat, target: nat)
    ensures SteadyAt(Running(Start(timeout, 0), None, 0), timeout, target, 0)
  {
  }

  lemma SteadyReaches(timeout: nat, target: nat)
    requires timeout >= 10 && timeout < UINT64
    ensures AllHonest(Steady(timeout), timeout, target, 0)
    ensures Run(Steady(timeout), timeout, target, 0, target + 2) == Stopped(Reached(target + 1))
  {
    hide Honest, Run;
    forall n: nat
      ensures Honest(Run(Steady(timeout), timeout, target, 0, n), Steady(timeout)(n), timeout)
    {
      SteadyRun(timeout, target, n);
    }
    SteadyRun(timeout, target, target + 2);
  }

  // ---- the loops

  // The first loop of dbReplayWait: it ends where Run ends, after n rounds that went on and one that did not
  method WaitForReplay(rounds: nat -> Round, timeout: nat, target: nat, begin: nat) returns (outcome: Outcome, n: nat)
    requires timeout <= 999999000
    requires AllHonest(rounds, timeout, target, begin)
    ensures Run(rounds, timeout, target, begin, n).Running?
    ensures Run(rounds, timeout, target, begin, n + 1) == Stopped(outcome)
    ensures n < RoundLimit(timeout, target)
  {
    hide AllHonest, Run, Remains, Honest, Measure, RoundLimit;
    var wait := new Wait(timeout, begin);
    var targetReached := false;
    var replayLsn: Option<nat> := None;
    var i: nat, from: nat := 0, begin;
    var more := true;
    RunStep(rounds, timeout, target, begin, 0);
    while more
      invariant fresh(wait)
      invariant more ==> Run(rounds, timeout, target, begin, i) == Running(wait.Value(), replayLsn, from)
      invariant !more ==> replayLsn.Some? && i > 0 && i - 1 < RoundLimit(timeout, target)
      invariant !more ==> Run(rounds, timeout, target, begin, i - 1).Running?
      invariant !more ==> Run(rounds, timeout, target, begin, i) == Stopped(Verdict(targetReached, replayLsn.value))
      decreases more, RoundLimit(timeout, target) - i
    {
      FirstLoopEnds(rounds, timeout, target, begin, i);
      RunStep(rounds, timeout, target, begin, i);
      var r := rounds(i);
      if r.lsn.None? {
        return NotStandby, i;
      }
      targetReached := r.lsn.value > target;
      if !targetReached && Progress(replayLsn, r.lsn.value) {
        wait := new Wait(timeout, r.created);
      }
      replayLsn := r.lsn;
      more := false;
      if !targetReached {
        var slept;
        more, slept := wait.WaitMore(r.asked);
        from := r.asked + slept;
      }
      i := i + 1;
    }
    n := i - 1;
    outcome := Verdict(targetReached, replayLsn.value);
  }

  function Verdict(targetReached: bool, lsn: nat): Outcome {
    if targetReached then Reached(lsn) else TimedOut(lsn)
  }

  // ---- the loop after the checkpoint, which never starts its timer again

  // The checkpoint position reported, and the time when more waiting is asked for
  datatype Check = Check(lsn: nat, asked: nat)

  datatype CheckPosition = Checking(wait: State, from: nat) | Checked(reached: bool)

  function AdvanceCheck(p: CheckPosition, c: Check, target: nat): CheckPosition {
    if p.Checked? then p
    else if c.lsn >= target then Checked(true)
    else if More(p.wait, c.asked) then Checking(Remains(p.wait, c.asked).1, c.asked + Slept(p.wait, c.asked))
    else Checked(false)
  }

  function RunChecks(checks: nat -> Check, timeout: nat, target: nat, begin: nat, n: nat): CheckPosition {
    if n == 0 then Checking(Start(timeout, begin), begin)
    else AdvanceCheck(RunChecks(checks, timeout, target, begin, n - 1), checks(n - 1), target)
  }

  predicate HonestCheck(p: CheckPosition, c: Check) {
    p.Checking? ==> p.from <= c.asked < p.wait.beginTime + UINT64
  }

  ghost predicate AllHonestChecks(checks: nat -> Check, timeout: nat, target: nat, begin: nat) {
    forall n: nat :: HonestCheck(RunChecks(checks, timeout, target, begin, n), checks(n))
  }

  lemma HonestCheckAt(checks: nat -> Check, timeout: nat, target: nat, begin: nat, n: nat)
    requires AllHonestChecks(checks, timeout, target, begin)
    ensures HonestCheck(RunChecks(checks, timeout, target, begin, n), checks(n))
  {
    hide RunChecks, HonestCheck;
  }

  lemma CheckStep(checks: nat -> Check, timeout: nat, target: nat, begin: nat, n: nat)
    ensures RunChecks(checks, timeout, target, begin, n + 1)
         == AdvanceCheck(RunChecks(checks, timeout, target, begin, n), checks(n), target)
    ensures RunChecks(checks, timeout, target, begin, 0) == Checking(Start(timeout, begin), begin)
  {
    hide AdvanceCheck;
  }

  lemma {:induction false} ChecksUse(checks: nat -> Check, timeout: nat, target: nat, begin: nat, n: nat)
    requires AllHonestChecks(checks, timeout, target, begin)
    ensures var p := RunChecks(checks, timeout, target, begin, n);
            p.Checking? ==>
              && p.wait.waitTime == timeout && p.wait.beginTime == begin <= p.from
              && n + Left(p.wait, p.from) + p.wait.retry <= timeout + 2
              && (timeout >= 10 ==> p.wait.sleepTime > 0)
    decreases n
  {
    hide AllHonestChecks, RunChecks, Left;
    CheckStep(checks, timeout, target, begin, if n > 0 then n - 1 else 0);
    if n == 0 {
      FreshTimer(timeout, begin);
    } else {
      var p := RunChecks(checks, timeout, target, begin, n - 1);
      ChecksUse(checks, timeout, target, begin, n - 1);
      HonestCheckAt(checks, timeout, target, begin, n - 1);
      if RunChecks(checks, timeout, target, begin, n).Checking? {
        CallUses(p.wait, checks(n - 1).asked, p.from);
      }
    }
  }

  // The loop over the checkpoint position gives up only after its whole timeout
  method WaitForCheckpoint(checks: nat -> Check, timeout: nat, target: nat, begin: nat)
    returns (targetReached: bool, n: nat)
    requires timeout <= 999999000
    requires AllHonestChecks(checks, timeout, target, begin)
    ensures n <= timeout + 2 && (forall k: nat :: k < n ==> checks(k).lsn < target)
    ensures RunChecks(checks, timeout, target, begin, n + 1) == Checked(targetReached)
    ensures targetReached <==> checks(n).lsn >= target
    ensures !targetReached && timeout >= 10 ==> checks(n).asked - begin >= timeout
  {
    hide AllHonestChecks, RunChecks, Remains, Left;
    var wait := new Wait(timeout, begin);
    targetReached := false;
    var i: nat, from: nat := 0, begin;
    var more := true;
    CheckStep(checks, timeout, target, begin, 0);
    while more
      invariant fresh(wait)
      invariant more ==> !targetReached
      invariant more ==> RunChecks(checks, timeout, target, begin, i) == Checking(wait.Value(), from)
      invariant !more ==> RunChecks(checks, timeout, target, begin, i) == Checked(targetReached)
      invariant forall k: nat :: k < i && !(targetReached && k == i - 1) ==> checks(k).lsn < target
      invariant !more ==> 0 < i <= timeout + 3 && (targetReached <==> checks(i - 1).lsn >= target)
      invariant !more && !targetReached && timeout >= 10 ==> checks(i - 1).asked - begin >= timeout
      decreases more, timeout + 3 - i
    {
      ChecksUse(checks, timeout, target, begin, i);
      LeftIsNat(wait.Value(), from);
      HonestCheckAt(checks, timeout, target, begin, i);
      CheckStep(checks, timeout, target, begin, i);
      var c := checks(i);
      targetReached := c.lsn >= target;
      more := false;
      if !targetReached {
        ghost var w := wait.Value();
        var slept;
        more, slept := wait.WaitMore(c.asked);
        if !more && timeout >= 10 {
          OverMeansFull(w, c.asked);
        }
        from := c.asked + slept;
      }
      i := i + 1;
    }
    n := i - 1;
  }

  // ---- the whole

  lemma {:induction false} RunStays(rounds: nat -> Round, timeout: nat, target: nat, begin: nat, n: nat, m: nat)
    requires n <= m && Run(rounds, timeout, target, begin, n).Stopped?
    ensures Run(rounds, timeout, target, begin, m) == Run(rounds, timeout, target, begin, n)
    decreases m
  {
    hide Advance, Run;
    if n < m {
      RunStays(rounds, timeout, target, begin, n, m - 1);
      RunStep(rounds, timeout, target, begin, m - 1);
      StaysStopped(Run(rounds, timeout, target, begin, m - 1), rounds(m - 1), timeout, target);
    }
  }

  lemma {:induction false} ChecksStay(checks: nat -> Check, timeout: nat, target: nat, begin: nat, n: nat, m: nat)
    requires n <= m && RunChecks(checks, timeout, target, begin, n).Checked?
    ensures RunChecks(checks, timeout, target, begin, m) == RunChecks(checks, timeout, target, begin, n)
    decreases m
  {
    hide RunChecks;
    if n < m {
      ChecksStay(checks, timeout, target, begin, n, m - 1);
      CheckStep(checks, timeout, target, begin, m - 1);
    }
  }

  // In some round the target was replayed
  ghost predicate Replayed(rounds: nat -> Round, timeout: nat, target: nat, begin: nat) {
    exists m: nat, lsn: nat :: Run(rounds, timeout, target, begin, m) == Stopped(Reached(lsn))
  }

  // In some round the checkpoint was at the target
  ghost predicate Checkpointed(checks: nat -> Check, timeout: nat, target: nat, begin: nat) {
    exists m: nat :: RunChecks(checks, timeout, target, begin, m) == Checked(true)
  }

  lemma ReplayedIs(rounds: nat -> Round, timeout: nat, target: nat, begin: nat, n: nat, outcome: Outcome)
    requires Run(rounds, timeout, target, begin, n) == Stopped(outcome)
    ensures Replayed(rounds, timeout, target, begin) <==> outcome.Reached?
  {
    hide Run;
    if outcome.Reached? {
      assert Run(rounds, timeout, target, begin, n) == Stopped(Reached(outcome.lsn));
    }
    if Replayed(rounds, timeout, target, begin) {
      var m: nat, lsn: nat :| Run(rounds, timeout, target, begin, m) == Stopped(Reached(lsn));
      RunStays(rounds, timeout, target, begin, n, if n < m then m else n);
      RunStays(rounds, timeout, target, begin, m, if n < m then m else n);
    }
  }

  lemma CheckpointedIs(checks: nat -> Check, timeout: nat, target: nat, begin: nat, n: nat, reached: bool)
    requires RunChecks(checks, timeout, target, begin, n) == Checked(reached)
    ensures Checkpointed(checks, timeout, target, begin) <==> reached
  {
    hide RunChecks;
    if Checkpointed(checks, timeout, target, begin) {
      var m: nat :| RunChecks(checks, timeout, target, begin, m) == Checked(true);
      ChecksStay(checks, timeout, target, begin, n, if n < m then m else n);
      ChecksStay(checks, timeout, target, begin, m, if n < m then m else n);
    }
  }

  // The standby was no longer one, or reported the same position from some round on for a full timeout up to round n
  ghost predicate GaveUp(rounds: nat -> Round, timeout: nat, target: nat, n: nat, outcome: Outcome) {
    match outcome
    case Reached(_) => false
    case NotStandby => rounds(n).lsn == None
    case TimedOut(lsn) =>
      && lsn <= target && rounds(n).lsn == Some(lsn)
      && (timeout >= 10 ==>
            exists k: nat :: k <= n && Unmoved(rounds, k, n) && rounds(n).asked - rounds(k).created >= timeout)
  }

  ghost predicate Unmoved(rounds: nat -> Round, k: nat, n: nat) {
    forall j: nat :: k <= j <= n ==> rounds(j).lsn == rounds(n).lsn
  }

  lemma GaveUpIs(rounds: nat -> Round, timeout: nat, target: nat, begin: nat, n: nat, outcome: Outcome)
    requires AllHonest(rounds, timeout, target, begin) && !outcome.Reached?
    requires Run(rounds, timeout, target, begin, n).Running?
    requires Run(rounds, timeout, target, begin, n + 1) == Stopped(outcome)
    ensures GaveUp(rounds, timeout, target, n, outcome)
  {
    hide AllHonest, Run;
    RunStep(rounds, timeout, target, begin, n);
    if outcome.TimedOut? && timeout >= 10 {
      var k := TimedOutAfterFull(rounds, timeout, target, begin, n);
      assert Unmoved(rounds, k, n);
    }
  }

  // Every report up to check k was below the target, and the whole timeout went by
  ghost predicate NeverThere(checks: nat -> Check, timeout: nat, target: nat, begin: nat, k: nat) {
    && k <= timeout + 2 && (forall j: nat :: j <= k ==> checks(j).lsn < target)
    && (timeout >= 10 ==> checks(k).asked - begin >= timeout)
  }

  datatype Result = Ready | StandbyAhead | NoReplay(outcome: Outcome) | CheckpointTimeout | WrongTimeline

  // dbReplayWait: checkpoint is the position of the standby before the backup, verified says whether PostgreSQL can
  // report the position of a checkpoint, and timeline is the one read again at the end
  method ReplayWait(
    checkpoint: nat, target: nat, timeout: nat, rounds: nat -> Round, begin: nat,
    verified: bool, checks: nat -> Check, checkBegin: nat, timeline: nat, targetTimeline: nat) returns (r: Result)
    requires 0 < timeout <= 999999000
    requires AllHonest(rounds, timeout, target, begin) && AllHonestChecks(checks, timeout, target, checkBegin)
    ensures r == StandbyAhead <==> checkpoint > target
    ensures r.NoReplay? <==> checkpoint <= target && !Replayed(rounds, timeout, target, begin)
    ensures r.NoReplay? ==> exists n: nat ::
              n < RoundLimit(timeout, target) && GaveUp(rounds, timeout, target, n, r.outcome)
    ensures r == CheckpointTimeout <==>
              && checkpoint <= target && Replayed(rounds, timeout, target, begin)
              && verified && !Checkpointed(checks, timeout, target, checkBegin)
    ensures r == CheckpointTimeout ==> exists k: nat :: NeverThere(checks, timeout, target, checkBegin, k)
    ensures r in {Ready, WrongTimeline} <==>
              && checkpoint <= target && Replayed(rounds, timeout, target, begin)
              && (verified ==> Checkpointed(checks, timeout, target, checkBegin))
    ensures r in {Ready, WrongTimeline} ==> (r == Ready <==> timeline == targetTimeline)
    ensures r == Ready ==> exists n: nat :: rounds(n).lsn.Some? && rounds(n).lsn.value > target
    ensures r == Ready && verified ==> exists n: nat :: checks(n).lsn >= target
  {
    hide AllHonest, AllHonestChecks, Run, RunChecks, RoundLimit, Replayed, Checkpointed;
    if checkpoint > target {
      return StandbyAhead;
    }
    var outcome, n := WaitForReplay(rounds, timeout, target, begin);
    ReplayedIs(rounds, timeout, target, begin, n + 1, outcome);
    if !outcome.Reached? {
      GaveUpIs(rounds, timeout, target, begin, n, outcome);
      return NoReplay(outcome);
    }
    RunStep(rounds, timeout, target, begin, n);
    assert rounds(n).lsn.Some? && rounds(n).lsn.value > target;
    if verified {
      var targetReached, k := WaitForCheckpoint(checks, timeout, target, checkBegin);
      CheckpointedIs(checks, timeout, target, checkBegin, k + 1, targetReached);
      assert targetReached <==> checks(k).lsn >= target;
      if !targetReached {
        assert NeverThere(checks, timeout, target, checkBegin, k);
        return CheckpointTimeout;
      }
    }
    if timeline != targetTimeline {
      return WrongTimeline;
    }
    return Ready;
  }
}
