// Programs written with the block macros of the memory context and error headers.
//
// The macros open and close in pairs, so such a program can be read as a tree. `Exec` runs it by the operations each
// macro expands to. What it proves is that this discipline is all the caller has to keep: every operation a block
// program performs is an allowed step of `MemRun`, however the errors fall.
module MemBlocks {
  import opened MemTree
  import opened MemStack
  import opened MemRun

  datatype Block =
    | Skip
    | Then(first: Block, second: Block)
    // MEM_CONTEXT_BEGIN(c) .. MEM_CONTEXT_END()
    | Within(c: nat, body: Block)
    // MEM_CONTEXT_PRIOR_BEGIN() .. MEM_CONTEXT_PRIOR_END()
    | WithinPrior(body: Block)
    // MEM_CONTEXT_NEW_BEGIN() .. MEM_CONTEXT_NEW_END()
    | NewKept(body: Block)
    // MEM_CONTEXT_TEMP_BEGIN() .. MEM_CONTEXT_TEMP_END()
    | Temp(body: Block)
    // .. MEM_CONTEXT_TEMP_RESET() replacing the context in between
    | TempReset(first: Block, second: Block)
    // memContextMove(c, memContextPrior())
    | MoveToPrior(c: nat)
    | Throw(fatal: bool)
    // TRY_BEGIN() .. CATCH_ANY() or CATCH_FATAL() .. TRY_END()
    | Try(body: Block, catchFatal: bool, handler: Block)
    // TRY_BEGIN() .. FINALLY() .. TRY_END()
    | TryFinally(body: Block, cleanup: Block)

  // `Stuck`: the program named a context that is not there, asked for a prior context outside all blocks, or moved a
  // context that is still in use.
  datatype Outcome = Normal | Error(fatal: bool) | Stuck

  // Contexts are numbered in order of creation.
  datatype State = State(run: Run<nat>, next: nat)

  datatype Result = Result(outcome: Outcome, s: State)

  ghost predicate Ready(s: State) {
    Inv(s.run) && forall c :: c in s.run.m.tree.Live() ==> c < s.next
  }

  // A clean of a greater depth than the current one stops above the first `guard` entries.
  ghost predicate Guards(s: State, guard: nat) {
    0 < guard <= |s.run.m.entries| && s.run.m.entries[guard - 1].tryDepth <= |s.run.open|
  }

  // What a block finds on the stack and nothing inside it can clean. An error that left an inner try block may have
  // left entries of a greater depth at the end of the stack; those are not among them.
  ghost function Guarded(s: State): (n: nat)
    requires Ready(s)
    ensures Guards(s, n)
  {
    CleanTo(s.run.m.entries, |s.run.open| + 1)
  }

  // The try blocks open before are the ones open now, and of the entries the first `n` are still there.
  ghost predicate LeftAt(s: State, s': State, n: nat) {
    && n <= |s.run.m.entries|
    && s'.run.open == Cut(s.run.open, n)
    && s.run.m.entries[..n] <= s'.run.m.entries
  }

  // A block that ends normally leaves the stack and the try blocks as it found them, less what a catch has cleaned,
  // which is never one of the first `guard` entries; one that ends by an error leaves them below whatever is still
  // there to clean up.
  ghost predicate BalancedTo(s: State, r: Result, guard: nat) {
    && Ready(r.s) && s.next <= r.s.next
    && match r.outcome
       case Normal => guard <= |r.s.run.m.entries| && LeftAt(s, r.s, |r.s.run.m.entries|)
       case Error(_) => exists n {:trigger LeftAt(s, r.s, n)} :: guard <= n && LeftAt(s, r.s, n)
       case Stuck => true
  }

  ghost predicate Balanced(s: State, r: Result)
    requires Ready(s)
  {
    BalancedTo(s, r, Guarded(s))
  }

  // Nothing was left behind by an error. This is how a program starts, and what the body of every block finds.
  ghost predicate Clear(s: State)
    requires Ready(s)
  {
    Last(s.run.m).tryDepth <= |s.run.open|
  }

  ghost predicate SameStack(s: State, s': State) {
    && s'.run.open == s.run.open
    && s'.run.m.entries == s.run.m.entries
    && s'.run.m.current == s.run.m.current
    && s'.run.m.tryDepth == s.run.m.tryDepth
  }

  ghost function Do(s: State, step: Step<nat>): (s': State)
    requires Ready(s) && Enabled(s.run, step)
    requires step.Create? ==> step.c == s.next
    ensures Ready(s') && s.next <= s'.next
  {
    ApplyInv(s.run, step);
    ApplyLive(s.run, step);
    State(Apply(s.run, step), if step.Create? then s.next + 1 else s.next)
  }

  lemma ApplyLive<C>(r: Run<C>, step: Step<C>)
    requires Inv(r) && Enabled(r, step)
    ensures Apply(r, step).m.tree.Live() <= r.m.tree.Live() + (if step.Create? then {step.c} else {})
  {
    match step
    case Create(c) => NewSafe(r.m, c);
    case Discard => DiscardSafe(r.m);
    case Free(c) => FreeSafe(r.m, c);
    case Move(c, p) => MoveSafe(r.m, c, p);
    case Catch(depth, fatal) => CleanOnlyFrees(r.m, depth, fatal);
    case _ =>
  }

  // The context that `memContextPrior()` gives.
  ghost function Prior<C>(m: Machine<C>): (c: C)
    requires Safe(m) && m.current > 0
    ensures c in m.tree.Live()
  {
    m.entries[SwitchAt(m.entries, m.current - 1)].context
  }

  // No entry of the stack lies below the context.
  ghost predicate Unused<C>(m: Machine<C>, c: C)
    requires Safe(m)
  {
    forall k {:trigger m.entries[k]} :: 0 <= k < |m.entries| ==> !Below(m.tree, c, m.entries[k].context)
  }

  // Such a context may be moved under any context the stack names.
  lemma MoveUnused<C>(m: Machine<C>, c: C, i: nat)
    requires Safe(m) && c in m.tree.parent && i < |m.entries| && Unused(m, c)
    ensures MoveAllowed(m, c, m.entries[i].context)
  {
  }

  // ----- how blocks compose

  lemma CutCut(open: seq<nat>, n: nat, n': nat)
    ensures Cut(Cut(open, n), n') == Cut(open, Min(n, n'))
  {
  }

  lemma CutNone(s: State, n: nat)
    requires Ready(s) && |s.run.m.entries| <= n
    ensures Cut(s.run.open, n) == s.run.open
  {
  }

  lemma LeftSelf(s: State)
    requires Ready(s)
    ensures LeftAt(s, s, |s.run.m.entries|)
  {
    CutNone(s, |s.run.m.entries|);
    assert s.run.m.entries[..|s.run.m.entries|] == s.run.m.entries;
  }

  lemma LeftTwice(s: State, s': State, s'': State, n: nat, n': nat)
    requires LeftAt(s, s', n) && LeftAt(s', s'', n')
    ensures LeftAt(s, s'', Min(n, n'))
  {
    CutCut(s.run.open, n, n');
    assert s.run.m.entries[..Min(n, n')] == s'.run.m.entries[..n'][..Min(n, n')];
  }

  lemma GuardedStays(s: State, s': State, n: nat, guard: nat)
    requires Guards(s, guard) && Ready(s') && LeftAt(s, s', n) && guard <= n
    ensures guard <= Guarded(s')
  {
    assert s'.run.m.entries[guard - 1] == s.run.m.entries[..n][guard - 1] == s.run.m.entries[guard - 1];
  }

  // When nothing was left behind, everything is guarded.
  lemma LeftClear(s: State, s': State)
    requires Ready(s) && Ready(s') && Clear(s) && Guarded(s) <= |s'.run.m.entries| && LeftAt(s, s', |s'.run.m.entries|)
    ensures SameStack(s, s')
  {
    var entries := s.run.m.entries;
    CutNone(s, |entries|);
    assert Guarded(s) == |entries| && entries[..|entries|] == entries;
    PointedUnique(entries, s.run.m.current);
    PointedUnique(s'.run.m.entries, s'.run.m.current);
  }

  lemma SameLeft(s: State, s': State)
    requires Ready(s) && SameStack(s, s')
    ensures LeftAt(s, s', |s'.run.m.entries|)
  {
    LeftSelf(s);
  }

  // ----- the macros

  // What a block pushes lies above the floor of the enclosing try block, so it may be popped again.
  lemma PushedAboveFloor<C>(r: Run<C>, e: Entry<C>)
    requires Inv(r)
    ensures Floor(r) <= |r.m.entries|
  {
  }

  // Nothing is left behind at the end of the stack once a block has pushed an entry of its own.
  lemma PushedClear(s: State, step: Step<nat>)
    requires Ready(s) && Enabled(s.run, step) && (step == Create(s.next) || step.SwitchTo?)
    ensures Clear(Do(s, step)) && Do(s, step).run.open == s.run.open
    ensures |Do(s, step).run.m.entries| == |s.run.m.entries| + 1 && s.run.m.entries <= Do(s, step).run.m.entries
  {
  }

  // An error in a block leaves what the block found.
  lemma LeftInside(s: State, step: Step<nat>, s': State, n: nat)
    requires Ready(s) && Enabled(s.run, step) && (step == Create(s.next) || step.SwitchTo?)
    requires Ready(s') && LeftAt(Do(s, step), s', n) && Guarded(Do(s, step)) <= n
    ensures LeftAt(s, s', |s.run.m.entries|)
  {
    PushedClear(s, step);
    var inside := Do(s, step);
    assert n == |inside.run.m.entries|;
    CutNone(s, |s.run.m.entries|);
    CutNone(inside, n);
    assert inside.run.m.entries[..n] == inside.run.m.entries && s.run.m.entries[..|s.run.m.entries|] == s.run.m.entries;
  }

  // Leave the context of a block: `memContextSwitchBack()`.
  lemma LeaveSwitch(s: State, c: nat, after: State)
    requires Ready(s) && c in s.run.m.tree.Live()
    requires Ready(after) && SameStack(Do(s, SwitchTo(c)), after)
    ensures Enabled(after.run, SwitchBack)
    ensures SameStack(s, Do(after, SwitchBack))
  {
    PushedAboveFloor(s.run, Entry(c, Kind.Switch, s.run.m.tryDepth));
    PointedUnique(s.run.m.entries, s.run.m.current);
    SwitchAtPrefix(s.run.m.entries, after.run.m.entries, |s.run.m.entries| - 1);
    assert after.run.m.entries[..|s.run.m.entries|] == s.run.m.entries;
  }

  lemma SwitchAtPrefix<C>(a: seq<Entry<C>>, b: seq<Entry<C>>, i: nat)
    requires i < |a| && a <= b && a[0].kind.Switch?
    ensures SwitchAt(a, i) == SwitchAt(b, i)
  {
  }

  // Close a new context that has been left: keep or discard it.
  lemma LeaveNew(s: State, after: State, closing: Step<nat>)
    requires Ready(s) && (closing == Keep || closing == Discard)
    requires Ready(after) && SameStack(Do(s, Create(s.next)), after)
    ensures Enabled(after.run, closing)
    ensures SameStack(s, Do(after, closing))
    ensures closing == Discard ==> s.next !in Do(after, closing).run.m.tree.Live()
  {
    if closing == Discard {
      DiscardTakes(after.run, closing);
    }
    PushedAboveFloor(s.run, Entry(s.next, Kind.New, s.run.m.tryDepth));
    assert after.run.m.entries[..|s.run.m.entries|] == s.run.m.entries;
  }

  lemma DiscardTakes<C>(r: Run<C>, closing: Step<C>)
    requires Inv(r) && Last(r.m).kind.New? && closing == Discard
    ensures Last(r.m).context !in DoDiscard(r.m).tree.Live()
  {
    DiscardSafe(r.m);
  }

  // Leave a try block, at its end or by an error.
  lemma LeaveTry(s: State, after: State, n: nat, step: Step<nat>)
    requires Ready(s) && Ready(after) && LeftAt(Do(s, TryBegin), after, n)
    requires step == TryLeave || (step == TryEnd && n == |after.run.m.entries|)
    ensures Enabled(after.run, step) && LeftAt(s, Do(after, step), n)
    ensures Do(after, step).run.m.entries == after.run.m.entries
  {
    var begun := Do(s, TryBegin);
    GuardedBegun(s);
    assert after.run.open[|s.run.open|] == Min(begun.run.open[|s.run.open|], n);
    assert Cut(begun.run.open, n)[..|s.run.open|] == Cut(s.run.open, n);
  }

  lemma GuardedBegun(s: State)
    requires Ready(s)
    ensures Do(s, TryBegin).run.open == s.run.open + [|s.run.m.entries|]
    ensures Do(s, TryBegin).run.m.entries == s.run.m.entries
    ensures Guarded(s) <= Guarded(Do(s, TryBegin)) && Guards(Do(s, TryBegin), Guarded(s))
  {
  }

  // `MEM_CONTEXT_BEGIN(c)` around a body.
  ghost function InContext(s: State, c: nat, body: Block): (r: Result)
    requires Ready(s)
    ensures Balanced(s, r)
    ensures r.outcome.Normal? ==> SameStack(s, r.s)
    decreases body, 2
  {
    if c !in s.run.m.tree.Live() then Result(Stuck, s)
    else
      var inside := Do(s, SwitchTo(c));
      var r := Exec(inside, body);
      PushedClear(s, SwitchTo(c));
      if r.outcome.Normal? then
        LeftClear(inside, r.s);
        LeaveSwitch(s, c, r.s);
        SameLeft(s, Do(r.s, SwitchBack));
        Result(Normal, Do(r.s, SwitchBack))
      else
        ContextLeft(s, SwitchTo(c), r);
        r
  }

  lemma ContextLeft(s: State, step: Step<nat>, r: Result)
    requires Ready(s) && Enabled(s.run, step) && (step == Create(s.next) || step.SwitchTo?)
    requires Balanced(Do(s, step), r) && !r.outcome.Normal?
    ensures Balanced(s, r)
  {
    if r.outcome.Error? {
      var n :| LeftAt(Do(s, step), r.s, n) && Guarded(Do(s, step)) <= n;
      LeftInside(s, step, r.s, n);
    }
  }

  // A new context made current around a body, then kept or discarded. A temporary context is gone when its block ends.
  ghost function InNew(s: State, body: Block, closing: Step<nat>): (r: Result)
    requires Ready(s) && (closing == Keep || closing == Discard)
    ensures Balanced(s, r)
    ensures r.outcome.Normal? ==> SameStack(s, r.s)
    ensures r.outcome.Normal? && closing == Discard ==> s.next !in r.s.run.m.tree.Live()
    decreases body, 3
  {
    var created := Do(s, Create(s.next));
    var r := InContext(created, s.next, body);
    if r.outcome.Normal? then
      LeaveNew(s, r.s, closing);
      SameLeft(s, Do(r.s, closing));
      Result(Normal, Do(r.s, closing))
    else
      ContextLeft(s, Create(s.next), r);
      r
  }

  // The end of a try block: an error that is still on its way leaves it.
  ghost function EndTry(s: State, r: Result): (r': Result)
    requires Ready(s) && BalancedTo(Do(s, TryBegin), r, Guarded(s))
    ensures Balanced(s, r') && r'.outcome == r.outcome
  {
    match r.outcome
    case Normal =>
      LeaveTry(s, r.s, |r.s.run.m.entries|, TryEnd);
      Result(Normal, Do(r.s, TryEnd))
    case Error(_) =>
      var n :| LeftAt(Do(s, TryBegin), r.s, n) && Guarded(s) <= n;
      LeaveTry(s, r.s, n, TryLeave);
      Result(r.outcome, Do(r.s, TryLeave))
    case Stuck => r
  }

  // `CATCH_ANY()` cleans up and frees, then lets a fatal error go on; `CATCH_FATAL()` takes every error but frees
  // nothing.
  ghost function InTry(s: State, body: Block, catchFatal: bool, handler: Block): (r: Result)
    requires Ready(s)
    ensures Balanced(s, r)
    decreases Try(body, catchFatal, handler), 0
  {
    var begun := Do(s, TryBegin);
    var r := Exec(begun, body);
    GuardedBegun(s);
    if !r.outcome.Error? then EndTry(s, r)
    else
      CatchBalanced(s, r, catchFatal);
      var caught := Result(r.outcome, Do(r.s, Catch(|s.run.open| + 1, catchFatal)));
      if r.outcome.fatal && !catchFatal then EndTry(s, caught)
      else
        var h := Exec(caught.s, handler);
        BalancedTwice(begun, Result(Normal, caught.s), h, Guarded(s));
        EndTry(s, h)
  }

  // `FINALLY()` runs before any clean-up, on whatever the error left on the stack. An error that left try blocks inside
  // has left their depth as well, so what it left on the stack may be of a greater depth than what the block pushes.
  ghost function InFinally(s: State, body: Block, cleanup: Block): (r: Result)
    requires Ready(s)
    ensures Balanced(s, r)
    decreases TryFinally(body, cleanup), 0
  {
    var begun := Do(s, TryBegin);
    var r := Exec(begun, body);
    if r.outcome.Stuck? then r
    else
      var f := Exec(r.s, cleanup);
      GuardedBegun(s);
      BalancedTwice(begun, r, f, Guarded(s));
      EndTry(s, if f.outcome.Normal? then Result(r.outcome, f.s) else f)
  }

  // Running a second block where the first has ended, by an error or not, balances what the first was to balance.
  lemma BalancedTwice(s: State, first: Result, second: Result, guard: nat)
    requires BalancedTo(s, first, guard) && Guards(s, guard) && !first.outcome.Stuck? && Balanced(first.s, second)
    ensures BalancedTo(s, second, guard) || (first.outcome.Error? && second.outcome.Normal?)
    ensures second.outcome.Normal? ==> BalancedTo(s, Result(first.outcome, second.s), guard)
  {
    hide LeftAt, Guards, Ready, Guarded;
    if !second.outcome.Stuck? {
      var n: nat :| LeftAt(s, first.s, n) && guard <= n && (first.outcome.Normal? ==> n == |first.s.run.m.entries|);
      var n': nat :|
        && LeftAt(first.s, second.s, n') && Guarded(first.s) <= n'
        && (second.outcome.Normal? ==> n' == |second.s.run.m.entries|);
      GuardedStays(s, first.s, n, guard);
      LeftTwice(s, first.s, second.s, n, n');
      LeftShort(first.s, second.s, n');
    }
  }

  lemma LeftShort(s: State, s': State, n: nat)
    requires LeftAt(s, s', n)
    ensures n <= |s.run.m.entries| && n <= |s'.run.m.entries|
  {
  }

  lemma Sequel(s: State, first: Result, second: Result)
    requires Ready(s) && Balanced(s, first) && first.outcome.Normal? && Balanced(first.s, second)
    ensures Balanced(s, second)
  {
    hide Guards, Guarded, BalancedTo;
    BalancedTwice(s, first, second, Guarded(s));
  }

  // `memContextMove(c, memContextPrior())`
  ghost function InMove(s: State, c: nat): (r: Result)
    requires Ready(s) && s.run.m.current > 0 && c in s.run.m.tree.parent && Unused(s.run.m, c)
    ensures Balanced(s, r) && r.outcome.Normal?
  {
    MoveUnused(s.run.m, c, SwitchAt(s.run.m.entries, s.run.m.current - 1));
    LeftSelf(s);
    Result(Normal, Do(s, Move(c, Prior(s.run.m))))
  }

  ghost function Exec(s: State, block: Block): (r: Result)
    requires Ready(s)
    ensures Balanced(s, r)
    decreases block, 1
  {
    match block
    case Skip => LeftSelf(s); Result(Normal, s)
    case Then(first, second) =>
      var r := Exec(s, first);
      if r.outcome.Normal? then
        var r' := Exec(r.s, second);
        Sequel(s, r, r');
        r'
      else r
    case Within(c, body) => InContext(s, c, body)
    case WithinPrior(body) =>
      if s.run.m.current == 0 then Result(Stuck, s) else InContext(s, Prior(s.run.m), body)
    case NewKept(body) => InNew(s, body, Keep)
    case Temp(body) => InNew(s, body, Discard)
    case TempReset(first, second) =>
      var r := InNew(s, first, Discard);
      if r.outcome.Normal? then
        var r' := InNew(r.s, second, Discard);
        Sequel(s, r, r');
        r'
      else r
    case MoveToPrior(c) =>
      if s.run.m.current > 0 && c in s.run.m.tree.parent && Unused(s.run.m, c) then InMove(s, c) else Result(Stuck, s)
    case Throw(fatal) => LeftSelf(s); Result(Error(fatal), s)
    case Try(body, catchFatal, handler) => InTry(s, body, catchFatal, handler)
    case TryFinally(body, cleanup) => InFinally(s, body, cleanup)
  }

  // The catch of a try block leaves the guarded part of the stack, and takes all of what the block pushed.
  lemma CatchBalanced(s: State, r: Result, fatal: bool)
    requires Ready(s) && Balanced(Do(s, TryBegin), r) && r.outcome.Error?
    ensures Enabled(r.s.run, Catch(|s.run.open| + 1, fatal))
    ensures var caught := Do(r.s, Catch(|s.run.open| + 1, fatal));
            && |caught.run.m.entries| == Guarded(s)
            && BalancedTo(Do(s, TryBegin), Result(Normal, caught), Guarded(s))
  {
    hide Inv, Guarded, CleanTo;
    var begun := Do(s, TryBegin);
    var n :| LeftAt(begun, r.s, n) && Guarded(begun) <= n;
    GuardedBegun(s);
    CatchLeft(s, r.s, n, fatal);
  }

  lemma DoCatch(s: State, depth: nat, fatal: bool)
    requires Ready(s) && 0 < depth <= |s.run.open|
    ensures Enabled(s.run, Catch(depth, fatal))
    ensures Do(s, Catch(depth, fatal)).run.open == Cut(s.run.open[..depth], CleanTo(s.run.m.entries, depth))
    ensures Do(s, Catch(depth, fatal)).run.m.entries == s.run.m.entries[..CleanTo(s.run.m.entries, depth)]
  {
    CatchRestoresStack(s.run, depth, fatal);
  }

  lemma CatchLeft(s: State, thrown: State, n: nat, fatal: bool)
    requires Ready(s) && Ready(thrown) && LeftAt(Do(s, TryBegin), thrown, n) && Guarded(s) <= n
    ensures Enabled(thrown.run, Catch(|s.run.open| + 1, fatal))
    ensures LeftAt(Do(s, TryBegin), Do(thrown, Catch(|s.run.open| + 1, fatal)), Guarded(s))
    ensures |Do(thrown, Catch(|s.run.open| + 1, fatal)).run.m.entries| == Guarded(s)
  {
    hide Inv, Guarded, CleanTo, Apply, Do;
    var d := |s.run.open| + 1;
    GuardedBegun(s);
    CatchStops(s, thrown, n);
    assert |thrown.run.open| == d && thrown.run.open[..d] == thrown.run.open;
    DoCatch(thrown, d, fatal);
    hide LeftAt;
    LeftCut(Do(s, TryBegin), thrown, Do(thrown, Catch(d, fatal)), n, Guarded(s));
  }

  lemma LeftCut(begun: State, thrown: State, caught: State, n: nat, g: nat)
    requires LeftAt(begun, thrown, n) && g <= n
    requires g <= |thrown.run.m.entries| && caught.run.m.entries == thrown.run.m.entries[..g]
    requires caught.run.open == Cut(thrown.run.open, g)
    ensures LeftAt(begun, caught, g)
  {
    CutCut(begun.run.open, n, g);
    LeftPrefix(begun.run.m.entries, thrown.run.m.entries, n, g);
  }

  lemma LeftPrefix<T>(a: seq<T>, b: seq<T>, n: nat, g: nat)
    requires g <= n <= |a| && a[..n] <= b
    ensures a[..g] == b[..g]
  {
    assert a[..g] == a[..n][..g];
  }

  // It stops there because everything above what the block found is of its depth.
  lemma CatchStops(s: State, thrown: State, n: nat)
    requires Ready(s) && Ready(thrown) && LeftAt(Do(s, TryBegin), thrown, n) && Guarded(s) <= n
    ensures CleanTo(thrown.run.m.entries, |s.run.open| + 1) == Guarded(s)
  {
    var begun := Do(s, TryBegin);
    var d := |s.run.open| + 1;
    GuardedBegun(s);
    assert thrown.run.open[d - 1] == Min(begun.run.open[d - 1], n) == n;
    FloorStops(thrown.run, d, n);
    PrefixStops(s.run.m.entries, thrown.run.m.entries[..n], d);
  }

  lemma FloorStops<C>(r: Run<C>, d: nat, n: nat)
    requires Inv(r) && 0 < d <= |r.open| && r.open[d - 1] == n
    ensures n <= |r.m.entries| && 0 < n && r.m.entries[..n][0].tryDepth == 0
    ensures CleanTo(r.m.entries, d) == CleanTo(r.m.entries[..n], d)
  {
    FloorCleaned(r, d);
  }

  lemma PrefixStops<C>(found: seq<Entry<C>>, left: seq<Entry<C>>, d: nat)
    requires 0 < |found| && found[0].tryDepth < d && left <= found && CleanTo(found, d) <= |left|
    ensures CleanTo(left, d) == CleanTo(found, d)
  {
    CleanToPrefix(found, left, d);
  }

  // ----- what a reader of block code may rely on

  // A block that ends normally leaves no trace but kept contexts.
  lemma BlockLeavesOnlyKept(s: State, block: Block)
    requires Ready(s) && Clear(s) && Exec(s, block).outcome.Normal?
    ensures SameStack(s, Exec(s, block).s)
    ensures forall c :: c in Exec(s, block).s.run.m.tree.Live() && c !in s.run.m.tree.Live() ==>
              c in Exec(s, block).s.run.settled
  {
    var s' := Exec(s, block).s;
    LeftClear(s, s');
    assert s.run.m.entries[0].context == s.run.m.tree.top && s'.run.m.entries[0].context == s'.run.m.tree.top;
    forall c | c in s'.run.m.tree.Live() && c !in s.run.m.tree.Live() ensures c in s'.run.settled {
      assert c in s'.run.m.tree.parent;
      assert Answers(s'.run.m.entries, c) ==> c in s.run.m.tree.Live();
    }
  }
}
