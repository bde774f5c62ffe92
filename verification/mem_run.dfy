// Runs of memory context operations with try blocks begun, closed and left by an error.
module MemRun {
  import opened MemTree
  import opened MemStack

  // `open[i]` is how many entries were on the stack when the try block at depth `i + 1` began, less those a catch has
  // since cleaned. `settled` are the contexts nobody has to free on error any more: kept ones, and those a fatal error
  // left behind on purpose.
  datatype Run<C(==)> = Run(m: Machine<C>, open: seq<nat>, settled: set<C>)

  datatype Step<C> =
    | Create(c: C)
    | SwitchTo(c: C)
    | SwitchBack
    | Keep
    | Discard
    | Free(c: C)
    | Move(c: C, p: C)
    | TryBegin
    | TryEnd
    | TryLeave
    | Catch(depth: nat, fatal: bool)

  // The first entry the innermost try block may pop.
  ghost function Floor<C>(r: Run<C>): nat {
    if r.open == [] then 1 else r.open[|r.open| - 1]
  }

  // What the source asks of the caller: a try body pops only what it pushed and is balanced when it ends normally;
  // contexts named on the stack are neither freed directly nor moved under a context that is still to be discarded.
  // `TryLeave` is an error that no catch block took: the try block is gone, and what it pushed is not.
  ghost predicate Enabled<C>(r: Run<C>, step: Step<C>)
    requires Safe(r.m)
  {
    match step
    case Create(c) => c !in r.m.tree.Live()
    case SwitchTo(c) => c in r.m.tree.Live()
    case SwitchBack => |r.m.entries| > Floor(r) && Last(r.m).kind.Switch?
    case Keep => |r.m.entries| > Floor(r) && Last(r.m).kind.New?
    case Discard => |r.m.entries| > Floor(r) && Last(r.m).kind.New?
    case Free(c) =>
      && c in r.m.tree.parent
      && forall k {:trigger r.m.entries[k]} :: 0 <= k < |r.m.entries| ==> !Below(r.m.tree, c, r.m.entries[k].context)
    case Move(c, p) => c in r.m.tree.parent && p in r.m.tree.Live() && MoveAllowed(r.m, c, p)
    case TryBegin => true
    case TryEnd => 0 < |r.open| && |r.m.entries| == Floor(r)
    case TryLeave => 0 < |r.open|
    case Catch(depth, _) => 0 < depth <= |r.open|
  }

  ghost function Apply<C>(r: Run<C>, step: Step<C>): Run<C>
    requires Safe(r.m) && Enabled(r, step) && Nested(r)
  {
    match step
    case Create(c) => r.(m := DoNew(r.m, c), settled := r.settled - {c})
    case SwitchTo(c) => r.(m := DoSwitch(r.m, c))
    case SwitchBack => SwitchBackSafe(r.m); r.(m := DoSwitchBack(r.m))
    case Keep => r.(m := DoKeep(r.m), settled := r.settled + {Last(r.m).context})
    case Discard => r.(m := DoDiscard(r.m))
    case Free(c) => r.(m := DoFree(r.m, c))
    case Move(c, p) => r.(m := DoMove(r.m, c, p))
    case TryBegin => Run(r.m.(tryDepth := r.m.tryDepth + 1), r.open + [|r.m.entries|], r.settled)
    case TryEnd => Leave(r)
    case TryLeave => Leave(r)
    case Catch(depth, fatal) =>
      // The error has left the deeper try blocks; the catch block runs at `depth`
      var cleaned := DoClean(r.m, depth, fatal);
      Run(cleaned.(tryDepth := depth), Cut(r.open[..depth], |cleaned.entries|),
          if fatal then r.settled + Pending(r.m, depth) else r.settled)
  }

  ghost function Leave<C>(r: Run<C>): Run<C>
    requires 0 < |r.open| == r.m.tryDepth
  {
    r.(m := r.m.(tryDepth := r.m.tryDepth - 1), open := r.open[..|r.open| - 1])
  }

  function Min(a: nat, b: nat): nat {
    if a <= b then a else b
  }

  function Cut(open: seq<nat>, n: nat): (r: seq<nat>)
    ensures |r| == |open| && forall i {:trigger r[i]} {:trigger open[i]} :: 0 <= i < |open| ==> r[i] == Min(open[i], n)
  {
    seq(|open|, i requires 0 <= i < |open| => Min(open[i], n))
  }

  // The contexts that a clean of depth `d` would free if it freed anything.
  ghost function Pending<C>(m: Machine<C>, d: nat): set<C>
    requires Based(m) && d > 0
  {
    set k | CleanTo(m.entries, d) <= k < |m.entries| && m.entries[k].kind.New? :: m.entries[k].context
  }

  // The try blocks began one inside the other, and what lies above the floor of one carries its depth at least. The
  // other way round does not hold: an error that leaves a try block leaves entries of its depth below what comes next.
  ghost predicate NestedIn<C>(entries: seq<Entry<C>>, open: seq<nat>) {
    && (forall i {:trigger open[i]} :: 0 <= i < |open| ==> 0 < open[i] <= |entries|)
    && (forall i, j {:trigger open[i], open[j]} :: 0 <= i <= j < |open| ==> open[i] <= open[j])
    && (forall i, k {:trigger open[i], entries[k]} :: 0 <= i < |open| && open[i] <= k < |entries| ==>
         i < entries[k].tryDepth)
  }

  ghost predicate Nested<C>(r: Run<C>) {
    r.m.tryDepth == |r.open| && NestedIn(r.m.entries, r.open)
  }

  ghost predicate Answers<C>(entries: seq<Entry<C>>, c: C) {
    exists k {:trigger entries[k]} :: 0 <= k < |entries| && entries[k].context == c && entries[k].kind.New?
  }

  // No context is lost: it is settled, or some `New` entry still answers for it.
  ghost predicate Accounted<C>(r: Run<C>) {
    forall c {:trigger c in r.settled} {:trigger Answers(r.m.entries, c)} ::
      c in r.m.tree.parent && c !in r.settled ==> Answers(r.m.entries, c)
  }

  ghost predicate Inv<C>(r: Run<C>) {
    Safe(r.m) && Nested(r) && Accounted(r)
  }

  ghost predicate Steps<C>(r: Run<C>, steps: seq<Step<C>>)
    requires Inv(r)
    decreases |steps|
  {
    steps == [] || (Enabled(r, steps[0]) && (ApplyInv(r, steps[0]); Steps(Apply(r, steps[0]), steps[1..])))
  }

  ghost function After<C>(r: Run<C>, steps: seq<Step<C>>): (r': Run<C>)
    requires Inv(r) && Steps(r, steps)
    ensures Inv(r')
    decreases |steps|
  {
    if steps == [] then r else ApplyInv(r, steps[0]); After(Apply(r, steps[0]), steps[1..])
  }

  lemma ApplySafe<C>(r: Run<C>, step: Step<C>)
    requires Inv(r) && Enabled(r, step)
    ensures Safe(Apply(r, step).m)
  {
    match step
    case Create(c) => NewSafe(r.m, c);
    case SwitchTo(c) => SwitchSafe(r.m, c);
    case SwitchBack => SwitchBackSafe(r.m);
    case Keep => KeepSafe(r.m);
    case Discard => DiscardSafe(r.m);
    case Free(c) => FreeSafe(r.m, c);
    case Move(c, p) => MoveSafe(r.m, c, p);
    case TryBegin => RetagSafe(r.m, r.m.tryDepth + 1);
    case TryEnd => RetagSafe(r.m, r.m.tryDepth - 1);
    case TryLeave => RetagSafe(r.m, r.m.tryDepth - 1);
    case Catch(depth, fatal) =>
      CleanSafe(r.m, depth, fatal);
      RetagSafe(DoClean(r.m, depth, fatal), depth);
  }

  // Pushing at the current depth keeps the floors; so does popping what lies above all of them.
  lemma NestedPush<C>(entries: seq<Entry<C>>, e: Entry<C>, open: seq<nat>)
    requires NestedIn(entries, open) && |open| <= e.tryDepth
    ensures NestedIn(entries + [e], open)
  {
  }

  lemma NestedCut<C>(entries: seq<Entry<C>>, n: nat, open: seq<nat>)
    requires NestedIn(entries, open) && 0 < n <= |entries|
    ensures NestedIn(entries[..n], Cut(open, n))
  {
  }

  lemma NestedPop<C>(entries: seq<Entry<C>>, open: seq<nat>)
    requires NestedIn(entries, open) && 1 < |entries| && (open != [] ==> open[|open| - 1] < |entries|)
    ensures NestedIn(entries[..|entries| - 1], open)
  {
    NestedCut(entries, |entries| - 1, open);
    assert Cut(open, |entries| - 1) == open;
  }

  lemma ApplyNested<C>(r: Run<C>, step: Step<C>)
    requires Inv(r) && Enabled(r, step)
    ensures Nested(Apply(r, step))
  {
    match step
    case Create(c) => NestedPush(r.m.entries, Entry(c, Kind.New, r.m.tryDepth), r.open);
    case SwitchTo(c) => NestedPush(r.m.entries, Entry(c, Kind.Switch, r.m.tryDepth), r.open);
    case SwitchBack => NestedPop(r.m.entries, r.open);
    case Keep => NestedPop(r.m.entries, r.open);
    case Discard => NestedPop(r.m.entries, r.open);
    case Catch(depth, fatal) => CatchNested(r, depth, fatal);
    case _ =>
  }

  lemma CatchNested<C>(r: Run<C>, depth: nat, fatal: bool)
    requires Safe(r.m) && Nested(r) && 0 < depth <= |r.open|
    ensures Nested(Apply(r, Catch(depth, fatal)))
  {
    CleanRestores(r.m, depth, fatal);
    assert NestedIn(r.m.entries, r.open[..depth]);
    NestedCut(r.m.entries, CleanTo(r.m.entries, depth), r.open[..depth]);
  }

  // Catching an error puts the stack and the current index back to where the try block found them, exactly when what it
  // found last has a lower depth. Else the clean goes on below it.
  lemma CatchRestoresStack<C>(r: Run<C>, depth: nat, fatal: bool)
    requires Safe(r.m) && Nested(r) && 0 < depth <= |r.open|
    ensures Left(r.m, Apply(r, Catch(depth, fatal)).m, CleanTo(r.m.entries, depth))
    ensures Apply(r, Catch(depth, fatal)).m.entries == r.m.entries[..r.open[depth - 1]]
            <==> r.m.entries[r.open[depth - 1] - 1].tryDepth < depth
    ensures Apply(r, Catch(depth, fatal)).open == Cut(r.open[..depth], CleanTo(r.m.entries, depth))
  {
    CleanRestores(r.m, depth, fatal);
    assert CleanTo(r.m.entries, depth) <= r.open[depth - 1];
  }

  lemma ApplyAccounted<C>(r: Run<C>, step: Step<C>)
    requires Inv(r) && Enabled(r, step)
    ensures Accounted(Apply(r, step))
  {
    var r' := Apply(r, step);
    forall c | c in r'.m.tree.parent && c !in r'.settled ensures Answers(r'.m.entries, c) {
      AccountedStep(r, step, c);
    }
  }

  lemma AccountedStep<C>(r: Run<C>, step: Step<C>, c: C)
    requires Inv(r) && Enabled(r, step)
    requires c in Apply(r, step).m.tree.parent && c !in Apply(r, step).settled
    ensures Answers(Apply(r, step).m.entries, c)
  {
    hide Answers, Tree.Wf, Pointed, NewUncaptured;
    match step
    case Create(n) => AccountedNew(r, n, c);
    case SwitchTo(n) => AnswersPush(r.m.entries, Entry(n, Kind.Switch, r.m.tryDepth), c);
    case SwitchBack => AnswersPop(r.m.entries, c);
    case Keep => AnswersPop(r.m.entries, c);
    case Discard => AccountedDiscard(r, c);
    case Free(_) =>
    case Move(_, _) =>
    case TryBegin =>
    case TryEnd =>
    case TryLeave =>
    case Catch(depth, fatal) => AccountedCatch(r, depth, fatal, c);
  }

  lemma AccountedCatch<C>(r: Run<C>, depth: nat, fatal: bool, c: C)
    requires Inv(r) && 0 < depth <= |r.open|
    requires c in Apply(r, Catch(depth, fatal)).m.tree.parent && c !in Apply(r, Catch(depth, fatal)).settled
    ensures Answers(Apply(r, Catch(depth, fatal)).m.entries, c)
  {
    CleanRestores(r.m, depth, fatal);
    AnswersCatch(r, depth, fatal, c);
  }

  lemma AccountedNew<C>(r: Run<C>, n: C, c: C)
    requires Inv(r) && n !in r.m.tree.Live()
    requires c in DoNew(r.m, n).tree.parent && (c !in r.settled || c == n)
    ensures Answers(DoNew(r.m, n).entries, c)
  {
    var e := Entry(n, Kind.New, r.m.tryDepth);
    if c == n {
      assert (r.m.entries + [e])[|r.m.entries|] == e;
    } else {
      AnswersPush(r.m.entries, e, c);
    }
  }

  lemma AccountedDiscard<C>(r: Run<C>, c: C)
    requires Inv(r) && Enabled(r, Discard)
    requires c in DoDiscard(r.m).tree.parent && c !in r.settled
    ensures Answers(DoDiscard(r.m).entries, c)
  {
    DiscardSafe(r.m);
    assert c in DoDiscard(r.m).tree.Live() && Last(r.m).context in Subtree(r.m.tree, Last(r.m).context);
    AnswersPop(r.m.entries, c);
  }

  lemma AnswersPush<C>(entries: seq<Entry<C>>, e: Entry<C>, c: C)
    requires Answers(entries, c)
    ensures Answers(entries + [e], c)
  {
    var k :| 0 <= k < |entries| && entries[k].context == c && entries[k].kind.New?;
    assert (entries + [e])[k] == entries[k];
  }

  lemma AnswersPop<C>(entries: seq<Entry<C>>, c: C)
    requires Answers(entries, c)
    requires entries[|entries| - 1].kind.Switch? || entries[|entries| - 1].context != c
    ensures Answers(entries[..|entries| - 1], c)
  {
    var k :| 0 <= k < |entries| && entries[k].context == c && entries[k].kind.New?;
    assert entries[..|entries| - 1][k] == entries[k];
  }

  // What survives a non-fatal catch and is not settled is answered for below where the clean stops.
  lemma AnswersCatch<C>(r: Run<C>, depth: nat, fatal: bool, c: C)
    requires Inv(r) && 0 < depth <= |r.open|
    requires c in DoClean(r.m, depth, fatal).tree.parent && c !in r.settled
    requires fatal ==> c !in Pending(r.m, depth)
    ensures Answers(r.m.entries[..CleanTo(r.m.entries, depth)], c)
  {
    var n := CleanTo(r.m.entries, depth);
    CleanOnlyFrees(r.m, depth, fatal);
    CleanSafe(r.m, depth, fatal);
    CleanTop(r.m, depth, fatal);
    assert c in r.m.tree.parent && Answers(r.m.entries, c);
    var k :| 0 <= k < |r.m.entries| && r.m.entries[k].context == c && r.m.entries[k].kind.New?;
    if n <= k {
      if !fatal {
        assert Dooms(r.m, depth, k, c);
        CleanFreesExactly(r.m, depth, fatal, c);
      }
      assert false;
    }
    assert r.m.entries[..n][k] == r.m.entries[k];
  }

  lemma {:induction false} CleanTop<C>(m: Machine<C>, d: nat, fatal: bool)
    requires Safe(m) && d > 0
    ensures DoClean(m, d, fatal).tree.top == m.tree.top
    decreases |m.entries|
  {
    if Last(m).tryDepth >= d {
      CleanOneSafe(m, fatal);
      CleanTop(CleanOne(m, fatal), d, fatal);
    }
  }

  lemma ApplyInv<C>(r: Run<C>, step: Step<C>)
    requires Inv(r) && Enabled(r, step)
    ensures Inv(Apply(r, step))
  {
    ApplySafe(r, step);
    ApplyNested(r, step);
    ApplyAccounted(r, step);
  }

  // ----- whole runs

  // The static initialisation: the top context is current and nothing else exists.
  ghost function Start<C>(top: C): (r: Run<C>)
    ensures Inv(r) && r.m.tree.Live() == {top}
  {
    Run(Machine(Root(top), [Entry(top, Kind.Switch, 0)], 0, 0), [], {})
  }

  // The try blocks open at the start of the steps stay open throughout.
  ghost predicate Inside<C>(r: Run<C>, steps: seq<Step<C>>, n: nat)
    requires Inv(r) && Steps(r, steps)
    decreases |steps|
  {
    n <= |r.open| && (steps == [] || (ApplyInv(r, steps[0]); Inside(Apply(r, steps[0]), steps[1..], n)))
  }

  // What the try block at depth `n` found on the stack and is still there.
  ghost function Under<C>(r: Run<C>, n: nat): (u: seq<Entry<C>>)
    requires Inv(r) && 0 < n <= |r.open|
    ensures 0 < |u| && u[0].tryDepth == 0 && u[0].kind.Switch?
  {
    r.m.entries[..r.open[n - 1]]
  }

  // Entries are only gone from the end of it, and none of those that a clean of depth `n` would leave.
  ghost predicate Kept<C>(found: seq<Entry<C>>, left: seq<Entry<C>>, n: nat)
    requires 0 < |found| && found[0].tryDepth < n
  {
    left <= found && CleanTo(found, n) <= |left|
  }

  lemma CleanToPrefix<C>(found: seq<Entry<C>>, left: seq<Entry<C>>, n: nat)
    requires 0 < |found| && found[0].tryDepth < n && Kept(found, left, n)
    ensures CleanTo(left, n) == CleanTo(found, n)
  {
  }

  lemma KeptKept<C>(a: seq<Entry<C>>, b: seq<Entry<C>>, c: seq<Entry<C>>, n: nat)
    requires 0 < |a| && a[0].tryDepth < n && Kept(a, b, n) && Kept(b, c, n)
    ensures Kept(a, c, n)
  {
    CleanToPrefix(a, b, n);
  }

  lemma KeptSelf<C>(found: seq<Entry<C>>, n: nat)
    requires 0 < |found| && found[0].tryDepth < n
    ensures Kept(found, found, n)
  {
  }

  // A clean of a greater depth stops no further down.
  lemma KeptClean<C>(entries: seq<Entry<C>>, floor: nat, n: nat, depth: nat)
    requires 0 < floor <= |entries| && entries[0].tryDepth < n <= depth
    ensures Kept(entries[..floor], entries[..Min(floor, CleanTo(entries, depth))], n)
  {
    var t := CleanTo(entries[..floor], n);
    assert entries[..floor][t - 1] == entries[t - 1];
  }

  lemma CatchKeeps<C>(r: Run<C>, depth: nat, fatal: bool, n: nat)
    requires Inv(r) && 0 < n <= depth <= |r.open|
    ensures Inv(Apply(r, Catch(depth, fatal))) && Kept(Under(r, n), Under(Apply(r, Catch(depth, fatal)), n), n)
  {
    ApplyInv(r, Catch(depth, fatal));
    CleanRestores(r.m, depth, fatal);
    KeptClean(r.m.entries, r.open[n - 1], n, depth);
    hide Inv, Accounted, Safe, CleanTo, DoClean, Kept;
    var r' := Apply(r, Catch(depth, fatal));
    var t := CleanTo(r.m.entries, depth);
    assert r'.open[n - 1] == Min(r.open[n - 1], t);
    assert Under(r', n) == r.m.entries[..Min(r.open[n - 1], t)];
  }

  lemma StepKeeps<C>(r: Run<C>, step: Step<C>, n: nat)
    requires Inv(r) && Enabled(r, step) && 0 < n <= |r.open| && n <= |Apply(r, step).open|
    ensures Inv(Apply(r, step)) && Kept(Under(r, n), Under(Apply(r, step), n), n)
  {
    if step.Catch? {
      CatchKeeps(r, step.depth, step.fatal, n);
    } else {
      ApplyInv(r, step);
      KeptSelf(Under(r, n), n);
      hide Inv, Accounted, NewUncaptured, Named, Tree.Wf, Kept;
      assert Under(Apply(r, step), n) == Under(r, n);
    }
  }

  // Steps inside a try block leave what its begin found, but for what a catch of its own would clean as well.
  lemma {:induction false} BasesKept<C>(r: Run<C>, steps: seq<Step<C>>, n: nat)
    requires Inv(r) && Steps(r, steps) && Inside(r, steps, n) && 0 < n
    ensures n <= |After(r, steps).open| && Kept(Under(r, n), Under(After(r, steps), n), n)
    decreases |steps|
  {
    hide Kept, Under, CleanTo, Inv;
    if steps == [] {
      KeptSelf(Under(r, n), n);
    } else {
      InvSafe(r);
      ApplyInv(r, steps[0]);
      var r' := Apply(r, steps[0]);
      BasesKept(r', steps[1..], n);
      StepKeeps(r, steps[0], n);
      KeptKept(Under(r, n), Under(r', n), Under(After(r, steps), n), n);
    }
  }

  // Error recovery: whatever a try body did, including nested try blocks, catching the error leaves the stack as the
  // try block found it, less the entries at its end that an earlier error left behind at the same depth; after a
  // non-fatal catch the contexts the body created are gone unless they were settled.
  lemma Recovery<C>(r: Run<C>, steps: seq<Step<C>>, fatal: bool)
    requires Inv(r) && Inv(Apply(r, TryBegin))
    requires Steps(Apply(r, TryBegin), steps) && Inside(Apply(r, TryBegin), steps, |r.open| + 1)
    ensures Enabled(After(Apply(r, TryBegin), steps), Catch(|r.open| + 1, fatal))
    ensures var r' := Apply(After(Apply(r, TryBegin), steps), Catch(|r.open| + 1, fatal));
            && Inv(r')
            && Left(r.m, r'.m, CleanTo(r.m.entries, |r.open| + 1))
            && forall c :: c in r'.m.tree.Live() && c !in r.m.tree.Live() ==> c in r'.settled
  {
    hide Inv, Safe, Nested, Accounted, Kept, Under, CleanTo, Left, After;
    var d := |r.open| + 1;
    Begun(r);
    BasesKept(Apply(r, TryBegin), steps, d);
    var thrown := After(Apply(r, TryBegin), steps);
    InvSafe(thrown);
    CatchLeaves(r, thrown, fatal);
    ApplyInv(thrown, Catch(d, fatal));
    LeftLive(r, Apply(thrown, Catch(d, fatal)), CleanTo(r.m.entries, d));
  }

  lemma InvSafe<C>(r: Run<C>)
    requires Inv(r)
    ensures Safe(r.m) && Nested(r) && Based(r.m) && Enabled(r, TryBegin)
  {
  }

  // A try block finds the whole stack.
  lemma Begun<C>(r: Run<C>)
    requires Inv(r)
    ensures Safe(r.m) && Nested(r) && Based(r.m)
    ensures Inv(Apply(r, TryBegin)) && Apply(r, TryBegin).open == r.open + [|r.m.entries|]
    ensures Under(Apply(r, TryBegin), |r.open| + 1) == r.m.entries
  {
    ApplyInv(r, TryBegin);
    assert r.m.entries[..|r.m.entries|] == r.m.entries;
  }

  // ... so stack, current index and current context are exactly as before if and only if nothing was left behind
  // before.
  lemma RecoveryExactly<C>(r: Run<C>, steps: seq<Step<C>>, fatal: bool)
    requires Inv(r) && Inv(Apply(r, TryBegin))
    requires Steps(Apply(r, TryBegin), steps) && Inside(Apply(r, TryBegin), steps, |r.open| + 1)
    ensures Enabled(After(Apply(r, TryBegin), steps), Catch(|r.open| + 1, fatal))
    ensures var r' := Apply(After(Apply(r, TryBegin), steps), Catch(|r.open| + 1, fatal));
            && Inv(r')
            && (r'.m.entries == r.m.entries <==> Last(r.m).tryDepth <= r.m.tryDepth)
            && (Last(r.m).tryDepth <= r.m.tryDepth ==>
                 r'.m.current == r.m.current && CurrentContext(r'.m) == CurrentContext(r.m))
  {
    Recovery(r, steps, fatal);
    hide After, Apply, Steps, Inside, Accounted, Named, NewUncaptured, Tree.Wf, CleanTo, Left;
    LeftExactly(r.m, Apply(After(Apply(r, TryBegin), steps), Catch(|r.open| + 1, fatal)).m, |r.open| + 1);
  }

  lemma LeftExactly<C>(m: Machine<C>, m': Machine<C>, d: nat)
    requires Pointed(m) && d > 0 && Left(m, m', CleanTo(m.entries, d))
    ensures m'.entries == m.entries <==> Last(m).tryDepth < d
    ensures Last(m).tryDepth < d ==> m'.current == m.current
  {
    assert m.entries[..|m.entries|] == m.entries;
    PointedUnique(m.entries, m.current);
  }

  lemma CatchLeaves<C>(r: Run<C>, thrown: Run<C>, fatal: bool)
    requires Inv(r) && Inv(thrown) && |r.open| < |thrown.open|
    requires Kept(r.m.entries, Under(thrown, |r.open| + 1), |r.open| + 1)
    ensures Safe(thrown.m) && Nested(thrown)
    ensures Left(r.m, Apply(thrown, Catch(|r.open| + 1, fatal)).m, CleanTo(r.m.entries, |r.open| + 1))
  {
    hide Accounted, Tree.Wf, NewUncaptured, Named, CleanTo;
    var d := |r.open| + 1;
    CatchRestoresStack(thrown, d, fatal);
    CleanToPrefix(r.m.entries, Under(thrown, d), d);
    FloorCleaned(thrown, d);
    var n := CleanTo(r.m.entries, d);
    assert thrown.m.entries[..n] == Under(thrown, d)[..n] == r.m.entries[..n];
  }

  // A clean of the depth of a try block takes all it pushed.
  lemma FloorCleaned<C>(r: Run<C>, n: nat)
    requires Inv(r) && 0 < n <= |r.open|
    ensures CleanTo(Under(r, n), n) == CleanTo(r.m.entries, n) <= |Under(r, n)|
  {
  }

  lemma LeftLive<C>(r: Run<C>, r': Run<C>, n: nat)
    requires Inv(r) && Inv(r') && 0 < n <= |r.m.entries| && Left(r.m, r'.m, n)
    ensures forall c :: c in r'.m.tree.Live() && c !in r.m.tree.Live() ==> c in r'.settled
  {
    assert r.m.entries[0].context == r.m.tree.top && r'.m.entries[0].context == r'.m.tree.top;
    forall c | c in r'.m.tree.Live() && c !in r.m.tree.Live() ensures c in r'.settled {
      assert c in r'.m.tree.parent;
      assert Answers(r'.m.entries, c) ==> c in r.m.tree.Live();
    }
  }

  // That something was left behind is possible: an error leaves a try block without a catch, and its context is still
  // on the stack.
  lemma LeftBehind<C>(r: Run<C>, c: C)
    requires Inv(r) && c !in r.m.tree.Live()
    ensures Steps(r, [TryBegin, Create(c), TryLeave])
    ensures Last(After(r, [TryBegin, Create(c), TryLeave]).m) == Entry(c, Kind.New, r.m.tryDepth + 1)
    ensures After(r, [TryBegin, Create(c), TryLeave]).m.tryDepth == r.m.tryDepth
  {
    hide Safe, Inv, Nested, Accounted;
    InvSafe(r);
    var r1 := Apply(r, TryBegin);
    ApplyInv(r, TryBegin);
    InvSafe(r1);
    var r2 := Apply(r1, Create(c));
    ApplyInv(r1, Create(c));
    InvSafe(r2);
    ApplyInv(r2, TryLeave);
    var r3 := Apply(r2, TryLeave);
    var steps := [TryBegin, Create(c), TryLeave];
    assert steps[1..] == [Create(c), TryLeave] && steps[1..][1..] == [TryLeave] && steps[1..][1..][1..] == [];
    assert Steps(r3, []) && After(r3, []) == r3;
    assert Steps(r2, [TryLeave]) && After(r2, [TryLeave]) == r3;
    assert Steps(r1, [Create(c), TryLeave]) && After(r1, [Create(c), TryLeave]) == r3;
  }
}
