// The stack of memory contexts and error recovery, as a state machine over values.
//
// `Machine` is what the static variables of the memory context manager hold together with the current try depth. Every
// operation here is one function of the source restated on that value; `MemContexts` proves that the methods on the
// heap follow these functions.
module MemStack {
  import opened MemTree

  // `Switch`: memory may be allocated in the context. `New`: tracked for error handling only, never current.
  datatype Kind = Switch | New

  datatype Entry<C> = Entry(context: C, kind: Kind, tryDepth: nat)

  // `entries` is the used part of the stack, so the maximum stack index is `|entries| - 1`.
  datatype Machine<C(==)> = Machine(tree: Tree<C>, entries: seq<Entry<C>>, current: nat, tryDepth: nat)

  // ----- the operations

  // Index of the nearest `Switch` entry at or below `i`: the loop shared by switch back, prior and clean.
  function SwitchAt<C>(entries: seq<Entry<C>>, i: nat): (r: nat)
    requires i < |entries| && entries[0].kind.Switch?
    ensures r <= i && entries[r].kind.Switch?
    ensures forall k :: r < k <= i ==> entries[k].kind.New?
  {
    if entries[i].kind.Switch? then i else SwitchAt(entries, i - 1)
  }

  ghost predicate Based<C>(m: Machine<C>) {
    && 0 < |m.entries|
    && m.entries[0] == Entry(m.tree.top, Switch, 0)
    && m.current < |m.entries|
  }

  ghost function CurrentContext<C>(m: Machine<C>): C
    requires Based(m)
  {
    m.entries[m.current].context
  }

  ghost function Last<C>(m: Machine<C>): Entry<C>
    requires Based(m)
  {
    m.entries[|m.entries| - 1]
  }

  ghost function DoNew<C>(m: Machine<C>, c: C): Machine<C>
    requires Based(m) && m.tree.Wf() && c !in m.tree.Live() && CurrentContext(m) in m.tree.Live()
  {
    m.(tree := Add(m.tree, c, CurrentContext(m)), entries := m.entries + [Entry(c, New, m.tryDepth)])
  }

  ghost function DoSwitch<C>(m: Machine<C>, c: C): Machine<C> {
    m.(entries := m.entries + [Entry(c, Switch, m.tryDepth)], current := |m.entries|)
  }

  // Drop the last entry, which is the current one, and make the nearest lower `Switch` entry current.
  ghost function DoSwitchBack<C>(m: Machine<C>): Machine<C>
    requires Based(m) && m.current > 0
  {
    m.(entries := m.entries[..|m.entries| - 1], current := SwitchAt(m.entries, m.current - 1))
  }

  ghost function DoKeep<C>(m: Machine<C>): Machine<C>
    requires Based(m)
  {
    m.(entries := m.entries[..|m.entries| - 1])
  }

  ghost function DoFree<C>(m: Machine<C>, c: C): Machine<C>
    requires m.tree.Wf()
  {
    m.(tree := Prune(m.tree, c))
  }

  ghost function DoDiscard<C>(m: Machine<C>): Machine<C>
    requires Based(m) && m.tree.Wf()
  {
    DoKeep(DoFree(m, Last(m).context))
  }

  ghost function DoMove<C>(m: Machine<C>, c: C, p: C): Machine<C>
    requires m.tree.Wf() && c in m.tree.parent && p in m.tree.Live() && !Below(m.tree, c, p)
  {
    m.(tree := Graft(m.tree, c, p))
  }

  // One turn of the clean-up loop, on the last entry.
  ghost function CleanOne<C>(m: Machine<C>, fatal: bool): Machine<C>
    requires Based(m) && m.tree.Wf() && |m.entries| > 1
    requires Last(m).kind.Switch? ==> m.current > 0
  {
    var entries := m.entries[..|m.entries| - 1];
    if Last(m).kind.New? then
      m.(entries := entries, tree := if fatal then m.tree else Prune(m.tree, Last(m).context))
    else
      m.(entries := entries, current := SwitchAt(m.entries, m.current - 1))
  }

  ghost function DoClean<C>(m: Machine<C>, d: nat, fatal: bool): Machine<C>
    requires Safe(m) && d > 0
    decreases |m.entries|
  {
    if Last(m).tryDepth < d then m
    else
      CleanOneSafe(m, fatal);
      DoClean(CleanOne(m, fatal), d, fatal)
  }

  // ----- the invariant

  // The current entry is a `Switch` and everything above it is `New`.
  ghost predicate Pointed<C>(m: Machine<C>) {
    && Based(m)
    && m.entries[m.current].kind.Switch?
    && forall k :: m.current < k < |m.entries| ==> m.entries[k].kind.New?
  }

  ghost predicate Named<C>(t: Tree<C>, entries: seq<Entry<C>>) {
    forall k {:trigger entries[k]} :: 0 <= k < |entries| ==> entries[k].context in t.Live()
  }

  // Nothing the stack still needs would go away if the context of entry `k` were freed.
  ghost predicate Uncaptured<C>(t: Tree<C>, entries: seq<Entry<C>>, k: nat)
    requires t.Wf() && k < |entries| && Named(t, entries)
  {
    forall j {:trigger entries[j]} :: 0 <= j < k ==> !Below(t, entries[k].context, entries[j].context)
  }

  ghost predicate NewUncaptured<C>(t: Tree<C>, entries: seq<Entry<C>>)
    requires t.Wf() && Named(t, entries)
  {
    forall k {:trigger Uncaptured(t, entries, k)} :: 0 <= k < |entries| && entries[k].kind.New? ==>
        Uncaptured(t, entries, k)
  }

  ghost predicate Safe<C>(m: Machine<C>) {
    && m.tree.Wf()
    && Pointed(m)
    && Named(m.tree, m.entries)
    && NewUncaptured(m.tree, m.entries)
  }

  // The number of open try blocks does not matter. After an error has left one, entries may even carry a greater depth
  // than that.
  lemma RetagSafe<C>(m: Machine<C>, d: nat)
    requires Safe(m)
    ensures Safe(m.(tryDepth := d))
  {
  }

  // ----- each operation keeps the invariant

  lemma NewSafe<C>(m: Machine<C>, c: C)
    requires Safe(m) && c !in m.tree.Live()
    ensures Safe(DoNew(m, c))
    ensures DoNew(m, c).tree.Live() == m.tree.Live() + {c}
  {
    var p := CurrentContext(m);
    AddWf(m.tree, c, p);
    var m' := DoNew(m, c);
    forall k | 0 <= k < |m'.entries| && m'.entries[k].kind.New? ensures Uncaptured(m'.tree, m'.entries, k) {
      assert k < |m.entries| ==> Uncaptured(m.tree, m.entries, k);
      forall j | 0 <= j < k ensures !Below(m'.tree, m'.entries[k].context, m'.entries[j].context) {
        assert m'.entries[j] == m.entries[j];
        AddBelow(m.tree, c, p, m'.entries[k].context, m.entries[j].context);
      }
    }
  }

  lemma SwitchSafe<C>(m: Machine<C>, c: C)
    requires Safe(m) && c in m.tree.Live()
    ensures Safe(DoSwitch(m, c))
  {
    var m' := DoSwitch(m, c);
    forall k | 0 <= k < |m'.entries| && m'.entries[k].kind.New? ensures Uncaptured(m'.tree, m'.entries, k) {
      assert Uncaptured(m.tree, m.entries, k);
    }
  }

  // Dropping the last entry, whatever becomes of the current index.
  lemma PopSafe<C>(m: Machine<C>, current: nat)
    requires Safe(m) && |m.entries| > 1
    requires current < |m.entries| - 1 && m.entries[current].kind.Switch?
    requires forall k :: current < k < |m.entries| - 1 ==> m.entries[k].kind.New?
    ensures Safe(m.(entries := m.entries[..|m.entries| - 1], current := current))
  {
    var m' := m.(entries := m.entries[..|m.entries| - 1], current := current);
    forall k | 0 <= k < |m'.entries| && m'.entries[k].kind.New? ensures Uncaptured(m'.tree, m'.entries, k) {
      assert Uncaptured(m.tree, m.entries, k);
    }
  }

  lemma SwitchBackSafe<C>(m: Machine<C>)
    requires Safe(m) && |m.entries| > 1 && Last(m).kind.Switch?
    ensures m.current == |m.entries| - 1
    ensures Safe(DoSwitchBack(m))
  {
    PopSafe(m, SwitchAt(m.entries, m.current - 1));
  }

  lemma KeepSafe<C>(m: Machine<C>)
    requires Safe(m) && Last(m).kind.New?
    ensures Safe(DoKeep(m))
  {
    PopSafe(m, m.current);
  }

  // Freeing a context that neither holds nor is above anything on the stack.
  lemma FreeSafe<C>(m: Machine<C>, c: C)
    requires Safe(m) && c in m.tree.parent
    requires forall k {:trigger m.entries[k]} :: 0 <= k < |m.entries| ==> !Below(m.tree, c, m.entries[k].context)
    ensures Safe(DoFree(m, c))
    ensures DoFree(m, c).tree.Live() == m.tree.Live() - Subtree(m.tree, c)
  {
    PruneWf(m.tree, c);
    SubtreeClosed(m.tree, c);
    assert m.entries[0].context == m.tree.top && m.tree.top !in Subtree(m.tree, c);
    var m' := DoFree(m, c);
    forall k | 0 <= k < |m'.entries| && m'.entries[k].kind.New? ensures Uncaptured(m'.tree, m'.entries, k) {
      assert Uncaptured(m.tree, m.entries, k);
      forall j | 0 <= j < k ensures !Below(m'.tree, m'.entries[k].context, m'.entries[j].context) {
        DropBelow(m.tree, Subtree(m.tree, c), m.entries[k].context, m.entries[j].context);
      }
    }
  }

  // Discard frees exactly the last entry's subtree and leaves nothing dangling.
  lemma DiscardSafe<C>(m: Machine<C>)
    requires Safe(m) && Last(m).kind.New?
    ensures Safe(DoDiscard(m))
    ensures DoDiscard(m) == DoFree(DoKeep(m), Last(m).context)
    ensures DoDiscard(m).tree.Live() == m.tree.Live() - Subtree(m.tree, Last(m).context)
    ensures DoDiscard(m).entries == m.entries[..|m.entries| - 1] && DoDiscard(m).current == m.current
  {
    var n := |m.entries| - 1;
    assert Uncaptured(m.tree, m.entries, n);
    KeepSafe(m);
    var k := DoKeep(m);
    assert forall j :: 0 <= j < n ==> k.entries[j] == m.entries[j];
    assert m.entries[0].context == m.tree.top;
    FreeSafe(k, m.entries[n].context);
  }

  lemma CleanOneSafe<C>(m: Machine<C>, fatal: bool)
    requires Safe(m) && Last(m).tryDepth > 0
    ensures |m.entries| > 1 && (Last(m).kind.Switch? ==> m.current > 0) && Safe(CleanOne(m, fatal))
  {
    if Last(m).kind.Switch? {
      SwitchBackSafe(m);
    } else if fatal {
      KeepSafe(m);
    } else {
      DiscardSafe(m);
    }
  }

  // A move is allowed when it puts no context the stack needs under a `New` entry further up.
  ghost predicate MoveAllowed<C>(m: Machine<C>, c: C, p: C)
    requires m.tree.Wf() && Named(m.tree, m.entries) && c in m.tree.parent && p in m.tree.Live()
  {
    && !Below(m.tree, c, p)
    && forall j, k {:trigger m.entries[j], m.entries[k]} ::
         0 <= j < k < |m.entries| && m.entries[k].kind.New? && Below(m.tree, m.entries[k].context, p)
         ==> !Below(m.tree, c, m.entries[j].context)
  }

  lemma MoveSafe<C>(m: Machine<C>, c: C, p: C)
    requires Safe(m) && c in m.tree.parent && p in m.tree.Live() && MoveAllowed(m, c, p)
    ensures Safe(DoMove(m, c, p))
    ensures DoMove(m, c, p).tree.Live() == m.tree.Live()
  {
    GraftWf(m.tree, c, p);
    var m' := DoMove(m, c, p);
    forall k | 0 <= k < |m'.entries| && m'.entries[k].kind.New? ensures Uncaptured(m'.tree, m'.entries, k) {
      assert Uncaptured(m.tree, m.entries, k);
      forall j | 0 <= j < k ensures !Below(m'.tree, m'.entries[k].context, m'.entries[j].context) {
        GraftBelow(m.tree, c, p, m.entries[k].context, m.entries[j].context);
      }
    }
  }

  // The condition on moves is exact: a move that stays acyclic and is not allowed leaves the stack at risk.
  lemma MoveUnsafe<C>(m: Machine<C>, c: C, p: C)
    requires Safe(m) && c in m.tree.parent && p in m.tree.Live() && !Below(m.tree, c, p)
    requires !MoveAllowed(m, c, p)
    ensures !Safe(DoMove(m, c, p))
  {
    GraftWf(m.tree, c, p);
    var m' := DoMove(m, c, p);
    var j, k :| 0 <= j < k < |m.entries| && m.entries[k].kind.New? && Below(m.tree, m.entries[k].context, p)
      && Below(m.tree, c, m.entries[j].context);
    GraftBelow(m.tree, c, p, m.entries[k].context, m.entries[j].context);
    assert Named(m'.tree, m'.entries) ==> !Uncaptured(m'.tree, m'.entries, k);
  }

  // ----- cleaning up after an error

  lemma {:induction false} CleanSafe<C>(m: Machine<C>, d: nat, fatal: bool)
    requires Safe(m) && d > 0
    ensures Safe(DoClean(m, d, fatal))
    ensures DoClean(m, d, fatal).tryDepth == m.tryDepth
    ensures Last(DoClean(m, d, fatal)).tryDepth < d
    decreases |m.entries|
  {
    if Last(m).tryDepth >= d {
      CleanOneSafe(m, fatal);
      CleanSafe(CleanOne(m, fatal), d, fatal);
    }
  }

  // How many entries a clean of depth `d` leaves: it stops at the last one of a lower depth.
  function CleanTo<C>(entries: seq<Entry<C>>, d: nat): (r: nat)
    requires 0 < |entries| && entries[0].tryDepth < d
    ensures 0 < r <= |entries| && entries[r - 1].tryDepth < d
    ensures forall k {:trigger entries[k]} :: r <= k < |entries| ==> d <= entries[k].tryDepth
  {
    if entries[|entries| - 1].tryDepth < d then |entries| else CleanTo(entries[..|entries| - 1], d)
  }

  lemma CleanToLess<C>(entries: seq<Entry<C>>, d: nat)
    requires 0 < |entries| && entries[0].tryDepth < d <= entries[|entries| - 1].tryDepth
    ensures |entries| > 1 && CleanTo(entries[..|entries| - 1], d) == CleanTo(entries, d)
  {
  }

  // `m'` has the first `n` entries of `m` left, and the nearest switch is current.
  ghost predicate Left<C>(m: Machine<C>, m': Machine<C>, n: nat)
    requires 0 < n <= |m.entries| && m.entries[0].kind.Switch?
  {
    m'.entries == m.entries[..n] && m'.current == SwitchAt(m.entries[..n], n - 1)
  }

  lemma LeftStep<C>(m: Machine<C>, m': Machine<C>, m'': Machine<C>, n: nat)
    requires 1 < |m.entries| && m'.entries == m.entries[..|m.entries| - 1] && m.entries[0].kind.Switch?
    requires 0 < n <= |m'.entries| && Left(m', m'', n)
    ensures Left(m, m'', n)
  {
    assert m'.entries[..n] == m.entries[..n];
  }

  // Clean leaves the entries up to there and makes the nearest switch current.
  lemma {:induction false} CleanRestores<C>(m: Machine<C>, d: nat, fatal: bool)
    requires Safe(m) && d > 0
    ensures Left(m, DoClean(m, d, fatal), CleanTo(m.entries, d))
    decreases |m.entries|
  {
    hide Tree.Wf, Named, NewUncaptured, Prune, Left, CleanTo;
    if Last(m).tryDepth >= d {
      CleanOneSafe(m, fatal);
      CleanToLess(m.entries, d);
      CleanRestores(CleanOne(m, fatal), d, fatal);
      LeftStep(m, CleanOne(m, fatal), DoClean(m, d, fatal), CleanTo(m.entries, d));
    } else {
      LeftWhole(m, d);
    }
  }

  lemma LeftWhole<C>(m: Machine<C>, d: nat)
    requires Pointed(m) && Last(m).tryDepth < d
    ensures Left(m, m, CleanTo(m.entries, d))
  {
    assert m.entries[..|m.entries|] == m.entries;
    PointedUnique(m.entries, m.current);
  }

  lemma PointedUnique<C>(entries: seq<Entry<C>>, i: nat)
    requires i < |entries| && entries[0].kind.Switch? && entries[i].kind.Switch?
    requires forall k :: i < k < |entries| ==> entries[k].kind.New?
    ensures SwitchAt(entries, |entries| - 1) == i
  {
  }

  ghost predicate Dooms<C>(m: Machine<C>, d: nat, k: nat, c: C)
    requires m.tree.Wf() && Based(m) && d > 0 && Named(m.tree, m.entries) && c in m.tree.Live() && k < |m.entries|
  {
    CleanTo(m.entries, d) <= k && m.entries[k].kind.New? && Below(m.tree, m.entries[k].context, c)
  }

  // The contexts a non-fatal clean takes away: those below a `New` entry among the last ones, all of depth `d` or
  // deeper.
  ghost predicate Doomed<C>(m: Machine<C>, d: nat, c: C)
    requires m.tree.Wf() && Based(m) && d > 0 && Named(m.tree, m.entries) && c in m.tree.Live()
  {
    exists k {:trigger Dooms(m, d, k, c)} :: 0 <= k < |m.entries| && Dooms(m, d, k, c)
  }

  // Cleaning the last entry takes the contexts it dooms ...
  lemma CleanOneLive<C>(m: Machine<C>, d: nat, c: C)
    requires Safe(m) && d > 0 && c in m.tree.Live() && Last(m).tryDepth >= d
    ensures |m.entries| > 1 && (Last(m).kind.Switch? ==> m.current > 0) && Safe(CleanOne(m, false))
    ensures c in CleanOne(m, false).tree.Live() <==> !Dooms(m, d, |m.entries| - 1, c)
  {
    CleanOneSafe(m, false);
    if Last(m).kind.New? {
      DiscardSafe(m);
    }
  }

  // ... and leaves the others as they were.
  lemma CleanOneDoomed<C>(m: Machine<C>, d: nat, c: C)
    requires Safe(m) && d > 0 && c in m.tree.Live() && Last(m).tryDepth >= d
    requires |m.entries| > 1 && (Last(m).kind.Switch? ==> m.current > 0) && Safe(CleanOne(m, false))
    requires c in CleanOne(m, false).tree.Live()
    ensures Doomed(CleanOne(m, false), d, c) <==> Doomed(m, d, c)
  {
    var m' := CleanOne(m, false);
    CleanOneLive(m, d, c);
    if Doomed(m, d, c) {
      var k: nat :| k < |m.entries| && Dooms(m, d, k, c);
      DoomsKept(m, d, k, c);
      assert Dooms(m', d, k, c);
    }
    if Doomed(m', d, c) {
      var k: nat :| k < |m'.entries| && Dooms(m', d, k, c);
      DoomsKept(m, d, k, c);
      assert Dooms(m, d, k, c);
    }
  }

  lemma DoomsKept<C>(m: Machine<C>, d: nat, k: nat, c: C)
    requires Safe(m) && k < |m.entries| - 1 && d > 0 && Last(m).tryDepth >= d
    requires Last(m).kind.Switch? ==> m.current > 0
    requires Safe(CleanOne(m, false)) && c in m.tree.Live() && c in CleanOne(m, false).tree.Live()
    ensures Dooms(CleanOne(m, false), d, k, c) <==> Dooms(m, d, k, c)
  {
    hide CleanTo, NewUncaptured, Tree.Wf, SwitchAt;
    var m' := CleanOne(m, false);
    assert m'.entries[k] == m.entries[k];
    assert CleanTo(m'.entries, d) == CleanTo(m.entries, d) by {
      assert m'.entries == m.entries[..|m.entries| - 1];
      CleanToLess(m.entries, d);
    }
    if Last(m).kind.New? {
      DiscardSafe(m);
      var s := Subtree(m.tree, Last(m).context);
      assert m.tree.top !in s by {
        assert Uncaptured(m.tree, m.entries, |m.entries| - 1);
        assert m.entries[0].context == m.tree.top;
      }
      DropBelow(m.tree, s, m.entries[k].context, c);
    }
  }

  // A non-fatal clean frees exactly the doomed contexts; a fatal one frees nothing.
  lemma {:induction false} CleanFreesExactly<C>(m: Machine<C>, d: nat, fatal: bool, c: C)
    requires Safe(m) && d > 0 && c in m.tree.Live()
    ensures c in DoClean(m, d, fatal).tree.Live() <==> fatal || !Doomed(m, d, c)
    decreases |m.entries|
  {
    if Last(m).tryDepth >= d {
      CleanOneSafe(m, fatal);
      var m' := CleanOne(m, fatal);
      if fatal {
        CleanFreesExactly(m', d, fatal, c);
      } else {
        CleanOneLive(m, d, c);
        if c in m'.tree.Live() {
          CleanOneDoomed(m, d, c);
          CleanFreesExactly(m', d, fatal, c);
        } else {
          CleanOnlyFrees(m', d, fatal);
        }
      }
    } else {
      assert forall k: nat :: k < |m.entries| ==> !Dooms(m, d, k, c);
    }
  }

  lemma {:induction false} CleanOnlyFrees<C>(m: Machine<C>, d: nat, fatal: bool)
    requires Safe(m) && d > 0
    ensures DoClean(m, d, fatal).tree.Live() <= m.tree.Live()
    decreases |m.entries|
  {
    if Last(m).tryDepth >= d {
      CleanOneSafe(m, fatal);
      if Last(m).kind.New? && !fatal {
        DiscardSafe(m);
      }
      CleanOnlyFrees(CleanOne(m, fatal), d, fatal);
    }
  }

  // An error passing through several try blocks cleans at each of them; the outcome is that of the outermost clean.
  lemma {:induction false} CleanComposes<C>(m: Machine<C>, inner: nat, outer: nat, fatal: bool)
    requires Safe(m) && 0 < outer <= inner
    ensures Safe(DoClean(m, inner, fatal))
    ensures DoClean(DoClean(m, inner, fatal), outer, fatal) == DoClean(m, outer, fatal)
    decreases |m.entries|
  {
    CleanSafe(m, inner, fatal);
    if Last(m).tryDepth >= inner {
      CleanOneSafe(m, fatal);
      CleanComposes(CleanOne(m, fatal), inner, outer, fatal);
    }
  }

  // A callback that throws leaves `memContextDiscard()` after the context is gone but before its entry is popped: the
  // stack then names a dead context, which is exactly what the next clean would free again.
  lemma DiscardThrownDangles<C>(m: Machine<C>)
    requires Safe(m) && Last(m).kind.New?
    ensures DoFree(m, Last(m).context).tree.Wf()
    ensures Last(m).context !in DoFree(m, Last(m).context).tree.Live()
    ensures !Named(DoFree(m, Last(m).context).tree, m.entries) && !Safe(DoFree(m, Last(m).context))
  {
    var n := |m.entries| - 1;
    assert Uncaptured(m.tree, m.entries, n);
    assert m.entries[0].context == m.tree.top;
    PruneWf(m.tree, m.entries[n].context);
    assert DoFree(m, m.entries[n].context).entries[n].context !in DoFree(m, m.entries[n].context).tree.Live();
  }
}
