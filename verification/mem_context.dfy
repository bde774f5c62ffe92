// Memory contexts on the heap: child slots, parent pointers, allocation lists and the context stack.
//
// `MemContext` and `MemContextManager` update fields the way the source updates its structs and static variables. The
// ghost field `tree` says which contexts are live and who is whose parent; `Valid()` ties it to the pointers, and each
// method is proved to follow the function of `MemStack` that describes it.
module MemContexts {
  import opened MemTree
  import opened MemStack
  import opened Options
  import opened Sequences

  // How many children, allocations or callbacks a context can hold.
  datatype Qty = QtyNone | QtyOne | QtyMany

  // A callback function with its argument; whether running it throws is up to the environment.
  datatype Callback = Callback(id: int, throws: bool)

  const INITIAL_SIZE := 4
  const STACK_MAX := 128

  // What freeing does, in order: run the callback of a context, release its memory.
  datatype Event = Ran(c: MemContext) | Released(c: MemContext)

  // The links of one context: its child part and its place in its parent.
  datatype Node = Node(childQty: Qty, childInitialized: bool, childOne: MemContext?, childList: seq<MemContext?>,
                       childFreeIdx: nat, contextParent: MemContext?, contextParentIdx: nat) {

    ghost predicate Childless() {
      !childInitialized && childOne == null && childList == [] && childFreeIdx == 0
    }

    // The optional child part fits the quantity.
    ghost predicate Shaped() {
      && (!childInitialized ==> Childless())
      && (!childQty.QtyOne? ==> childOne == null)
      && (!childQty.QtyMany? ==> childList == [])
      && (childQty.QtyNone? ==> !childInitialized)
      && (childInitialized && childQty.QtyMany? ==> INITIAL_SIZE <= |childList|)
      && childFreeIdx <= |childList|
    }

    ghost predicate Holds(c: MemContext, idx: nat) {
      && childInitialized
      && match childQty
         case QtyNone => false
         case QtyOne => childOne == c
         case QtyMany => idx < |childList| && childList[idx] == c
    }

    ghost predicate SameChildren(other: Node) {
      this == other.(contextParent := contextParent, contextParentIdx := contextParentIdx)
    }

    ghost predicate SameParent(other: Node) {
      contextParent == other.contextParent && contextParentIdx == other.contextParentIdx
    }
  }

  class MemContext {
    const childQty: Qty
    const allocQty: Qty
    const callbackQty: Qty

    var childInitialized: bool
    var childOne: MemContext?
    var childList: seq<MemContext?>
    var childFreeIdx: nat

    var contextParent: MemContext?
    var contextParentIdx: nat

    var callback: Option<Callback>

    constructor (childQty: Qty, allocQty: Qty, callbackQty: Qty, parent: MemContext?)
      ensures this.childQty == childQty && this.allocQty == allocQty && this.callbackQty == callbackQty
      ensures contextParent == parent && contextParentIdx == 0 && callback == None
      ensures Links().Childless()
    {
      this.childQty, this.allocQty, this.callbackQty := childQty, allocQty, callbackQty;
      childInitialized, childOne, childList, childFreeIdx := false, null, [], 0;
      contextParent, contextParentIdx, callback := parent, 0, None;
    }

    ghost function Links(): Node
      reads this
    {
      Node(childQty, childInitialized, childOne, childList, childFreeIdx, contextParent, contextParentIdx)
    }

    // Find a free slot for a child, growing the list when there is none from `childFreeIdx` on.
    method NewIndex() returns (idx: nat)
      requires Links().Shaped() && childQty.QtyMany?
      modifies this`childInitialized, this`childList, this`childFreeIdx
      ensures Links().Shaped() && childInitialized
      ensures idx == childFreeIdx < |childList| && childList[idx] == null
      ensures |old(childList)| <= |childList|
      ensures forall k :: 0 <= k < |childList| ==>
                childList[k] == if k < |old(childList)| then old(childList)[k] else null
      ensures old(childInitialized) ==> old(childFreeIdx) <= idx
      ensures old(childInitialized) ==> forall k :: old(childFreeIdx) <= k < idx ==> childList[k] != null
      // The list doubles only when no slot from the hint on is free
      ensures |childList| ==
        if !old(childInitialized) then INITIAL_SIZE
        else if forall k :: old(childFreeIdx) <= k < |old(childList)| ==>
                  old(childList)[k] != null then 2 * |old(childList)|
        else |old(childList)|
    {
      if !childInitialized {
        childList := seq(INITIAL_SIZE, _ => null);
        childFreeIdx := 0;
        childInitialized := true;
      } else {
        ghost var from := childFreeIdx;
        while childFreeIdx < |childList|
          invariant childInitialized && childList == old(childList)
          invariant from <= childFreeIdx <= |childList|
          invariant forall k :: from <= k < childFreeIdx ==> childList[k] != null
        {
          if childList[childFreeIdx] == null {
            break;
          }
          childFreeIdx := childFreeIdx + 1;
        }
        if childFreeIdx == |childList| {
          childList := childList + seq(|childList|, _ => null);
        }
      }
      idx := childFreeIdx;
    }

    // Find a place for `c` and assign it. A new context also advances the hint: the next free slot cannot be before the
    // one just taken.
    method TakeSlot(c: MemContext, advance: bool)
      requires Links().Shaped() && !childQty.QtyNone? && (childQty.QtyOne? ==> childOne == null) && c != this
      modifies this`childInitialized, this`childOne, this`childList, this`childFreeIdx, c`contextParentIdx
      ensures Took(old(Links()), Links(), c, c.contextParentIdx)
      ensures c.Links() == old(c.Links()).(contextParentIdx := c.contextParentIdx)
      ensures childQty.QtyMany? ==>
                c.contextParentIdx < |childList| && childFreeIdx == c.contextParentIdx + if advance then 1 else 0
      ensures childQty.QtyOne? ==> c.contextParentIdx == old(c.contextParentIdx)
    {
      if childQty.QtyOne? {
        childOne := c;
        childInitialized := true;
      } else {
        c.contextParentIdx := NewIndex();
        childList := childList[c.contextParentIdx := c];
        if advance {
          childFreeIdx := childFreeIdx + 1;
        }
      }
    }
  }

  // ----- the links of all live contexts, as a value

  type Nodes = map<MemContext, Node>

  ghost function NodesOf(live: set<MemContext>): (nodes: Nodes)
    reads live
    ensures nodes.Keys == live
  {
    map c | c in live :: c.Links()
  }

  lemma NodesMinus(live: set<MemContext>, s: set<MemContext>)
    ensures NodesOf(live - s) == NodesOf(live) - s
  {
  }

  lemma NodeAt(live: set<MemContext>, c: MemContext)
    requires c in live
    ensures NodesOf(live)[c] == c.Links()
  {
  }

  ghost predicate ChildOf(parent: map<MemContext, MemContext>, p: MemContext, c: MemContext) {
    c in parent && parent[c] == p
  }

  // `p` has a slot for `c`, and `c` knows which.
  ghost predicate Linked(nodes: Nodes, p: MemContext, c: MemContext)
    requires p in nodes && c in nodes
  {
    && nodes[c].contextParent == p
    && nodes[p].Holds(c, nodes[c].contextParentIdx)
  }

  // Every occupied slot of `p` holds a child of `p`, in the slot that child names.
  ghost predicate Slotted(nodes: Nodes, parent: map<MemContext, MemContext>, p: MemContext)
    requires p in nodes && parent.Keys <= nodes.Keys
  {
    && nodes[p].Shaped()
    && (nodes[p].childOne != null ==> ChildOf(parent, p, nodes[p].childOne))
    && forall i {:trigger nodes[p].childList[i]} :: 0 <= i < |nodes[p].childList| && nodes[p].childList[i] != null ==>
         ChildOf(parent, p, nodes[p].childList[i]) && nodes[nodes[p].childList[i]].contextParentIdx == i
  }

  // The pointers are the links in `parent`. A context without a link is the top one, or one being moved or freed.
  ghost predicate Represents(nodes: Nodes, parent: map<MemContext, MemContext>) {
    && parent.Keys <= nodes.Keys
    && (forall c {:trigger parent[c]} :: c in parent ==> parent[c] in nodes)
    && (forall c {:trigger parent[c]} :: c in parent ==> Linked(nodes, parent[c], c))
    && forall p {:trigger Slotted(nodes, parent, p)} :: p in nodes ==> Slotted(nodes, parent, p)
  }

  // `p` takes `c` into the slot at `idx`, which was free or is new.
  ghost predicate Took(before: Node, after: Node, c: MemContext, idx: nat) {
    && after.childQty == before.childQty && after.SameParent(before)
    && after.Shaped() && after.Holds(c, idx)
    && (after.childQty.QtyOne? ==> before.childOne == null)
    && (after.childQty.QtyMany? ==>
          && |before.childList| <= |after.childList|
          && (idx < |before.childList| ==> before.childList[idx] == null)
          && forall k :: 0 <= k < |after.childList| && k != idx ==>
               after.childList[k] == if k < |before.childList| then before.childList[k] else null)
  }

  // `p` gives up the slot at `idx`.
  ghost predicate Gave(before: Node, after: Node, idx: nat) {
    && after.childQty == before.childQty && after.SameParent(before)
    && after.Shaped() && after.childInitialized == before.childInitialized
    && after.childOne == null
    && (after.childQty.QtyOne? ==> after.childList == before.childList)
    && (after.childQty.QtyMany? ==> idx < |before.childList| && after.childList == before.childList[idx := null])
  }

  // Linking a context into a free slot of its new parent.
  lemma AttachRepresents(nodes: Nodes, parent: map<MemContext, MemContext>, c: MemContext, nc: Node, p: MemContext,
                         np: Node)
    requires Represents(nodes, parent) && p in nodes && p != c && c !in parent
    requires if c in nodes then nc.SameChildren(nodes[c]) else nc.Childless()
    requires nc.contextParent == p && Took(nodes[p], np, c, nc.contextParentIdx)
    ensures Represents(nodes[c := nc][p := np], parent[c := p])
  {
    hide Represents, Slotted, Linked, Took;
    var nodes', parent' := nodes[c := nc][p := np], parent[c := p];
    RepresentsAt(nodes, parent, p);
    forall d | d in parent' ensures parent'[d] in nodes' && Linked(nodes', parent'[d], d) {
      AttachLinked(nodes, parent, c, nc, p, np, d);
    }
    forall q | q in nodes' ensures Slotted(nodes', parent', q) {
      AttachSlotted(nodes, parent, c, nc, p, np, q);
    }
    RepresentsFold(nodes', parent');
  }

  lemma RepresentsFold(nodes: Nodes, parent: map<MemContext, MemContext>)
    requires parent.Keys <= nodes.Keys
    requires forall c {:trigger parent[c]} :: c in parent ==> parent[c] in nodes && Linked(nodes, parent[c], c)
    requires forall p {:trigger Slotted(nodes, parent, p)} :: p in nodes ==> Slotted(nodes, parent, p)
    ensures Represents(nodes, parent)
  {
  }

  lemma AttachLinked(nodes: Nodes, parent: map<MemContext, MemContext>, c: MemContext, nc: Node, p: MemContext,
                     np: Node, d: MemContext)
    requires Represents(nodes, parent) && p in nodes && p != c && c !in parent
    requires if c in nodes then nc.SameChildren(nodes[c]) else nc.Childless()
    requires nc.contextParent == p && Took(nodes[p], np, c, nc.contextParentIdx)
    requires d in parent || d == c
    ensures parent.Keys <= nodes.Keys
    ensures var nodes', q := nodes[c := nc][p := np], parent[c := p][d]; q in nodes' && Linked(nodes', q, d)
  {
    if d != c {
      assert Linked(nodes, parent[d], d);
    }
  }

  lemma AttachSlotted(nodes: Nodes, parent: map<MemContext, MemContext>, c: MemContext, nc: Node, p: MemContext,
                      np: Node, q: MemContext)
    requires Represents(nodes, parent) && p in nodes && p != c && c !in parent
    requires if c in nodes then nc.SameChildren(nodes[c]) else nc.Childless()
    requires nc.contextParent == p && Took(nodes[p], np, c, nc.contextParentIdx)
    requires q in nodes || q == c
    ensures parent.Keys <= nodes.Keys
    ensures Slotted(nodes[c := nc][p := np], parent[c := p], q)
  {
    assert Slotted(nodes, parent, p);
    if q in nodes {
      assert Slotted(nodes, parent, q);
    }
  }

  lemma RepresentsAt(nodes: Nodes, parent: map<MemContext, MemContext>, p: MemContext)
    requires Represents(nodes, parent) && p in nodes
    ensures parent.Keys <= nodes.Keys && Slotted(nodes, parent, p) && nodes[p].Shaped()
    ensures p in parent ==> parent[p] in nodes && Linked(nodes, parent[p], p) && Slotted(nodes, parent, parent[p])
    ensures p in parent ==> nodes[parent[p]].Shaped() && !nodes[parent[p]].childQty.QtyNone?
    ensures p in parent && nodes[parent[p]].childQty.QtyMany? ==>
              nodes[p].contextParentIdx < |nodes[parent[p]].childList|
  {
  }

  lemma AddShape(t: Tree<MemContext>, c: MemContext, p: MemContext)
    requires t.Wf() && c !in t.Live() && p in t.Live()
    ensures Add(t, c, p).Wf() && Add(t, c, p).top == t.top
    ensures Add(t, c, p).parent == t.parent[c := p] && Add(t, c, p).Live() == t.Live() + {c}
  {
    AddWf(t, c, p);
  }

  // The current context does not lie below a new one at the end of the stack.
  lemma LastApart(m: Machine<MemContext>)
    requires Safe(m) && Last(m).kind.New?
    ensures Last(m).context in m.tree.Live() && CurrentContext(m) in m.tree.Live()
    ensures !Below(m.tree, Last(m).context, CurrentContext(m))
    ensures m.current < |m.entries| - 1
    ensures Last(m).context in m.tree.parent
  {
    assert Uncaptured(m.tree, m.entries, |m.entries| - 1);
    AllBelowTop(m.tree, CurrentContext(m));
  }

  // ----- how far a clean has come

  ghost predicate CleanNext(m: Machine<MemContext>, m': Machine<MemContext>, fatal: bool) {
    Safe(m) && Last(m).tryDepth > 0 && (CleanOneSafe(m, fatal); m' == CleanOne(m, fatal))
  }

  // Freeing the last entry would throw.
  ghost predicate ThrowsLast(m: Machine<MemContext>, b: Callbacks, fatal: bool)
    requires Safe(m)
  {
    !fatal && Last(m).kind.New? && exists x :: x in Subtree(m.tree, Last(m).context) && Throws(b, x)
  }

  // `m` is on the way from `m0` to the cleaned state; the callbacks left are the old ones, and no context freed so far
  // threw.
  ghost predicate CleanProgress(m0: Machine<MemContext>, m: Machine<MemContext>, b0: Callbacks, b: Callbacks, d: nat,
                                fatal: bool) {
    && Safe(m0) && Safe(m) && d > 0
    && DoClean(m, d, fatal) == DoClean(m0, d, fatal)
    && b0.Keys == m0.tree.Live() && b.Keys == m.tree.Live() <= m0.tree.Live()
    && (forall x {:trigger b[x]} :: x in b ==> b[x] == b0[x])
    && (!fatal ==> forall x {:trigger Throws(b0, x)} :: x in m0.tree.Live() && Doomed(m0, d, x) && Throws(b0, x) ==>
         x in m.tree.Live())
    && (!fatal ==> forall x {:trigger Doomed(m, d, x)} :: x in m.tree.Live() ==>
         (Doomed(m, d, x) <==> Doomed(m0, d, x)))
  }

  lemma CleanStart(m: Machine<MemContext>, b: Callbacks, d: nat, fatal: bool)
    requires Safe(m) && d > 0 && b.Keys == m.tree.Live()
    ensures CleanProgress(m, m, b, b, d, fatal)
  {
  }

  lemma SafeParts(m: Machine<MemContext>)
    requires Safe(m)
    ensures m.tree.Wf() && Based(m) && Named(m.tree, m.entries)
  {
  }

  lemma CleanProgressStep(m0: Machine<MemContext>, m: Machine<MemContext>, b0: Callbacks, b: Callbacks, d: nat,
                          fatal: bool)
    requires CleanProgress(m0, m, b0, b, d, fatal) && Last(m).tryDepth >= d && !ThrowsLast(m, b, fatal)
    ensures |m.entries| > 1 && (Last(m).kind.Switch? ==> m.current > 0) && Safe(CleanOne(m, fatal))
    ensures CleanProgress(m0, CleanOne(m, fatal), b0, b - (m.tree.Live() - CleanOne(m, fatal).tree.Live()), d, fatal)
  {
    hide Safe, Doomed, Prune, Based, DoClean, ThrowsLast, CleanOne, Named, Tree.Wf;
    SafeParts(m0);
    SafeParts(m);
    CleanOneLess(m, fatal);
    var m' := CleanOne(m, fatal);
    SafeParts(m');
    CleanOnce(m, d, fatal);
    CallbacksLess(b0, b, m.tree.Live(), m'.tree.Live());
    if !fatal {
      CleanKeepsThrowers(m0, m, b0, b, d);
      CleanKeepsDoom(m0, m, d);
    }
  }

  lemma CallbacksLess(b0: Callbacks, b: Callbacks, live: set<MemContext>, rest: set<MemContext>)
    requires b.Keys == live && rest <= live && forall x {:trigger b[x]} :: x in b ==> x in b0 && b[x] == b0[x]
    ensures (b - (live - rest)).Keys == rest
    ensures forall x {:trigger (b - (live - rest))[x]} :: x in b - (live - rest) ==> (b - (live - rest))[x] == b0[x]
  {
    assert (b - (live - rest)).Keys == rest;
  }

  lemma CleanKeepsThrowers(m0: Machine<MemContext>, m: Machine<MemContext>, b0: Callbacks, b: Callbacks, d: nat)
    requires CleanProgress(m0, m, b0, b, d, false) && Last(m).tryDepth >= d && !ThrowsLast(m, b, false)
    ensures |m.entries| > 1 && (Last(m).kind.Switch? ==> m.current > 0) && Safe(CleanOne(m, false))
    ensures forall x {:trigger Throws(b0, x)} ::
              x in m0.tree.Live() && Doomed(m0, d, x) && Throws(b0, x) ==> x in CleanOne(m, false).tree.Live()
  {
    hide Safe, Doomed, Prune, Based, DoClean, ThrowsLast, CleanOne, Named, Tree.Wf;
    SafeParts(m0);
    SafeParts(m);
    CleanOneLess(m, false);
    forall x | x in m0.tree.Live() && Doomed(m0, d, x) && Throws(b0, x) ensures x in CleanOne(m, false).tree.Live() {
      CleanKeepsThrowing(m, d, b, x);
    }
  }

  lemma CleanKeepsDoom(m0: Machine<MemContext>, m: Machine<MemContext>, d: nat)
    requires Safe(m0) && Safe(m) && d > 0 && Last(m).tryDepth >= d && m.tree.Live() <= m0.tree.Live()
    requires forall x {:trigger Doomed(m, d, x)} :: x in m.tree.Live() ==> (Doomed(m, d, x) <==> Doomed(m0, d, x))
    ensures |m.entries| > 1 && (Last(m).kind.Switch? ==> m.current > 0) && Safe(CleanOne(m, false))
    ensures var m' := CleanOne(m, false);
            forall x {:trigger Doomed(m', d, x)} ::
              x in m'.tree.Live() ==> x in m.tree.Live() && (Doomed(m', d, x) <==> Doomed(m0, d, x))
  {
    hide Safe, Doomed, Prune, Based, DoClean, CleanOne, Named, Tree.Wf;
    SafeParts(m0);
    SafeParts(m);
    CleanOneLess(m, false);
    var m' := CleanOne(m, false);
    SafeParts(m');
    forall x | x in m'.tree.Live() ensures x in m.tree.Live() && (Doomed(m', d, x) <==> Doomed(m0, d, x)) {
      CleanOneDoomed(m, d, x);
    }
  }

  lemma CleanOnce(m: Machine<MemContext>, d: nat, fatal: bool)
    requires Safe(m) && d > 0 && Last(m).tryDepth >= d
    ensures |m.entries| > 1 && (Last(m).kind.Switch? ==> m.current > 0) && Safe(CleanOne(m, fatal))
    ensures DoClean(CleanOne(m, fatal), d, fatal) == DoClean(m, d, fatal)
  {
    CleanOneSafe(m, fatal);
  }

  // Contexts whose callback throws are not behind the last entry, so they are still there.
  lemma CleanKeepsThrowing(m: Machine<MemContext>, d: nat, b: Callbacks, x: MemContext)
    requires Safe(m) && d > 0 && Last(m).tryDepth >= d && !ThrowsLast(m, b, false) && x in m.tree.Live() && Throws(b, x)
    ensures |m.entries| > 1 && (Last(m).kind.Switch? ==> m.current > 0) && Safe(CleanOne(m, false))
    ensures x in CleanOne(m, false).tree.Live()
  {
    CleanOneLive(m, d, x);
  }

  lemma CleanOneLess(m: Machine<MemContext>, fatal: bool)
    requires Safe(m) && Last(m).tryDepth > 0
    ensures |m.entries| > 1 && (Last(m).kind.Switch? ==> m.current > 0) && Safe(CleanOne(m, fatal))
    ensures CleanOne(m, fatal).tree.Live() <= m.tree.Live()
  {
    CleanOneSafe(m, fatal);
    if Last(m).kind.New? && !fatal {
      DiscardSafe(m);
    }
  }

  lemma CleanThrown(m0: Machine<MemContext>, m: Machine<MemContext>, b0: Callbacks, b: Callbacks, d: nat, fatal: bool)
    requires CleanProgress(m0, m, b0, b, d, fatal) && Last(m).tryDepth >= d && ThrowsLast(m, b, fatal)
    ensures !fatal && exists x :: x in m0.tree.Live() && Doomed(m0, d, x) && Throws(b0, x)
    ensures DoFree(m, Last(m).context).tree.Wf() && !Safe(DoFree(m, Last(m).context))
    ensures Last(m).context !in DoFree(m, Last(m).context).tree.Live()
  {
    DiscardThrownDangles(m);
    hide Safe, Doomed, Prune, DoClean;
    SafeParts(m0);
    SafeParts(m);
    var x :| x in Subtree(m.tree, Last(m).context) && Throws(b, x);
    LastDooms(m, d, x);
    assert Doomed(m, d, x) && b[x] == b0[x];
  }

  lemma LastDooms(m: Machine<MemContext>, d: nat, x: MemContext)
    requires Safe(m) && Last(m).tryDepth >= d > 0 && Last(m).kind.New? && x in Subtree(m.tree, Last(m).context)
    ensures Doomed(m, d, x)
  {
    assert Dooms(m, d, |m.entries| - 1, x);
  }

  lemma NoneDoomed(m: Machine<MemContext>, d: nat, x: MemContext)
    requires Safe(m) && Last(m).tryDepth < d && x in m.tree.Live()
    ensures !Doomed(m, d, x)
  {
    assert CleanTo(m.entries, d) == |m.entries|;
  }

  lemma CleanDone(m0: Machine<MemContext>, m: Machine<MemContext>, b0: Callbacks, b: Callbacks, d: nat, fatal: bool)
    requires CleanProgress(m0, m, b0, b, d, fatal) && Last(m).tryDepth < d
    ensures m == DoClean(m0, d, fatal)
    ensures !(!fatal && exists x :: x in m0.tree.Live() && Doomed(m0, d, x) && Throws(b0, x))
  {
    forall x | x in m0.tree.Live() && !fatal && Throws(b0, x) ensures !Doomed(m0, d, x) {
      if x in m.tree.Live() {
        NoneDoomed(m, d, x);
      }
    }
  }

  // Of the links only the slot in the parent has changed, and the events are those of freeing the context of the last
  // entry.
  ghost predicate Discarded(m: Machine<MemContext>, nodes: Nodes, nodes': Nodes, b: Callbacks, ran: seq<MemContext>,
                            freed: seq<MemContext>, thrown: bool)
    requires Safe(m) && nodes.Keys == m.tree.Live()
  {
    var c := Last(m).context;
    && nodes' == FreedNodes(nodes, m.tree, c)
    && ChildrenFirst(m.tree, freed) && Elements(freed) == Subtree(m.tree, c)
    && (thrown <==> exists x :: x in Subtree(m.tree, c) && Throws(b, x))
    && (!thrown ==> Freed(m.tree, b, Subtree(m.tree, c), RanEvents(ran) + ReleasedEvents(freed)))
  }

  lemma DiscardedIs(m: Machine<MemContext>, nodes: Nodes, nodes': Nodes, b: Callbacks, b': Callbacks,
                    ran: seq<MemContext>, freed: seq<MemContext>, thrown: bool)
    requires Safe(m) && Last(m).kind.New? && nodes.Keys == b.Keys == m.tree.Live()
    requires nodes' == FreedNodes(nodes, m.tree, Last(m).context)
    requires Progress(m.tree, b, b', Subtree(m.tree, Last(m).context), ran, thrown)
    requires ChildrenFirst(m.tree, freed) && Elements(freed) == Subtree(m.tree, Last(m).context) - {m.tree.top}
    ensures Discarded(m, nodes, nodes', b, ran, freed, thrown)
  {
    LastApart(m);
    TopAbove(m.tree, Last(m).context);
    hide Safe, Progress, Freed, ChildrenFirst;
    ProgressThrows(m.tree, b, b', Subtree(m.tree, Last(m).context), ran, thrown);
    if !thrown {
      FreedSubtree(m.tree, b, b', Subtree(m.tree, Last(m).context), ran, freed);
    }
  }

  // Exactly the doomed contexts are no longer live.
  ghost predicate GoneAreDoomed(m: Machine<MemContext>, d: nat, fatal: bool, live: set<MemContext>)
    requires Safe(m) && d > 0
  {
    forall x {:trigger Doomed(m, d, x)} :: x in m.tree.Live() ==> (x !in live <==> !fatal && Doomed(m, d, x))
  }

  // The events of one turn: those of freeing the context of a new entry, if contexts are freed at all.
  ghost predicate LastFreed(m: Machine<MemContext>, b: Callbacks, fatal: bool, more: seq<Event>)
    requires Safe(m)
  {
    if !fatal && Last(m).kind.New? then
      Last(m).context in m.tree.parent && Freed(m.tree, b, Subtree(m.tree, Last(m).context), more)
    else more == []
  }

  // One turn of the clean, with its events.
  lemma ShrunkOnce(m0: Machine<MemContext>, m: Machine<MemContext>, b0: Callbacks, b: Callbacks, d: nat, fatal: bool,
                   more: seq<Event>, last: seq<Event>)
    requires CleanProgress(m0, m, b0, b, d, fatal) && Last(m).tryDepth >= d && Shrunk(m0.tree, m.tree, b0, more)
    requires LastFreed(m, b, fatal, last)
    ensures |m.entries| > 1 && (Last(m).kind.Switch? ==> m.current > 0) && Safe(CleanOne(m, fatal))
    ensures Shrunk(m0.tree, CleanOne(m, fatal).tree, b0, more + last)
  {
    CleanOneSafe(m, fatal);
    hide Safe, Doomed, DoClean, Freed, Shrunk;
    if !fatal && Last(m).kind.New? {
      ShrunkStep(m0.tree, m.tree, b0, more, Last(m).context, b, last);
    } else {
      assert more + last == more;
    }
  }

  lemma ShrunkDone(m0: Machine<MemContext>, m: Machine<MemContext>, b0: Callbacks, d: nat, fatal: bool,
                   more: seq<Event>)
    requires Safe(m0) && d > 0 && m == DoClean(m0, d, fatal) && Shrunk(m0.tree, m.tree, b0, more)
    ensures Freed(m0.tree, b0, m0.tree.Live() - m.tree.Live(), more)
    ensures GoneAreDoomed(m0, d, fatal, m.tree.Live())
  {
    hide Doomed, DoClean, Freed;
    forall x | x in m0.tree.Live()
      ensures x !in m.tree.Live() <==> !fatal && Doomed(m0, d, x)
    {
      CleanFreesExactly(m0, d, fatal, x);
    }
  }

  lemma MoveParts(m: Machine<MemContext>, c: MemContext, p: MemContext)
    requires Safe(m) && c in m.tree.parent && p in m.tree.Live() && MoveAllowed(m, c, p)
    ensures !Below(m.tree, c, p) && c != p
    ensures Graft(m.tree, c, p).Wf() && Graft(m.tree, c, p).top == m.tree.top
    ensures Graft(m.tree, c, p).parent == m.tree.parent[c := p] && Graft(m.tree, c, p).Live() == m.tree.Live()
  {
    GraftWf(m.tree, c, p);
  }

  lemma SafeCurrent(m: Machine<MemContext>)
    requires Safe(m)
    ensures CurrentContext(m) in m.tree.Live()
  {
  }

  // Clearing the slot a context is linked from.
  lemma DetachRepresents(nodes: Nodes, parent: map<MemContext, MemContext>, c: MemContext, np: Node)
    requires Represents(nodes, parent) && c in parent && parent[c] != c
    requires Gave(nodes[parent[c]], np, nodes[c].contextParentIdx)
    ensures Represents(nodes[parent[c] := np], parent - {c})
  {
    var nodes', parent' := nodes[parent[c] := np], parent - {c};
    assert Linked(nodes, parent[c], c) && Slotted(nodes, parent, parent[c]);
    forall d | d in parent' ensures Linked(nodes', parent'[d], d) {
      assert Linked(nodes, parent[d], d);
    }
    forall q | q in nodes' ensures Slotted(nodes', parent', q) {
      assert Slotted(nodes, parent, q);
    }
  }

  // A context that is nobody's parent and has no link can go.
  lemma RemoveRepresents(nodes: Nodes, parent: map<MemContext, MemContext>, c: MemContext)
    requires Represents(nodes, parent) && c !in parent && c !in parent.Values
    ensures Represents(nodes - {c}, parent)
  {
    var nodes' := nodes - {c};
    forall d | d in parent ensures parent[d] in nodes' && Linked(nodes', parent[d], d) {
      assert parent[d] in parent.Values && Linked(nodes, parent[d], d);
    }
    forall q | q in nodes' ensures Slotted(nodes', parent, q) {
      assert Slotted(nodes, parent, q);
    }
  }

  // ----- the slots of a context and the subtrees behind them

  // The slots in the order in which freeing visits them.
  ghost function Slots(n: Node): seq<MemContext?> {
    if n.childQty.QtyOne? then [n.childOne] else n.childList
  }

  // Each child of `c` sits in exactly one slot.
  ghost predicate SlotsOf(t: Tree<MemContext>, c: MemContext, slots: seq<MemContext?>) {
    && (forall i {:trigger slots[i]} :: 0 <= i < |slots| && slots[i] != null ==> ChildOf(t.parent, c, slots[i]))
    && (forall i, j {:trigger slots[i], slots[j]} :: 0 <= i < j < |slots| && slots[i] != null ==> slots[i] != slots[j])
    && forall d {:trigger d in t.parent} :: d in t.parent && t.parent[d] == c ==> d in slots
  }

  lemma RepresentsSlots(nodes: Nodes, t: Tree<MemContext>, c: MemContext)
    requires Represents(nodes, t.parent) && c in nodes
    ensures SlotsOf(t, c, Slots(nodes[c]))
  {
    assert Slotted(nodes, t.parent, c);
    forall d | ChildOf(t.parent, c, d) ensures d in Slots(nodes[c]) {
      assert Linked(nodes, t.parent[d], d);
      assert if nodes[c].childQty.QtyOne? then Slots(nodes[c])[0] == d
               else Slots(nodes[c])[nodes[d].contextParentIdx] == d;
    }
  }

  ghost function Union(t: Tree<MemContext>, slots: seq<MemContext?>): (s: set<MemContext>)
    requires t.Wf()
    ensures s <= t.Live()
  {
    if slots == [] then {}
    else Union(t, slots[..|slots| - 1]) +
         (var x := slots[|slots| - 1]; if x == null then {} else Subtree(t, x))
  }

  lemma UnionStep(t: Tree<MemContext>, slots: seq<MemContext?>, i: nat)
    requires t.Wf() && i < |slots|
    ensures Union(t, slots[..i + 1]) == Union(t, slots[..i]) + (if slots[i] == null then {} else Subtree(t, slots[i]))
  {
    assert slots[..i + 1][..i] == slots[..i];
  }

  lemma {:induction false} UnionMember(t: Tree<MemContext>, slots: seq<MemContext?>, d: MemContext)
    requires t.Wf() && d in t.Live()
    ensures d in Union(t, slots) <==>
              exists k {:trigger slots[k]} :: 0 <= k < |slots| && slots[k] != null && Below(t, slots[k], d)
  {
    if slots != [] {
      var n := |slots| - 1;
      UnionMember(t, slots[..n], d);
      if d in Union(t, slots) {
        if d in Union(t, slots[..n]) {
          var k :| 0 <= k < n && slots[..n][k] != null && Below(t, slots[..n][k], d);
          assert slots[k] == slots[..n][k];
        } else {
          assert slots[n] != null && Below(t, slots[n], d);
        }
      } else {
        assert forall k :: 0 <= k < n ==> slots[k] == slots[..n][k];
      }
    }
  }

  // The subtrees behind different slots are disjoint, lie strictly below `c`, and leave nothing of its subtree out.
  lemma UnionFacts(t: Tree<MemContext>, c: MemContext, slots: seq<MemContext?>, i: nat)
    requires t.Wf() && c in t.Live() && SlotsOf(t, c, slots) && i <= |slots|
    ensures Union(t, slots[..i]) <= Subtree(t, c) - {c}
    ensures DownClosed(t, Union(t, slots[..i])) && t.top !in Union(t, slots[..i])
    ensures i < |slots| && slots[i] != null ==> Union(t, slots[..i]) !! Subtree(t, slots[i])
    ensures i == |slots| ==> Union(t, slots[..i]) == Subtree(t, c) - {c}
  {
    forall d | d in Union(t, slots[..i]) ensures d in Subtree(t, c) - {c} && d != t.top {
      UnionMember(t, slots[..i], d);
      var k :| 0 <= k < i && slots[..i][k] != null && Below(t, slots[..i][k], d);
      ChildSubtree(t, c, slots[k]);
      BelowDepth(t, slots[k], d);
    }
    forall d | d in t.parent && t.parent[d] in Union(t, slots[..i]) ensures d in Union(t, slots[..i]) {
      UnionMember(t, slots[..i], t.parent[d]);
      var k :| 0 <= k < i && slots[..i][k] != null && Below(t, slots[..i][k], t.parent[d]);
      UnionMember(t, slots[..i], d);
    }
    if i < |slots| && slots[i] != null {
      forall d | d in Subtree(t, slots[i]) ensures d !in Union(t, slots[..i]) {
        UnionMember(t, slots[..i], d);
        if d in Union(t, slots[..i]) {
          var k :| 0 <= k < i && slots[..i][k] != null && Below(t, slots[..i][k], d);
          SiblingsApart(t, slots[k], slots[i], d);
        }
      }
    }
    if i == |slots| {
      assert slots[..i] == slots;
      forall d | d in Subtree(t, c) - {c} ensures d in Union(t, slots) {
        var x := BelowChild(t, c, d);
        assert ChildOf(t.parent, c, x);
        UnionMember(t, slots, d);
      }
    }
  }

  // ----- the order in which freeing visits contexts

  // No context comes after one of its descendants; in particular each comes once.
  ghost predicate ParentsFirst(t: Tree<MemContext>, s: seq<MemContext>)
    requires t.Wf()
  {
    && (forall i {:trigger s[i]} :: 0 <= i < |s| ==> s[i] in t.Live())
    && forall i, j {:trigger s[i], s[j]} :: 0 <= i < j < |s| ==> !Below(t, s[j], s[i])
  }

  ghost predicate ChildrenFirst(t: Tree<MemContext>, s: seq<MemContext>)
    requires t.Wf()
  {
    && (forall i {:trigger s[i]} :: 0 <= i < |s| ==> s[i] in t.Live())
    && forall i, j {:trigger s[i], s[j]} :: 0 <= i < j < |s| ==> !Below(t, s[i], s[j])
  }

  // Two runs over sets that are not below each other keep the order.
  lemma ParentsFirstJoin(t: Tree<MemContext>, a: seq<MemContext>, b: seq<MemContext>, sa: set<MemContext>,
                         sb: set<MemContext>)
    requires t.Wf() && ParentsFirst(t, a) && ParentsFirst(t, b)
    requires (forall x :: x in a ==> x in sa) && (forall x :: x in b ==> x in sb)
    requires sa !! sb && DownClosed(t, sb)
    ensures ParentsFirst(t, a + b)
  {
    forall i, j | 0 <= i < j < |a + b| ensures !Below(t, (a + b)[j], (a + b)[i]) {
      if i < |a| <= j && Below(t, b[j - |a|], a[i]) {
        assert a[i] in a && b[j - |a|] in b;
        ClosedBelow(t, sb, b[j - |a|], a[i]);
      }
    }
  }

  lemma ChildrenFirstJoin(t: Tree<MemContext>, a: seq<MemContext>, b: seq<MemContext>, sa: set<MemContext>,
                          sb: set<MemContext>)
    requires t.Wf() && ChildrenFirst(t, a) && ChildrenFirst(t, b)
    requires Elements(a) == sa && Elements(b) == sb && sa !! sb && DownClosed(t, sa)
    ensures ChildrenFirst(t, a + b) && Elements(a + b) == sa + sb
  {
    forall i, j | 0 <= i < j < |a + b| ensures !Below(t, (a + b)[i], (a + b)[j]) {
      if i < |a| <= j && Below(t, a[i], b[j - |a|]) {
        assert a[i] in a && b[j - |a|] in b;
        ClosedBelow(t, sa, a[i], b[j - |a|]);
      }
    }
  }

  lemma {:induction false} ClosedBelow(t: Tree<MemContext>, s: set<MemContext>, a: MemContext, d: MemContext)
    requires t.Wf() && DownClosed(t, s) && a in s && d in t.Live() && Below(t, a, d)
    ensures d in s
    decreases t.depth[d]
  {
    if d != a {
      ClosedBelow(t, s, a, t.parent[d]);
    }
  }

  ghost function RanEvents(s: seq<MemContext>): seq<Event> {
    seq(|s|, i requires 0 <= i < |s| => Ran(s[i]))
  }

  ghost function ReleasedEvents(s: seq<MemContext>): seq<Event> {
    seq(|s|, i requires 0 <= i < |s| => Released(s[i]))
  }

  lemma EventsJoin(before: seq<Event>, a: seq<MemContext>, b: seq<MemContext>)
    ensures before + RanEvents(a) + RanEvents(b) == before + RanEvents(a + b)
    ensures before + ReleasedEvents(a) + ReleasedEvents(b) == before + ReleasedEvents(a + b)
  {
    assert RanEvents(a + b) == RanEvents(a) + RanEvents(b);
    assert ReleasedEvents(a + b) == ReleasedEvents(a) + ReleasedEvents(b);
  }

  // ----- callbacks

  type Callbacks = map<MemContext, Option<Callback>>

  ghost function CallbacksOf(live: set<MemContext>): (callbacks: Callbacks)
    reads live
    ensures callbacks.Keys == live
  {
    map c | c in live :: c.callback
  }

  ghost predicate Throws(callbacks: Callbacks, c: MemContext) {
    c in callbacks && callbacks[c].Some? && callbacks[c].value.throws
  }

  // `ran` are the callbacks of the contexts in `s` that were run, all of them unless one threw, which is then the last.
  ghost predicate RunAll(before: Callbacks, after: Callbacks, s: set<MemContext>, ran: seq<MemContext>, thrown: bool) {
    && after.Keys == before.Keys && s <= before.Keys
    && (forall x {:trigger after[x]} :: x in before && x !in s ==> after[x] == before[x])
    && (forall i {:trigger ran[i]} :: 0 <= i < |ran| ==> ran[i] in s && before[ran[i]].Some?)
    && (forall i {:trigger ran[i]} :: 0 <= i < |ran| ==> (before[ran[i]].value.throws <==> thrown && i == |ran| - 1))
    && (thrown ==> ran != [])
    && (!thrown ==> forall x {:trigger after[x]} :: x in s ==> after[x] == None && (before[x].Some? ==> x in ran))
  }

  lemma RunAllJoin(b0: Callbacks, b1: Callbacks, b2: Callbacks, s1: set<MemContext>, s2: set<MemContext>,
                   r1: seq<MemContext>, r2: seq<MemContext>, thrown: bool)
    requires RunAll(b0, b1, s1, r1, false) && RunAll(b1, b2, s2, r2, thrown) && s1 !! s2
    ensures RunAll(b0, b2, s1 + s2, r1 + r2, thrown)
  {
    forall i | 0 <= i < |r1 + r2|
      ensures (r1 + r2)[i] in s1 + s2 && b0[(r1 + r2)[i]].Some?
      ensures b0[(r1 + r2)[i]].value.throws <==> thrown && i == |r1 + r2| - 1
    {
      if i >= |r1| {
        assert (r1 + r2)[i] == r2[i - |r1|];
        assert b1[r2[i - |r1|]] == b0[r2[i - |r1|]];
      } else {
        assert (r1 + r2)[i] == r1[i];
        if thrown && i == |r1 + r2| - 1 {
          assert false;
        }
      }
    }
    if !thrown {
      forall x | x in s1 + s2 ensures b2[x] == None && (b0[x].Some? ==> x in r1 + r2) {
        assert x in s2 ==> b1[x] == b0[x];
        assert x in s1 ==> b2[x] == b1[x];
      }
    }
  }

  // How far freeing has come with the callbacks: those of `s` have been run, in an order that puts parents first.
  ghost predicate Progress(t: Tree<MemContext>, before: Callbacks, now: Callbacks, s: set<MemContext>,
                           ran: seq<MemContext>, thrown: bool)
    requires t.Wf()
  {
    RunAll(before, now, s, ran, thrown) && ParentsFirst(t, ran)
  }

  lemma ProgressJoin(t: Tree<MemContext>, b0: Callbacks, b1: Callbacks, b2: Callbacks, s1: set<MemContext>,
                     s2: set<MemContext>, r1: seq<MemContext>, r2: seq<MemContext>, thrown: bool)
    requires t.Wf() && Progress(t, b0, b1, s1, r1, false) && Progress(t, b1, b2, s2, r2, thrown) && s1 !! s2
    requires DownClosed(t, s2)
    ensures Progress(t, b0, b2, s1 + s2, r1 + r2, thrown)
  {
    RunAllJoin(b0, b1, b2, s1, s2, r1, r2, thrown);
    ParentsFirstJoin(t, r1, r2, s1, s2);
  }

  lemma ProgressOne(t: Tree<MemContext>, before: Callbacks, now: Callbacks, c: MemContext)
    requires t.Wf() && c in t.Live() && before.Keys == now.Keys == t.Live()
    requires forall x {:trigger now[x]} :: x in before && x != c ==> now[x] == before[x]
    requires now[c] == if before[c].Some? && before[c].value.throws then before[c] else None
    ensures Progress(t, before, now, {c}, if before[c].Some? then [c] else [],
              before[c].Some? && before[c].value.throws)
  {
    var ran := if before[c].Some? then [c] else [];
    assert ParentsFirst(t, ran);
    RunAllOne(before, now, c);
  }

  lemma RunAllOne(before: Callbacks, now: Callbacks, c: MemContext)
    requires c in before && before.Keys == now.Keys
    requires forall x {:trigger now[x]} :: x in before && x != c ==> now[x] == before[x]
    requires now[c] == if before[c].Some? && before[c].value.throws then before[c] else None
    ensures RunAll(before, now, {c}, if before[c].Some? then [c] else [], before[c].Some? && before[c].value.throws)
  {
  }

  // After an error, nothing is promised of the callbacks not reached.
  lemma ProgressWiden(t: Tree<MemContext>, before: Callbacks, now: Callbacks, s: set<MemContext>, wide: set<MemContext>,
                      ran: seq<MemContext>)
    requires t.Wf() && Progress(t, before, now, s, ran, true) && s <= wide <= now.Keys
    ensures Progress(t, before, now, wide, ran, true)
  {
  }

  // An error comes out exactly when some callback below throws.
  lemma RunAllThrows(before: Callbacks, after: Callbacks, s: set<MemContext>, ran: seq<MemContext>, thrown: bool)
    requires RunAll(before, after, s, ran, thrown)
    ensures thrown <==> exists x :: x in s && Throws(before, x)
  {
    if thrown {
      var x := ran[|ran| - 1];
      assert x in s && Throws(before, x);
    }
    if !thrown {
      forall x | x in s ensures !Throws(before, x) {
        assert after[x] == None;
        if before[x].Some? {
          var i :| 0 <= i < |ran| && ran[i] == x;
        }
      }
    }
  }

  // ----- the events of a clean, which frees one subtree after another

  // The contexts in `gone` and no others were released, each once and none before what is below it, and of those the
  // ones with a callback had it run, once and before they were released.
  ghost predicate Freed(t: Tree<MemContext>, b: Callbacks, gone: set<MemContext>, more: seq<Event>)
    requires t.Wf()
  {
    && gone <= t.Live() && gone <= b.Keys
    && (forall e {:trigger e in more} :: e in more ==> e.c in gone && (e.Ran? ==> b[e.c].Some?))
    && (forall x {:trigger Released(x)} {:trigger Ran(x)} :: x in gone ==>
         Released(x) in more && (b[x].Some? ==> Ran(x) in more))
    && forall i, j {:trigger more[i], more[j]} :: 0 <= i < j < |more| ==> InOrder(t, gone, more[i], more[j])
  }

  ghost predicate InOrder(t: Tree<MemContext>, gone: set<MemContext>, e: Event, f: Event)
    requires t.Wf() && gone <= t.Live()
  {
    && e != f
    && (e.Released? ==> f.c != e.c)
    && (e.Released? && f.Released? && f.c in gone ==> !Below(t, e.c, f.c))
  }

  lemma FreedNone(t: Tree<MemContext>, b: Callbacks)
    requires t.Wf()
    ensures Freed(t, b, {}, [])
  {
  }

  // The events of freeing one subtree.
  lemma FreedSubtree(t: Tree<MemContext>, b: Callbacks, after: Callbacks, s: set<MemContext>, ran: seq<MemContext>,
                     freed: seq<MemContext>)
    requires t.Wf() && b.Keys == t.Live() && s <= t.Live() && Progress(t, b, after, s, ran, false)
    requires ChildrenFirst(t, freed) && Elements(freed) == s
    ensures Freed(t, b, s, RanEvents(ran) + ReleasedEvents(freed))
  {
    var more := RanEvents(ran) + ReleasedEvents(freed);
    hide Below, Tree.Wf;
    forall i, j | 0 <= i < j < |more|
      ensures InOrder(t, s, more[i], more[j])
    {
      SubtreeOrder(t, s, ran, freed, i, j);
    }
    hide InOrder;
    FreedEvents(b, after, s, ran, freed);
  }

  lemma SubtreeOrder(t: Tree<MemContext>, s: set<MemContext>, ran: seq<MemContext>, freed: seq<MemContext>, i: nat,
                     j: nat)
    requires t.Wf() && s <= t.Live() && ParentsFirst(t, ran) && ChildrenFirst(t, freed) && i < j < |ran| + |freed|
    ensures InOrder(t, s, (RanEvents(ran) + ReleasedEvents(freed))[i], (RanEvents(ran) + ReleasedEvents(freed))[j])
  {
  }

  lemma FreedEvents(b: Callbacks, after: Callbacks, s: set<MemContext>, ran: seq<MemContext>, freed: seq<MemContext>)
    requires RunAll(b, after, s, ran, false) && Elements(freed) == s
    ensures
      var more := RanEvents(ran) + ReleasedEvents(freed);
      && (forall e {:trigger e in more} :: e in more ==> e.c in s && (e.Ran? ==> b[e.c].Some?))
      && (forall x {:trigger Released(x)} {:trigger Ran(x)} :: x in s ==>
           Released(x) in more && (b[x].Some? ==> Ran(x) in more))
  {
    var more := RanEvents(ran) + ReleasedEvents(freed);
    forall e | e in more
      ensures e.c in s && (e.Ran? ==> b[e.c].Some?)
    {
      var i :| 0 <= i < |more| && more[i] == e;
      assert i >= |ran| ==> freed[i - |ran|] in Elements(freed);
    }
    forall x | x in s
      ensures Released(x) in more && (b[x].Some? ==> Ran(x) in more)
    {
      var i :| 0 <= i < |freed| && freed[i] == x;
      assert more[|ran| + i] == Released(x);
      if b[x].Some? {
        var j :| 0 <= j < |ran| && ran[j] == x;
        assert more[j] == Ran(x);
      }
    }
  }

  // Freeing goes on in what is left of the tree.
  lemma FreedJoin(t: Tree<MemContext>, b: Callbacks, gone: set<MemContext>, more: seq<Event>,
                  b': Callbacks, gone': set<MemContext>, more': seq<Event>)
    requires t.Wf() && DownClosed(t, gone) && t.top !in gone && Freed(t, b, gone, more)
    requires Drop(t, gone).Wf() && Freed(Drop(t, gone), b', gone', more')
    requires forall x {:trigger b'[x]} :: x in b' ==> x in b && b'[x] == b[x]
    ensures Freed(t, b, gone + gone', more + more')
  {
    hide InOrder;
    DropWf(t, gone);
    var all := more + more';
    forall i, j | 0 <= i < j < |all|
      ensures InOrder(t, gone + gone', all[i], all[j])
    {
      if j < |more| {
        assert more[j] in more;
        OrderWider(t, gone, gone', more[i], more[j]);
      } else if i < |more| {
        assert more[i] in more && more'[j - |more|] in more';
        OrderAcross(t, gone, gone', more[i], more'[j - |more|]);
      } else {
        assert more'[j - |more|] in more';
        OrderLift(t, gone, gone', more'[i - |more|], more'[j - |more|]);
      }
    }
  }

  lemma OrderWider(t: Tree<MemContext>, gone: set<MemContext>, gone': set<MemContext>, e: Event, f: Event)
    requires t.Wf() && gone + gone' <= t.Live() && InOrder(t, gone, e, f) && f.c in gone
    ensures InOrder(t, gone + gone', e, f)
  {
  }

  lemma OrderAcross(t: Tree<MemContext>, gone: set<MemContext>, gone': set<MemContext>, e: Event, f: Event)
    requires t.Wf() && gone + gone' <= t.Live() && DownClosed(t, gone) && gone !! gone' && e.c in gone && f.c in gone'
    ensures InOrder(t, gone + gone', e, f)
  {
    if Below(t, e.c, f.c) {
      ClosedBelow(t, gone, e.c, f.c);
    }
  }

  lemma OrderLift(t: Tree<MemContext>, gone: set<MemContext>, gone': set<MemContext>, e: Event, f: Event)
    requires t.Wf() && DownClosed(t, gone) && t.top !in gone && Drop(t, gone).Wf()
    requires gone <= t.Live() && gone' <= Drop(t, gone).Live() <= t.Live() && InOrder(Drop(t, gone), gone', e, f)
    requires f.c in gone'
    ensures InOrder(t, gone + gone', e, f)
  {
    DropBelow(t, gone, e.c, f.c);
  }

  // `t` is what is left of `t0` after the events so far.
  ghost predicate Shrunk(t0: Tree<MemContext>, t: Tree<MemContext>, b0: Callbacks, more: seq<Event>) {
    && t0.Wf() && t.Wf() && b0.Keys == t0.Live()
    && var gone := t0.Live() - t.Live();
       && t0.top !in gone && DownClosed(t0, gone) && t == Drop(t0, gone)
       && Freed(t0, b0, gone, more)
  }

  lemma ShrunkStart(t: Tree<MemContext>, b: Callbacks)
    requires t.Wf() && b.Keys == t.Live()
    ensures Shrunk(t, t, b, [])
  {
    assert t.Live() - t.Live() == {};
    assert Drop(t, {}) == t;
    FreedNone(t, b);
  }

  lemma ShrunkStep(t0: Tree<MemContext>, t: Tree<MemContext>, b0: Callbacks, more: seq<Event>, c: MemContext,
                   b: Callbacks, more': seq<Event>)
    requires Shrunk(t0, t, b0, more) && c in t.parent
    requires Freed(t, b, Subtree(t, c), more') && forall x {:trigger b[x]} :: x in b ==> x in b0 && b[x] == b0[x]
    ensures Shrunk(t0, Prune(t, c), b0, more + more')
  {
    hide Freed;
    var gone := t0.Live() - t.Live();
    PruneWf(t, c);
    SubtreeClosed(t, c);
    FreedJoin(t0, b0, gone, more, b, Subtree(t, c), more');
    DropDrop(t0, gone, Subtree(t, c));
    assert t0.Live() - Prune(t, c).Live() == gone + Subtree(t, c);
  }

  // ----- what freeing does to the links, as values

  lemma AloneRepresents(nodes: Nodes, top: MemContext)
    requires nodes.Keys == {top} && nodes[top].Childless()
    ensures Represents(nodes, map[])
  {
  }

  // The slots below `i` have been freed.
  ghost predicate Cleared(n0: Node, n: Node, i: nat) {
    && n.childQty == n0.childQty && n.childInitialized == n0.childInitialized && n.SameParent(n0)
    && |Slots(n)| == |Slots(n0)| && i <= |Slots(n0)|
    && forall k {:trigger Slots(n)[k]} :: 0 <= k < |Slots(n)| ==> Slots(n)[k] == if k < i then null else Slots(n0)[k]
  }

  // The parent gives up the slot at `idx` and looks there first the next time.
  ghost function Unlinked(n: Node, idx: nat): Node {
    if n.childQty.QtyOne? then n.(childOne := null)
    else if idx < |n.childList| then
      n.(childList := n.childList[idx := null], childFreeIdx := if idx < n.childFreeIdx then idx else n.childFreeIdx)
    else n
  }

  // The links that remain after freeing `c`: only its parent's slot has changed. The top context starts over empty.
  ghost function FreedNodes(nodes: Nodes, t: Tree<MemContext>, c: MemContext): Nodes
    requires t.Wf() && nodes.Keys == t.Live() && c in t.Live()
  {
    if c == t.top then
         map[c := Node(nodes[c].childQty, false, null, [], 0, nodes[c].contextParent, nodes[c].contextParentIdx)]
    else (nodes - Subtree(t, c))[t.parent[c] := Unlinked(nodes[t.parent[c]], nodes[c].contextParentIdx)]
  }

  // The turn for slot `i`: the tree loses the subtree behind the slot ...
  lemma FreedSlotTree(t0: Tree<MemContext>, t: Tree<MemContext>, c: MemContext, slots: seq<MemContext?>, i: nat)
    requires t0.Wf() && c in t0.Live() && SlotsOf(t0, c, slots) && i < |slots| && slots[i] != null
    requires t == Drop(t0, Union(t0, slots[..i]))
    ensures t.Wf() && t.Live() == t0.Live() - Union(t0, slots[..i]) && t.top == t0.top
    ensures slots[i] in t.parent && t.parent[slots[i]] == c && slots[i] !in Union(t0, slots[..i])
    ensures Subtree(t, slots[i]) == Subtree(t0, slots[i])
    ensures Prune(t, slots[i]) == Drop(t0, Union(t0, slots[..i + 1]))
  {
    UnionFacts(t0, c, slots, i);
    SlotFacts(t0, c, slots, i);
    DropPrune(t0, Union(t0, slots[..i]), slots[i]);
    DropWf(t0, Union(t0, slots[..i]));
  }

  // ... `c` loses the slot ...
  lemma FreedSlotCleared(nodes: Nodes, t: Tree<MemContext>, c: MemContext, n0: Node, i: nat, x: MemContext)
    requires Represents(nodes, t.parent) && x in t.parent && t.parent[x] == c
    requires Cleared(n0, nodes[c], i) && i < |Slots(n0)| && Slots(n0)[i] == x
    ensures Cleared(n0, Unlinked(nodes[c], nodes[x].contextParentIdx), i + 1)
  {
    assert Slotted(nodes, t.parent, c) && Linked(nodes, c, x);
    assert Slots(nodes[c])[i] == x;
  }

  ghost function ParentOf(t: Tree<MemContext>, c: MemContext): set<MemContext> {
    if c in t.parent then {t.parent[c]} else {}
  }

  lemma PrunedLive(t: Tree<MemContext>, c: MemContext)
    requires t.Wf() && c in t.parent
    ensures Prune(t, c).Live() == t.Live() - Subtree(t, c)
  {
    PruneWf(t, c);
    TopAbove(t, c);
  }

  lemma ParentLive(t: Tree<MemContext>, c: MemContext)
    requires t.Wf() && c in t.Live()
    ensures ParentOf(t, c) <= t.Live()
  {
  }

  lemma FreedSelfNodes(nodes0: Nodes, nodes: Nodes, t0: Tree<MemContext>, c: MemContext, n: Node)
    requires t0.Wf() && c in t0.parent && nodes0.Keys == t0.Live() && c != t0.top && t0.parent[c] !in Subtree(t0, c)
    requires nodes == (nodes0 - (Subtree(t0, c) - {c}))[c := n] && n.SameParent(nodes0[c])
    ensures t0.parent[c] in nodes
    ensures FreedNodes(nodes0, t0, c)
              == (nodes - {c})[t0.parent[c] := Unlinked(nodes[t0.parent[c]], n.contextParentIdx)]
  {
    assert nodes - {c} == nodes0 - Subtree(t0, c);
  }

  lemma ReleaseSelf(t: Tree<MemContext>, before: seq<Event>, sofar: seq<MemContext>, c: MemContext)
    requires t.Wf() && c in t.Live() && ChildrenFirst(t, sofar) && Elements(sofar) == Subtree(t, c) - {c}
    ensures ChildrenFirst(t, sofar + [c]) && Elements(sofar + [c]) == Subtree(t, c)
    ensures before + ReleasedEvents(sofar) + [Released(c)] == before + ReleasedEvents(sofar + [c])
  {
    EventsJoin(before, sofar, [c]);
    assert ReleasedEvents([c]) == [Released(c)];
    assert Elements(sofar + [c]) == Elements(sofar) + {c};
    forall i | 0 <= i < |sofar| ensures !Below(t, sofar[i], c) {
      assert sofar[i] in Elements(sofar);
      if Below(t, sofar[i], c) {
        BelowAntisymmetric(t, sofar[i], c);
      }
    }
  }

  // The subtrees behind the slots before `i` are gone, and so are those slots of `c`.
  ghost predicate FreeingAt(t0: Tree<MemContext>, nodes0: Nodes, slots: seq<MemContext?>, t: Tree<MemContext>,
                            nodes: Nodes, c: MemContext, n: Node, i: nat)
    requires t0.Wf() && c in nodes0 && i <= |slots|
  {
    && t == Drop(t0, Union(t0, slots[..i]))
    && nodes == (nodes0 - Union(t0, slots[..i]))[c := n]
    && Cleared(nodes0[c], n, i)
  }

  lemma FreeingStart(t0: Tree<MemContext>, nodes0: Nodes, c: MemContext)
    requires t0.Wf() && c in nodes0
    ensures FreeingAt(t0, nodes0, Slots(nodes0[c]), t0, nodes0, c, nodes0[c], 0)
    ensures nodes0[c].Shaped() && !nodes0[c].childInitialized && Union(t0, Slots(nodes0[c])) == {} ==>
              FreeingAt(t0, nodes0, Slots(nodes0[c]), t0, nodes0, c, nodes0[c], |Slots(nodes0[c])|)
    ensures ChildrenFirst(t0, []) && Elements([]) == {} && ReleasedEvents([]) == []
  {
    var slots := Slots(nodes0[c]);
    assert slots[..|slots|] == slots;
    assert Drop(t0, {}) == t0;
  }

  lemma TopAbove(t: Tree<MemContext>, x: MemContext)
    requires t.Wf() && x in t.parent
    ensures t.top !in Subtree(t, x)
  {
  }

  lemma FreeingSlot(t0: Tree<MemContext>, nodes0: Nodes, slots: seq<MemContext?>, t: Tree<MemContext>, nodes: Nodes,
                    c: MemContext, n: Node, i: nat)
    requires t0.Wf() && c in t0.Live() && nodes0.Keys == t0.Live() && slots == Slots(nodes0[c])
    requires SlotsOf(t0, c, slots) && i < |slots| && FreeingAt(t0, nodes0, slots, t, nodes, c, n, i)
    ensures i < |Slots(n)| && Slots(n)[i] == slots[i] && n.childQty == nodes0[c].childQty
    ensures t.Wf() && t.top == t0.top && t == Drop(t0, Union(t0, slots[..i]))
    ensures slots[i] != null ==>
              && slots[i] in t.Live() && ParentOf(t, slots[i]) == {c} && Subtree(t, slots[i]) == Subtree(t0, slots[i])
              && Subtree(t, slots[i]) <= Subtree(t0, c) && c !in Subtree(t, slots[i]) && c in Subtree(t0, c)
              && Subtree(t, slots[i]) - {t0.top} == Subtree(t0, slots[i])
  {
    SlotFacts(t0, c, slots, i);
    UnionFacts(t0, c, slots, i);
    DropWf(t0, Union(t0, slots[..i]));
    if slots[i] != null {
      FreedSlotTree(t0, t, c, slots, i);
      TopAbove(t0, slots[i]);
    }
  }

  lemma FreeingStep(t0: Tree<MemContext>, nodes0: Nodes, slots: seq<MemContext?>, t: Tree<MemContext>, nodes: Nodes,
                    c: MemContext, n: Node, i: nat)
    requires t0.Wf() && c in t0.Live() && nodes0.Keys == t0.Live() && slots == Slots(nodes0[c])
    requires SlotsOf(t0, c, slots) && i < |slots| && slots[i] != null && FreeingAt(t0, nodes0, slots, t, nodes, c, n, i)
    requires t.Wf() && nodes.Keys == t.Live() && slots[i] in nodes && Represents(nodes, t.parent)
    ensures var nodes' := FreedNodes(nodes, t, slots[i]);
            c in nodes' && FreeingAt(t0, nodes0, slots, Prune(t, slots[i]), nodes', c, nodes'[c], i + 1)
            && |Slots(nodes'[c])| == |slots|
  {
    var x, done := slots[i], Union(t0, slots[..i]);
    SlotFacts(t0, c, slots, i);
    UnionFacts(t0, c, slots, i);
    FreedSlotTree(t0, t, c, slots, i);
    FreedSlotNodes(nodes0, nodes, t, c, n, done, x);
    FreedSlotCleared(nodes, t, c, nodes0[c], i, x);
    assert done + Subtree(t0, x) == Union(t0, slots[..i + 1]);
  }

  lemma FreeingSkip(t0: Tree<MemContext>, nodes0: Nodes, slots: seq<MemContext?>, t: Tree<MemContext>, nodes: Nodes,
                    c: MemContext, n: Node, i: nat)
    requires t0.Wf() && c in t0.Live() && nodes0.Keys == t0.Live() && slots == Slots(nodes0[c])
    requires SlotsOf(t0, c, slots) && i < |slots| && slots[i] == null && FreeingAt(t0, nodes0, slots, t, nodes, c, n, i)
    ensures FreeingAt(t0, nodes0, slots, t, nodes, c, n, i + 1)
    ensures Union(t0, slots[..i + 1]) == Union(t0, slots[..i])
  {
    SlotFacts(t0, c, slots, i);
  }

  lemma FreeingOrder(t0: Tree<MemContext>, c: MemContext, slots: seq<MemContext?>, i: nat, before: seq<Event>,
                     sofar: seq<MemContext>, freed: seq<MemContext>)
    requires t0.Wf() && c in t0.Live() && SlotsOf(t0, c, slots) && i < |slots| && slots[i] != null
    requires ChildrenFirst(t0, sofar) && Elements(sofar) == Union(t0, slots[..i])
    requires Drop(t0, Union(t0, slots[..i])).Wf() && ChildrenFirst(Drop(t0, Union(t0, slots[..i])), freed)
    requires Elements(freed) == Subtree(t0, slots[i])
    ensures ChildrenFirst(t0, sofar + freed) && Elements(sofar + freed) == Union(t0, slots[..i + 1])
    ensures before + ReleasedEvents(sofar) + ReleasedEvents(freed) == before + ReleasedEvents(sofar + freed)
  {
    SlotFacts(t0, c, slots, i);
    UnionFacts(t0, c, slots, i);
    ChildrenFirstLift(t0, Union(t0, slots[..i]), freed);
    ChildrenFirstJoin(t0, sofar, freed, Union(t0, slots[..i]), Subtree(t0, slots[i]));
    EventsJoin(before, sofar, freed);
  }

  // ... and nothing else changes.
  lemma FreedSlotNodes(nodes0: Nodes, nodes: Nodes, t: Tree<MemContext>, c: MemContext, n: Node,
                       done: set<MemContext>, x: MemContext)
    requires t.Wf() && nodes.Keys == t.Live() && x in t.parent && t.parent[x] == c && c in nodes0 && x in nodes0
    requires c !in Subtree(t, x) && c !in done
    requires nodes == (nodes0 - done)[c := n]
    ensures FreedNodes(nodes, t, x) == (nodes0 - (done + Subtree(t, x)))[c := Unlinked(n, nodes0[x].contextParentIdx)]
    ensures nodes[x] == nodes0[x]
  {
    assert x in nodes && x != c;
  }

  // When every slot is clear, `c` has no child left and can go: what is left is the pruned tree.
  lemma FreedLast(nodes0: Nodes, nodes: Nodes, t0: Tree<MemContext>, t: Tree<MemContext>, c: MemContext, n: Node)
    requires t0.Wf() && c in t0.Live() && nodes0.Keys == t0.Live()
    requires t == Drop(t0, Subtree(t0, c) - {c}) && nodes == (nodes0 - (Subtree(t0, c) - {c}))[c := n]
    ensures t.Wf() && t.top == t0.top && nodes.Keys == t.Live() && c in t.Live() && c !in t.parent.Values
    ensures c != t0.top ==> c in t.parent && t.parent[c] == t0.parent[c] && nodes[t0.parent[c]] == nodes0[t0.parent[c]]
    ensures c != t0.top ==> Drop(t, {c}) == Prune(t0, c) && DownClosed(t, {c})
    ensures c != t0.top ==> t0.parent[c] !in Subtree(t0, c) && Subtree(t0, c) - {t0.top} == Subtree(t0, c)
    ensures c == t0.top ==> t == Prune(t0, c) && t.parent == map[] && t.Live() == {c}
  {
    var s := Subtree(t0, c) - {c};
    InnerClosed(t0, c);
    hide Subtree, Below;
    DropWf(t0, s);
    assert c !in t.parent.Values;
    if c != t0.top {
      DropDrop(t0, s, {c});
      assert s + {c} == Subtree(t0, c);
    } else {
      FreedTop(t0, t);
    }
  }

  // What is below a context, without the context itself
  lemma InnerClosed(t0: Tree<MemContext>, c: MemContext)
    requires t0.Wf() && c in t0.Live()
    ensures c in Subtree(t0, c) && DownClosed(t0, Subtree(t0, c) - {c}) && t0.top !in Subtree(t0, c) - {c}
    ensures forall d :: d in t0.parent && t0.parent[d] == c ==> d in Subtree(t0, c) - {c}
    ensures c != t0.top ==> t0.parent[c] !in Subtree(t0, c) && t0.top !in Subtree(t0, c)
  {
    BelowDepths(t0, c);
    forall d | d in t0.parent && t0.parent[d] in Subtree(t0, c)
      ensures d in Subtree(t0, c) - {c}
    {
      assert Below(t0, c, d);
    }
  }

  lemma FreedTop(t0: Tree<MemContext>, t: Tree<MemContext>)
    requires t0.Wf() && t == Drop(t0, Subtree(t0, t0.top) - {t0.top})
    ensures t == Prune(t0, t0.top) && t.parent == map[] && t.Live() == {t0.top}
  {
    var s := Subtree(t0, t0.top) - {t0.top};
    forall d | d in t0.Live() ensures d in Subtree(t0, t0.top) {
      AllBelowTop(t0, d);
    }
    assert t.parent == map[];
    assert Drop(t0, s) == Drop(t0, Subtree(t0, t0.top));
  }

  // Unlinking a childless context from its parent.
  lemma UnlinkRepresents(nodes: Nodes, t: Tree<MemContext>, c: MemContext)
    requires t.Wf() && Represents(nodes, t.parent) && nodes.Keys == t.Live()
    requires c in t.parent && c !in t.parent.Values
    ensures var p := t.parent[c];
            var np := Unlinked(nodes[p], nodes[c].contextParentIdx);
            && p != c && Linked(nodes, p, c) && !nodes[p].childQty.QtyNone? && nodes[p].Shaped()
            && (nodes[p].childQty.QtyMany? ==> nodes[c].contextParentIdx < |nodes[p].childList|)
            && Represents((nodes - {c})[p := np], Drop(t, {c}).parent)
  {
    var p := t.parent[c];
    var np := Unlinked(nodes[p], nodes[c].contextParentIdx);
    assert Linked(nodes, p, c) && Slotted(nodes, t.parent, p);
    assert t.depth[c] == t.depth[p] + 1;
    DetachRepresents(nodes, t.parent, c, np);
    var left := t.parent - {c};
    assert left == Drop(t, {c}).parent;
    assert c !in left.Values by {
      forall d | d in left ensures left[d] != c {
        assert t.parent[d] in t.parent.Values;
      }
    }
    RemoveRepresents(nodes[p := np], left, c);
    assert nodes[p := np] - {c} == (nodes - {c})[p := np];
  }

  lemma UnlinkShape(nodes: Nodes, t: Tree<MemContext>, c: MemContext, p: MemContext, np: Node)
    requires t.Wf() && c in t.parent && c !in t.parent.Values && p != c
    ensures (nodes - {c})[p := np] == nodes[p := np] - {c}
    ensures Drop(t, {c}).Wf() && Drop(t, {c}).top == t.top && Drop(t, {c}).Live() == t.Live() - {c}
  {
    forall d | d in t.parent ensures t.parent[d] != c {
      assert t.parent[d] in t.parent.Values;
    }
    DropWf(t, {c});
  }

  lemma CallbackAt(live: set<MemContext>, c: MemContext)
    requires c in live
    ensures CallbacksOf(live)[c] == c.callback
  {
  }

  lemma CallbacksMinus(live: set<MemContext>, s: set<MemContext>)
    ensures CallbacksOf(live - s) == CallbacksOf(live) - s
  {
  }

  lemma CallbacksRest(b: Callbacks, live: set<MemContext>, s: set<MemContext>)
    ensures b - (live - (live - s)) == b - (live * s)
    ensures b.Keys == live ==> b - (live * s) == b - s
  {
  }

  lemma ProgressThrows(t: Tree<MemContext>, before: Callbacks, now: Callbacks, s: set<MemContext>,
                       ran: seq<MemContext>, thrown: bool)
    requires t.Wf() && Progress(t, before, now, s, ran, thrown)
    ensures thrown <==> exists x :: x in s && Throws(before, x)
    ensures now - s == before - s
  {
    RunAllThrows(before, now, s, ran, thrown);
  }

  lemma MoveDetached(nodes: Nodes, t: Tree<MemContext>, c: MemContext, np: Node)
    requires t.Wf() && Represents(nodes, t.parent) && c in t.parent
    requires Gave(nodes[t.parent[c]], np, nodes[c].contextParentIdx)
    ensures t.parent[c] != c && Represents(nodes[t.parent[c] := np], t.parent - {c})
  {
    assert t.depth[c] == t.depth[t.parent[c]] + 1;
    DetachRepresents(nodes, t.parent, c, np);
  }

  lemma MoveAttached(nodes: Nodes, links: map<MemContext, MemContext>, c: MemContext, nc: Node, p: MemContext, np: Node)
    requires Represents(nodes, links - {c}) && c in nodes && p in nodes && p != c
    requires nc == nodes[c].(contextParentIdx := nc.contextParentIdx) && Took(nodes[p], np, c, nc.contextParentIdx)
    ensures Represents(nodes[c := nc][p := np][c := nc.(contextParent := p)], links[c := p])
  {
    AttachRepresents(nodes, links - {c}, c, nc.(contextParent := p), p, np);
    assert nodes[c := nc][p := np][c := nc.(contextParent := p)] == nodes[c := nc.(contextParent := p)][p := np];
    assert (links - {c})[c := p] == links[c := p];
  }

  // The order of release, seen from the tree as it was before.
  lemma ChildrenFirstLift(t0: Tree<MemContext>, done: set<MemContext>, s: seq<MemContext>)
    requires t0.Wf() && DownClosed(t0, done) && t0.top !in done && Drop(t0, done).Wf()
    requires ChildrenFirst(Drop(t0, done), s)
    ensures ChildrenFirst(t0, s)
  {
    forall i, j | 0 <= i < j < |s| ensures s[i] in t0.Live() && s[j] in t0.Live() && !Below(t0, s[i], s[j]) {
      DropBelow(t0, done, s[i], s[j]);
    }
    forall i | 0 <= i < |s| ensures s[i] in t0.Live() {
    }
  }

  ghost function Elements(s: seq<MemContext>): set<MemContext> {
    set x | x in s
  }

  class MemContextManager {
    const top: MemContext
    const stack: array<Entry<MemContext>>
    var currentStackIdx: nat
    var maxStackIdx: nat
    // Number of open try blocks, kept by the error handler.
    var tryTotal: nat

    ghost var tree: Tree<MemContext>
    ghost var events: seq<Event>

    // The pointers on the heap describe `tree`.
    ghost predicate Sound()
      reads this, tree.Live()
    {
      && tree.top == top
      && tree.Wf()
      && top.contextParent == null
      && Represents(NodesOf(tree.Live()), tree.parent)
    }

    ghost predicate Valid()
      reads this, stack, tree.Live()
    {
      && stack.Length == STACK_MAX
      && currentStackIdx <= maxStackIdx < STACK_MAX
      && Sound()
      && Based(View())
    }

    // The used part of the stack.
    ghost function Entries(): (entries: seq<Entry<MemContext>>)
      requires maxStackIdx < stack.Length
      reads `maxStackIdx, stack
      ensures |entries| == maxStackIdx + 1
    {
      stack[..maxStackIdx + 1]
    }

    ghost function View(): Machine<MemContext>
      requires maxStackIdx < stack.Length
      reads this, stack
    {
      Machine(tree, Entries(), currentStackIdx, tryTotal)
    }

    // A valid manager whose stack names only live contexts, in an order that is safe to free.
    ghost predicate Ready()
      reads this, stack, tree.Live()
    {
      Valid() && Safe(View())
    }

    constructor ()
      ensures Ready() && fresh(stack) && fresh(top)
      ensures View() == Machine(Root(top), [Entry(top, Kind.Switch, 0)], 0, 0) && events == []
    {
      var t := new MemContext(QtyMany, QtyMany, QtyNone, null);
      top := t;
      stack := new Entry<MemContext>[STACK_MAX](_ => Entry(t, Kind.Switch, 0));
      currentStackIdx, maxStackIdx, tryTotal := 0, 0, 0;
      tree, events := Root(t), [];
    }

    function Current(): (c: MemContext)
      requires Valid()
      reads this, stack, tree.Live()
      ensures c == CurrentContext(View())
    {
      stack[currentStackIdx].context
    }

    method Push(c: MemContext, kind: Kind)
      requires Valid() && maxStackIdx + 1 < STACK_MAX
      modifies this`maxStackIdx, stack
      ensures Valid()
      ensures View() == old(View()).(entries := old(View()).entries + [Entry(c, kind, tryTotal)])
    {
      hide Represents, NodesOf, Tree.Wf;
      ghost var entries := stack[..maxStackIdx + 1];
      maxStackIdx := maxStackIdx + 1;
      stack[maxStackIdx] := Entry(c, kind, tryTotal);
      assert stack[..maxStackIdx + 1] == entries + [Entry(c, kind, tryTotal)];
    }

    // Give `c` a slot in `parent`.
    method Link(c: MemContext, parent: MemContext, advance: bool)
      requires tree.Wf() && Represents(NodesOf(tree.Live()), tree.parent)
      requires parent in tree.Live() && c !in tree.parent && c != parent
      requires c !in tree.Live() ==> c.Links().Childless()
      requires c.contextParent == parent
      requires !parent.childQty.QtyNone? && (parent.childQty.QtyOne? ==> parent.childOne == null)
      modifies parent`childInitialized, parent`childOne, parent`childList, parent`childFreeIdx, c`contextParentIdx
      ensures Represents(NodesOf(tree.Live() + {c}), tree.parent[c := parent])
      ensures parent.childQty.QtyMany? ==>
                && c.contextParentIdx < |parent.childList|
                && parent.childFreeIdx == c.contextParentIdx + if advance then 1 else 0
    {
      hide Represents, Slotted, Linked, Took, NodesOf, Tree.Wf;
      ghost var live, nodes := tree.Live(), NodesOf(tree.Live());
      RepresentsAt(nodes, tree.parent, parent);
      NodeAt(live, parent);
      if c in live {
        NodeAt(live, c);
      }
      ghost var nc, np := PlaceIn(c, parent, advance, live);
      AttachRepresents(nodes, tree.parent, c, nc, parent, np);
    }

    // Take the slot; every other context keeps its links.
    method PlaceIn(c: MemContext, parent: MemContext, advance: bool, ghost live: set<MemContext>)
      returns (ghost nc: Node, ghost np: Node)
      requires parent in live && c != parent && parent.Links().Shaped()
      requires !parent.childQty.QtyNone? && (parent.childQty.QtyOne? ==> parent.childOne == null)
      modifies parent`childInitialized, parent`childOne, parent`childList, parent`childFreeIdx, c`contextParentIdx
      ensures nc == c.Links() && np == parent.Links()
      ensures NodesOf(live + {c}) == old(NodesOf(live))[c := nc][parent := np]
      ensures nc == old(c.Links()).(contextParentIdx := nc.contextParentIdx)
      ensures Took(old(parent.Links()), np, c, nc.contextParentIdx)
      ensures parent.childQty.QtyMany? ==>
                && nc.contextParentIdx < |np.childList|
                && np.childFreeIdx == nc.contextParentIdx + if advance then 1 else 0
    {
      hide Took;
      ghost var nodes := NodesOf(live);
      parent.TakeSlot(c, advance);
      nc, np := c.Links(), parent.Links();
      ghost var nodes': Nodes := nodes[c := nc];
      nodes' := nodes'[parent := np];
      assert NodesOf(live + {c}).Keys == nodes'.Keys;
      assert NodesOf(live + {c}) == nodes';
    }

    // Create a context below the current one. The caller must have room for it there and on the stack.
    method New(childQty: Qty, allocQty: Qty, callbackQty: Qty) returns (c: MemContext)
      requires Ready() && maxStackIdx + 1 < STACK_MAX
      requires !Current().childQty.QtyNone? && (Current().childQty.QtyOne? ==> Current().childOne == null)
      modifies this`maxStackIdx, this`tree, stack
      modifies Current()`childInitialized, Current()`childOne, Current()`childList, Current()`childFreeIdx
      ensures Ready() && fresh(c)
      ensures View() == DoNew(old(View()), c)
      ensures c.childQty == childQty && c.allocQty == allocQty && c.callbackQty == callbackQty && c.callback == None
      ensures old(Current()).childQty.QtyMany? ==> c.contextParentIdx + 1 == old(Current()).childFreeIdx
    {
      hide Safe, Represents, NodesOf, Add, Tree.Wf, Entries;
      ghost var live, m := tree.Live(), View();
      SafeCurrent(m);
      var parent := Current();
      c := new MemContext(childQty, allocQty, callbackQty, parent);
      assert c !in live;
      Track(c, parent);
    }

    // Give a context just created its slot, and add it to the stack so it will be freed on error unless it is kept.
    method Track(c: MemContext, parent: MemContext)
      requires Ready() && maxStackIdx + 1 < STACK_MAX && c !in tree.Live() && parent == Current()
      requires parent in tree.Live()
      requires c.Links().Childless() && c.contextParent == parent
      requires !parent.childQty.QtyNone? && (parent.childQty.QtyOne? ==> parent.childOne == null)
      modifies this`maxStackIdx, this`tree, stack, c`contextParentIdx
      modifies parent`childInitialized, parent`childOne, parent`childList, parent`childFreeIdx
      ensures Ready() && View() == DoNew(old(View()), c)
      ensures parent.childQty.QtyMany? ==> c.contextParentIdx + 1 == parent.childFreeIdx
    {
      hide Safe, Represents, NodesOf, Add, Tree.Wf, Entries;
      ghost var m := View();
      NewSafe(m, c);
      AddShape(tree, c, parent);
      Link(c, parent, true);
      tree := Add(tree, c, parent);
      Push(c, Kind.New);
    }

    method Switch(c: MemContext)
      requires Ready() && c in tree.Live() && maxStackIdx + 1 < STACK_MAX
      modifies this`maxStackIdx, this`currentStackIdx, stack
      ensures Ready()
      ensures View() == DoSwitch(old(View()), c)
    {
      hide Safe, Represents, NodesOf, Tree.Wf;
      SwitchSafe(View(), c);
      Push(c, Kind.Switch);
      currentStackIdx := maxStackIdx;
    }

    // A callback is set once; it may be cleared, and is cleared when it has run.
    method CallbackSet(c: MemContext, callback: Callback)
      requires Ready() && c in tree.Live() && !c.callbackQty.QtyNone? && c.callback.None?
      modifies c`callback
      ensures Ready() && View() == old(View())
      ensures CallbacksOf(tree.Live()) == old(CallbacksOf(tree.Live()))[c := Some(callback)]
    {
      hide Represents, Tree.Wf, Safe;
      SetCallback(c, Some(callback), tree.Live());
    }

    method CallbackClear(c: MemContext)
      requires Ready() && c in tree.Live() && !c.callbackQty.QtyNone?
      modifies c`callback
      ensures Ready() && View() == old(View())
      ensures CallbacksOf(tree.Live()) == old(CallbacksOf(tree.Live()))[c := None]
    {
      hide Represents, Tree.Wf, Safe;
      SetCallback(c, None, tree.Live());
    }

    method SetCallback(c: MemContext, callback: Option<Callback>, ghost live: set<MemContext>)
      requires c in live
      modifies c`callback
      ensures NodesOf(live) == old(NodesOf(live))
      ensures CallbacksOf(live) == old(CallbacksOf(live))[c := callback]
      ensures c.callback == callback
    {
      c.callback := callback;
    }

    // A try block begins and ends. When it ends by an error, what was pushed inside it may still be there.
    method TryBegin()
      requires Ready()
      modifies this`tryTotal
      ensures Ready() && View() == old(View()).(tryDepth := old(tryTotal) + 1)
    {
      hide Represents, NodesOf, Tree.Wf, Safe;
      RetagSafe(View(), tryTotal + 1);
      tryTotal := tryTotal + 1;
    }

    method TryEnd()
      requires Ready() && tryTotal > 0
      modifies this`tryTotal
      ensures Ready() && View() == old(View()).(tryDepth := old(tryTotal) - 1)
    {
      hide Represents, NodesOf, Tree.Wf, Safe;
      RetagSafe(View(), tryTotal - 1);
      tryTotal := tryTotal - 1;
    }

    // Run the callback of `c` itself, if there is one. It is forgotten once it has returned.
    method RunCallback(c: MemContext) returns (thrown: bool, ghost ran: seq<MemContext>)
      requires tree.Wf() && c in tree.Live()
      modifies this`events, c`callback
      ensures NodesOf(tree.Live()) == old(NodesOf(tree.Live()))
      ensures Progress(tree, old(CallbacksOf(tree.Live())), CallbacksOf(tree.Live()), {c}, ran, thrown)
      ensures events == old(events) + RanEvents(ran)
    {
      hide Progress, NodesOf, CallbacksOf;
      ghost var b0, t := CallbacksOf(tree.Live()), tree;
      CallbackAt(t.Live(), c);
      thrown, ran := false, [];
      if c.callback.Some? {
        events := events + [Ran(c)];
        ran := [c];
        if c.callback.value.throws {
          thrown := true;
        } else {
          SetCallback(c, None, t.Live());
        }
      }
      ProgressOne(t, b0, CallbacksOf(t.Live()), c);
    }

    // Run the callbacks of `c` and everything below it, stopping at the first that throws.
    method CallbackRecurse(c: MemContext) returns (thrown: bool, ghost ran: seq<MemContext>)
      requires Sound() && c in tree.Live()
      modifies this`events, Subtree(tree, c)`callback
      decreases Subtree(tree, c)
      ensures NodesOf(tree.Live()) == old(NodesOf(tree.Live()))
      ensures Progress(tree, old(CallbacksOf(tree.Live())), CallbacksOf(tree.Live()), Subtree(tree, c), ran, thrown)
      ensures events == old(events) + RanEvents(ran)
    {
      hide Represents, Progress, NodesOf, CallbacksOf, SlotsOf, Subtree, DownClosed, Below, RanEvents, Union, Tree.Wf;
      ghost var b0, t, slots, whole := CallbacksOf(tree.Live()), tree, Slots(c.Links()), Subtree(tree, c);
      NodeAt(t.Live(), c);
      WholeFacts(NodesOf(t.Live()), t, c);
      thrown, ran := RunCallback(c);
      if thrown {
        ProgressWiden(t, b0, CallbacksOf(t.Live()), {c}, whole, ran);
      } else if c.childInitialized {
        if c.childQty.QtyOne? {
          thrown, ran := CallbackSlot(c, slots, 0, b0, old(events), ran);
        } else {
          var contextIdx := 0;
          while contextIdx < |c.childList| && !thrown
            modifies this`events, (whole - {c})`callback
            invariant contextIdx <= |c.childList|
            invariant NodesOf(t.Live()) == old(NodesOf(t.Live()))
            invariant thrown ==> Progress(t, b0, CallbacksOf(t.Live()), whole, ran, true)
            invariant !thrown ==>
                        Progress(t, b0, CallbacksOf(t.Live()), {c} + Union(t, slots[..contextIdx]), ran, false)
            invariant events == old(events) + RanEvents(ran)
          {
            thrown, ran := CallbackSlot(c, slots, contextIdx, b0, old(events), ran);
            contextIdx := contextIdx + 1;
          }
        }
      }
    }

    // One turn of the loop over the slots of `c`: recurse into the child in slot `i`, if there is one.
    method CallbackSlot(c: MemContext, ghost slots: seq<MemContext?>, i: nat, ghost b0: Callbacks,
                        ghost before: seq<Event>, ghost sofar: seq<MemContext>)
      returns (thrown: bool, ghost ran: seq<MemContext>)
      requires Sound() && c in tree.Live() && i < |slots| && SlotsOf(tree, c, slots)
      requires c.childInitialized && slots == Slots(c.Links())
      requires Progress(tree, b0, CallbacksOf(tree.Live()), {c} + Union(tree, slots[..i]), sofar, false)
      requires events == before + RanEvents(sofar)
      modifies this`events, (Subtree(tree, c) - {c})`callback
      decreases Subtree(tree, c), 0
      ensures NodesOf(tree.Live()) == old(NodesOf(tree.Live()))
      ensures thrown ==> Progress(tree, b0, CallbacksOf(tree.Live()), Subtree(tree, c), ran, true)
      ensures !thrown ==> Progress(tree, b0, CallbacksOf(tree.Live()), {c} + Union(tree, slots[..i + 1]), ran, false)
      ensures events == before + RanEvents(ran)
    {
      hide Represents, Progress, NodesOf, CallbacksOf, SlotsOf, Subtree, Union, DownClosed, Below, RanEvents, Tree.Wf;
      thrown, ran := false, sofar;
      ghost var t, whole, seen := tree, Subtree(tree, c), {c} + Union(tree, slots[..i]);
      SlotFacts(t, c, slots, i);
      var x := if c.childQty.QtyOne? then c.childOne else c.childList[i];
      if x != null {
        ghost var sub, b1, ran1 := Subtree(t, x), CallbacksOf(t.Live()), [];
        assert seen !! sub && seen + sub <= whole && {c} + Union(t, slots[..i + 1]) == seen + sub;
        thrown, ran1 := CallbackRecurse(x);
        assert tree == t;
        ghost var b2 := CallbacksOf(t.Live());
        ProgressJoin(t, b0, b1, b2, seen, sub, sofar, ran1, thrown);
        EventsJoin(before, sofar, ran1);
        ran := sofar + ran1;
        if thrown {
          ProgressWiden(t, b0, b2, seen + sub, whole, ran);
        }
      }
    }

    // Release everything below `c`, then `c` itself. The top context is emptied instead.
    method FreeRecurse(c: MemContext) returns (ghost freed: seq<MemContext>)
      requires Sound() && c in tree.Live()
      modifies this`tree, this`events
      modifies WithParent(c)`childInitialized, WithParent(c)`childOne, WithParent(c)`childList,
               WithParent(c)`childFreeIdx
      decreases Subtree(tree, c), 1
      ensures Sound() && tree == Prune(old(tree), c)
      ensures NodesOf(tree.Live()) == FreedNodes(old(NodesOf(tree.Live())), old(tree), c)
      ensures ChildrenFirst(old(tree), freed) && Elements(freed) == old(Subtree(tree, c)) - {top}
      ensures events == old(events) + ReleasedEvents(freed)
    {
      hide Represents, NodesOf, SlotsOf, Subtree, Union, DownClosed, Below, ReleasedEvents, ChildrenFirst, Elements;
      hide Tree.Wf;
      hide FreedNodes, Prune, Drop, Cleared, Unlinked, FreeingAt;
      ghost var t0, nodes0, slots, whole := tree, NodesOf(tree.Live()), Slots(c.Links()), Subtree(tree, c);
      NodeAt(t0.Live(), c);
      WholeFacts(nodes0, t0, c);
      RepresentsAt(nodes0, t0.parent, c);
      FreeingStart(t0, nodes0, c);
      freed := [];
      if c.childInitialized {
        if c.childQty.QtyOne? {
          freed := FreeSlot(c, 0, t0, nodes0, slots, old(events), freed);
        } else {
          var contextIdx := 0;
          while contextIdx < |c.childList|
            modifies this`tree, this`events
            modifies whole`childInitialized, whole`childOne, whole`childList, whole`childFreeIdx
            invariant contextIdx <= |c.childList| == |slots|
            invariant Freeing(c, contextIdx, t0, nodes0, slots)
            invariant ChildrenFirst(t0, freed) && Elements(freed) == Union(t0, slots[..contextIdx])
            invariant events == old(events) + ReleasedEvents(freed)
          {
            freed := FreeSlot(c, contextIdx, t0, nodes0, slots, old(events), freed);
            contextIdx := contextIdx + 1;
          }
        }
      }
      freed := FreeSelf(c, t0, nodes0, slots, old(events), freed);
    }

    // The last step of freeing `c`, when nothing is left below it.
    method FreeSelf(c: MemContext, ghost t0: Tree<MemContext>, ghost nodes0: Nodes, ghost slots: seq<MemContext?>,
                    ghost before: seq<Event>, ghost sofar: seq<MemContext>)
      returns (ghost freed: seq<MemContext>)
      requires t0.Wf() && t0.top == top && c in t0.Live() && nodes0.Keys == t0.Live()
      requires slots == Slots(nodes0[c]) && SlotsOf(t0, c, slots)
      requires Freeing(c, |slots|, t0, nodes0, slots)
      requires ChildrenFirst(t0, sofar) && Elements(sofar) == Union(t0, slots)
      requires events == before + ReleasedEvents(sofar)
      requires Union(t0, slots) == Subtree(t0, c) - {c}
      modifies this`tree, this`events, c`childInitialized, c`childOne, c`childList, c`childFreeIdx
      modifies ParentOf(t0, c)`childOne, ParentOf(t0, c)`childList, ParentOf(t0, c)`childFreeIdx
      ensures Sound() && tree == Prune(t0, c)
      ensures NodesOf(tree.Live()) == FreedNodes(nodes0, t0, c)
      ensures ChildrenFirst(t0, freed) && Elements(freed) == Subtree(t0, c) - {top}
      ensures events == before + ReleasedEvents(freed)
    {
      hide Represents, NodesOf, SlotsOf, Subtree, Union, DownClosed, Below, ReleasedEvents, ChildrenFirst, Elements;
      hide Tree.Wf;
      hide Prune, Drop, Unlinked, FreedNodes, Slots;
      ghost var t, nodes, n := tree, NodesOf(tree.Live()), c.Links();
      assert slots[..|slots|] == slots;
      FreedLast(nodes0, nodes, t0, t, c, n);
      freed := sofar;
      NodeAt(t.Live(), c);
      if c != top {
        RepresentsAt(nodes, t.parent, c);
        NodeAt(t.Live(), t.parent[c]);
        FreedSelfNodes(nodes0, nodes, t0, c, n);
        ReleaseSelf(t0, before, sofar, c);
        Unlink(c, c.contextParent);
        freed := sofar + [c];
      } else {
        ResetTop(t0, nodes0);
      }
    }

    // The top context is never released: it starts over with nothing below it.
    method ResetTop(ghost t0: Tree<MemContext>, ghost nodes0: Nodes)
      requires tree.Wf() && tree.parent == map[] && tree.top == top == t0.top && top.contextParent == null
      requires t0.Wf() && nodes0.Keys == t0.Live() && top.Links().SameParent(nodes0[top])
      requires top.childQty == nodes0[top].childQty
      modifies top`childInitialized, top`childOne, top`childList, top`childFreeIdx
      ensures Sound() && NodesOf(tree.Live()) == FreedNodes(nodes0, t0, top)
    {
      hide Represents;
      top.childInitialized := false;
      top.childOne, top.childList, top.childFreeIdx := null, [], 0;
      assert tree.Live() == {top};
      assert NodesOf({top}) == map[top := top.Links()];
      AloneRepresents(NodesOf({top}), top);
    }

    // What freeing `c` touches: its subtree, and the slot in its parent.
    ghost function WithParent(c: MemContext): set<MemContext>
      requires tree.Wf()
      reads this
    {
      Subtree(tree, c) + ParentOf(tree, c)
    }

    // How far freeing below `c` has come: the contexts behind the slots before `i` are gone.
    ghost predicate Freeing(c: MemContext, i: nat, t0: Tree<MemContext>, nodes0: Nodes, slots: seq<MemContext?>)
      requires t0.Wf() && c in nodes0 && i <= |slots|
      reads this, tree.Live(), c
    {
      && Sound()
      && FreeingAt(t0, nodes0, slots, tree, NodesOf(tree.Live()), c, c.Links(), i)
      && |Slots(c.Links())| == |slots|
    }

    // One turn of the loop over the slots of `c`: free the child in slot `i`, if there is one.
    method FreeSlot(c: MemContext, i: nat, ghost t0: Tree<MemContext>, ghost nodes0: Nodes,
                    ghost slots: seq<MemContext?>, ghost before: seq<Event>, ghost sofar: seq<MemContext>)
      returns (ghost freed: seq<MemContext>)
      requires t0.Wf() && t0.top == top && c in t0.Live() && nodes0.Keys == t0.Live()
      requires slots == Slots(nodes0[c]) && SlotsOf(t0, c, slots) && i < |slots|
      requires Freeing(c, i, t0, nodes0, slots)
      requires ChildrenFirst(t0, sofar) && Elements(sofar) == Union(t0, slots[..i])
      requires events == before + ReleasedEvents(sofar)
      modifies this`tree, this`events
      modifies Subtree(t0, c)`childInitialized, Subtree(t0, c)`childOne, Subtree(t0, c)`childList,
               Subtree(t0, c)`childFreeIdx
      decreases Subtree(t0, c), 0
      ensures Freeing(c, i + 1, t0, nodes0, slots)
      ensures ChildrenFirst(t0, freed) && Elements(freed) == Union(t0, slots[..i + 1])
      ensures events == before + ReleasedEvents(freed)
    {
      hide Represents, NodesOf, SlotsOf, Subtree, Union, DownClosed, Below, ReleasedEvents, ChildrenFirst, Elements;
      hide Tree.Wf;
      hide FreedNodes, Prune, Drop, Cleared, Unlinked, FreeingAt;
      ghost var t, nodes, n := tree, NodesOf(tree.Live()), c.Links();
      FreeingSlot(t0, nodes0, slots, t, nodes, c, n, i);
      var x := if c.childQty.QtyOne? then c.childOne else c.childList[i];
      freed := sofar;
      if x != null {
        ghost var freed1 := FreeRecurse(x);
        FreeingStep(t0, nodes0, slots, t, nodes, c, n, i);
        NodeAt(tree.Live(), c);
        FreeingOrder(t0, c, slots, i, before, sofar, freed1);
        freed := sofar + freed1;
      } else {
        FreeingSkip(t0, nodes0, slots, t, nodes, c, n, i);
      }
    }

    // Clear the slot of a childless context and drop it from the tree.
    method Unlink(c: MemContext, p: MemContext)
      requires Sound() && c in tree.parent && c !in tree.parent.Values && p == tree.parent[c] == c.contextParent
      modifies this`tree, this`events, p`childOne, p`childList, p`childFreeIdx
      ensures Sound() && tree == Drop(old(tree), {c})
      ensures NodesOf(tree.Live()) ==
                (old(NodesOf(tree.Live())) - {c})[p := Unlinked(old(p.Links()), old(c.contextParentIdx))]
      ensures events == old(events) + [Released(c)]
    {
      hide Represents, NodesOf, Unlinked, Drop, Tree.Wf;
      ghost var t, live, nodes := tree, tree.Live(), NodesOf(tree.Live());
      RepresentsAt(nodes, t.parent, c);
      NodeAt(live, c);
      NodeAt(live, p);
      UnlinkRepresents(nodes, t, c);
      ghost var t', np := Drop(t, {c}), Unlinked(p.Links(), c.contextParentIdx);
      UnlinkShape(nodes, t, c, p, np);
      GiveUp(p, c.contextParentIdx, live);
      tree := t';
      events := events + [Released(c)];
      NodesMinus(live, {c});
      assert NodesOf(t'.Live()) == (nodes - {c})[p := np];
    }

    // `p` gives up a slot; every other context keeps its links.
    method GiveUp(p: MemContext, idx: nat, ghost live: set<MemContext>)
      requires p in live && p.Links().Shaped() && !p.childQty.QtyNone?
      requires p.childQty.QtyMany? ==> idx < |p.childList|
      modifies p`childOne, p`childList, p`childFreeIdx
      ensures NodesOf(live) == old(NodesOf(live))[p := Unlinked(old(p.Links()), idx)]
    {
      if p.childQty.QtyOne? {
        p.childOne := null;
      } else {
        if idx < p.childFreeIdx {
          p.childFreeIdx := idx;
        }
        p.childList := p.childList[idx := null];
      }
    }

    // Releasing memory leaves the callbacks as they are.
    method Release(c: MemContext, ghost live: set<MemContext>) returns (ghost freed: seq<MemContext>)
      requires Sound() && c in tree.Live()
      modifies this`tree, this`events
      modifies WithParent(c)`childInitialized, WithParent(c)`childOne, WithParent(c)`childList,
               WithParent(c)`childFreeIdx
      ensures Sound() && tree == Prune(old(tree), c)
      ensures NodesOf(tree.Live()) == FreedNodes(old(NodesOf(tree.Live())), old(tree), c)
      ensures CallbacksOf(live) == old(CallbacksOf(live))
      ensures ChildrenFirst(old(tree), freed) && Elements(freed) == old(Subtree(tree, c)) - {top}
      ensures events == old(events) + ReleasedEvents(freed)
    {
      hide Represents, NodesOf, Subtree, Below, FreedNodes, ChildrenFirst, Elements, ReleasedEvents, Prune, Tree.Wf;
      freed := FreeRecurse(c);
    }

    // Free `c` and everything below it: first all callbacks, then all memory, even when a callback throws.
    method Free(c: MemContext) returns (thrown: bool, ghost ran: seq<MemContext>, ghost freed: seq<MemContext>)
      requires Valid() && c in tree.Live()
      requires Current() == top || (Current() in tree.Live() && !Below(tree, c, Current()))
      modifies this`tree, this`events, Subtree(tree, c)`callback
      modifies WithParent(c)`childInitialized, WithParent(c)`childOne, WithParent(c)`childList,
               WithParent(c)`childFreeIdx
      ensures Valid() && View() == DoFree(old(View()), c)
      ensures NodesOf(tree.Live()) == FreedNodes(old(NodesOf(tree.Live())), old(tree), c)
      ensures CallbacksOf(old(tree.Live()) - old(Subtree(tree, c))) == old(CallbacksOf(tree.Live()) - Subtree(tree, c))
      ensures thrown <==> exists x :: x in old(Subtree(tree, c)) && Throws(old(CallbacksOf(tree.Live())), x)
      ensures events == old(events) + RanEvents(ran) + ReleasedEvents(freed)
      ensures Progress(old(tree), old(CallbacksOf(tree.Live())), CallbacksOf(old(tree.Live())), old(Subtree(tree, c)),
              ran, thrown)
      ensures ChildrenFirst(old(tree), freed) && Elements(freed) == old(Subtree(tree, c)) - {top}
    {
      hide Represents, NodesOf, CallbacksOf, Subtree, Below, FreedNodes, ChildrenFirst, Elements, RanEvents;
      hide ReleasedEvents, Progress, Tree.Wf;
      hide Entries, Prune;
      ghost var m, t, b0, s := View(), tree, CallbacksOf(tree.Live()), Subtree(tree, c);
      thrown, ran := CallbackRecurse(c);
      assert Valid() && View() == m;
      ghost var b1 := CallbacksOf(t.Live());
      ProgressThrows(t, b0, b1, s, ran, thrown);
      freed := Release(c, t.Live());
      CallbacksMinus(t.Live(), s);
      PruneWf(t, c);
    }

    // Move a context below another parent. The slot it leaves is cleared, but its old parent's hint is not lowered.
    method Move(c: MemContext?, parentNew: MemContext)
      requires Ready() && parentNew in tree.Live()
      requires c != null ==> c in tree.parent && MoveAllowed(View(), c, parentNew)
      requires c != null && c.contextParent != parentNew ==>
                 !parentNew.childQty.QtyNone? && (parentNew.childQty.QtyOne? ==> parentNew.childOne == null)
      modifies this`tree, tree.Live()
      ensures Ready()
      ensures View() == if c == null || old(c.contextParent) == parentNew then old(View())
                else DoMove(old(View()), c, parentNew)
    {
      if c != null && c.contextParent != parentNew {
        MoveContext(c, c.contextParent, parentNew);
      }
    }

    method MoveContext(c: MemContext, parentOld: MemContext, parentNew: MemContext)
      requires Ready() && parentNew in tree.Live() && c in tree.parent && parentOld == c.contextParent != parentNew
      requires MoveAllowed(View(), c, parentNew)
      requires !parentNew.childQty.QtyNone? && (parentNew.childQty.QtyOne? ==> parentNew.childOne == null)
      modifies this`tree, parentOld`childOne, parentOld`childList
      modifies parentNew`childInitialized, parentNew`childOne, parentNew`childList, parentNew`childFreeIdx
      modifies c`contextParentIdx, c`contextParent
      ensures Ready() && View() == DoMove(old(View()), c, parentNew)
    {
      hide Represents, NodesOf, Safe, MoveAllowed, Below, Subtree, Graft, Entries, Tree.Wf;
      ghost var m, t := View(), tree;
      MoveParts(m, c, parentNew);
      MoveSafe(m, c, parentNew);
      MoveLinks(c, parentOld, parentNew);
      Relink(Graft(t, c, parentNew));
    }

    // The pointers describe another tree of the same contexts.
    ghost method Relink(t: Tree<MemContext>)
      requires stack.Length == STACK_MAX && currentStackIdx <= maxStackIdx < STACK_MAX
      requires t.top == top && t.Wf() && t.Live() == tree.Live() && top.contextParent == null
      requires Represents(NodesOf(tree.Live()), t.parent) && Safe(View().(tree := t))
      modifies this`tree
      ensures Ready() && View() == old(View()).(tree := t)
    {
      hide Represents, NodesOf, Entries, Tree.Wf;
      tree := t;
    }

    // The pointer updates of a move.
    method MoveLinks(c: MemContext, parentOld: MemContext, parentNew: MemContext)
      requires Sound() && parentNew in tree.Live() && c in tree.parent && parentOld == c.contextParent != parentNew
      requires c != parentNew
      requires !parentNew.childQty.QtyNone? && (parentNew.childQty.QtyOne? ==> parentNew.childOne == null)
      modifies parentOld`childOne, parentOld`childList
      modifies parentNew`childInitialized, parentNew`childOne, parentNew`childList, parentNew`childFreeIdx
      modifies c`contextParentIdx, c`contextParent
      ensures Represents(NodesOf(tree.Live()), tree.parent[c := parentNew])
      ensures top.contextParent == null
    {
      hide Represents, NodesOf;
      RepresentsAt(NodesOf(tree.Live()), tree.parent, c);
      NodeAt(tree.Live(), c);
      Detach(c, parentOld);
      Attach(c, parentNew, tree.parent);
    }

    // First half of a move: the old parent loses the slot.
    method Detach(c: MemContext, parentOld: MemContext)
      requires Sound() && c in tree.parent && parentOld == tree.parent[c]
      modifies parentOld`childOne, parentOld`childList
      ensures Represents(NodesOf(tree.Live()), tree.parent - {c})
    {
      hide Represents, NodesOf, Slotted, Linked, Gave;
      ghost var live, links, nodes := tree.Live(), tree.parent, NodesOf(tree.Live());
      RepresentsAt(nodes, links, c);
      NodeAt(live, c);
      NodeAt(live, parentOld);
      ghost var no := ClearSlot(parentOld, c.contextParentIdx, live);
      MoveDetached(nodes, tree, c, no);
    }

    // Second half: the new parent has a slot for the context, and the context points to it.
    method Attach(c: MemContext, parentNew: MemContext, ghost links: map<MemContext, MemContext>)
      requires Represents(NodesOf(tree.Live()), links - {c})
      requires c in tree.Live() && parentNew in tree.Live() && c != parentNew
      requires !parentNew.childQty.QtyNone? && (parentNew.childQty.QtyOne? ==> parentNew.childOne == null)
      modifies parentNew`childInitialized, parentNew`childOne, parentNew`childList, parentNew`childFreeIdx
      modifies c`contextParentIdx, c`contextParent
      ensures Represents(NodesOf(tree.Live()), links[c := parentNew])
    {
      hide Represents, NodesOf, Slotted, Linked, Took;
      ghost var live, nodes := tree.Live(), NodesOf(tree.Live());
      RepresentsAt(nodes, links - {c}, parentNew);
      NodeAt(live, c);
      NodeAt(live, parentNew);
      ghost var nc, np := PlaceIn(c, parentNew, false, live);
      assert live + {c} == live;
      SetParent(c, parentNew, live);
      MoveAttached(nodes, links, c, nc, parentNew, np);
    }

    // `p` gives up a slot but keeps looking for the next free one where it did before.
    method ClearSlot(p: MemContext, idx: nat, ghost live: set<MemContext>) returns (ghost np: Node)
      requires p in live && p.Links().Shaped() && !p.childQty.QtyNone?
      requires p.childQty.QtyMany? ==> idx < |p.childList|
      modifies p`childOne, p`childList
      ensures NodesOf(live) == old(NodesOf(live))[p := np] && Gave(old(p.Links()), np, idx)
      ensures np.childFreeIdx == old(p.childFreeIdx)
    {
      if p.childQty.QtyOne? {
        p.childOne := null;
      } else {
        p.childList := p.childList[idx := null];
      }
      np := p.Links();
    }

    method SetParent(c: MemContext, p: MemContext, ghost live: set<MemContext>)
      requires c in live
      modifies c`contextParent
      ensures NodesOf(live) == old(NodesOf(live))[c := old(c.Links()).(contextParent := p)]
    {
      c.contextParent := p;
    }

    // Drop the last entry.
    method Pop(current: nat)
      requires Valid() && current < maxStackIdx
      modifies this`maxStackIdx, this`currentStackIdx
      ensures Valid()
      ensures maxStackIdx == old(maxStackIdx) - 1
      ensures View() == old(View()).(entries := old(View()).entries[..old(maxStackIdx)], current := current)
      ensures CallbacksOf(tree.Live()) == old(CallbacksOf(tree.Live()))
      ensures NodesOf(tree.Live()) == old(NodesOf(tree.Live()))
    {
      hide Represents, NodesOf, Tree.Wf;
      maxStackIdx := maxStackIdx - 1;
      currentStackIdx := current;
    }

    // The nearest `Switch` entry below the current one.
    method PriorIdx() returns (idx: nat)
      requires Ready() && currentStackIdx > 0
      ensures idx == SwitchAt(View().entries, currentStackIdx - 1)
    {
      idx := currentStackIdx - 1;
      while stack[idx].kind.New?
        invariant idx < currentStackIdx
        invariant SwitchAt(View().entries, idx) == SwitchAt(View().entries, currentStackIdx - 1)
        decreases idx
      {
        idx := idx - 1;
      }
    }

    // Pop the last switch; the nearest one below it is current then.
    method SwitchBack()
      requires Ready() && maxStackIdx > 0 && stack[maxStackIdx].kind.Switch?
      modifies this`maxStackIdx, this`currentStackIdx
      ensures Ready() && View() == DoSwitchBack(old(View()))
    {
      hide Represents, NodesOf, Safe, Tree.Wf;
      ghost var m := View();
      SwitchBackSafe(m);
      var idx := PriorIdx();
      Pop(idx);
    }

    method Prior() returns (c: MemContext)
      requires Ready() && currentStackIdx > 0
      ensures c == View().entries[SwitchAt(View().entries, currentStackIdx - 1)].context && c in tree.Live()
    {
      var idx := PriorIdx();
      c := stack[idx].context;
    }

    // Keep a new context: it will not be freed when an error occurs.
    method Keep()
      requires Ready() && stack[maxStackIdx].kind.New?
      modifies this`maxStackIdx, this`currentStackIdx
      ensures Ready() && View() == DoKeep(old(View()))
    {
      hide Represents, NodesOf, Tree.Wf;
      ghost var m := View();
      KeepSafe(m);
      Pop(currentStackIdx);
    }

    // Discard a new context. When one of its callbacks throws, the error leaves before the entry is popped: the stack
    // then still names the freed context. `ran` are the callbacks run and `freed` the contexts released, in this order.
    method Discard() returns (thrown: bool, ghost ran: seq<MemContext>, ghost freed: seq<MemContext>)
      requires Ready() && stack[maxStackIdx].kind.New?
      modifies this, tree.Live()
      ensures Valid()
      ensures thrown <==> exists x ::
                x in old(Subtree(tree, stack[maxStackIdx].context)) && Throws(old(CallbacksOf(tree.Live())), x)
      ensures !thrown ==> Ready() && View() == DoDiscard(old(View()))
      ensures !thrown ==> maxStackIdx == old(maxStackIdx) - 1
      ensures CallbacksOf(tree.Live()) == old(CallbacksOf(tree.Live()) - Subtree(tree, stack[maxStackIdx].context))
      ensures thrown ==> !Ready() && View() == DoFree(old(View()), old(stack[maxStackIdx].context))
      ensures events == old(events) + RanEvents(ran) + ReleasedEvents(freed)
      ensures Discarded(old(View()), old(NodesOf(tree.Live())), NodesOf(tree.Live()), old(CallbacksOf(tree.Live())),
              ran, freed, thrown)
    {
      hide Represents, NodesOf, CallbacksOf, Subtree, Below, RanEvents, ReleasedEvents, Tree.Wf;
      hide Entries, Safe, Prune, FreedNodes, Freed, ChildrenFirst;
      ghost var m := View();
      LastEntry();
      DiscardSafe(m);
      DiscardThrownDangles(m);
      thrown, ran, freed := FreeLast();
      if !thrown {
        Pop(currentStackIdx);
      }
    }

    // Free the context of the last entry, which is a new one.
    method FreeLast() returns (thrown: bool, ghost ran: seq<MemContext>, ghost freed: seq<MemContext>)
      requires Ready() && stack[maxStackIdx].kind.New?
      modifies this`tree, this`events, tree.Live()
      ensures Valid() && currentStackIdx < maxStackIdx
      ensures View() == DoFree(old(View()), stack[maxStackIdx].context)
      ensures CallbacksOf(tree.Live()) == old(CallbacksOf(tree.Live()) - Subtree(tree, stack[maxStackIdx].context))
      ensures events == old(events) + RanEvents(ran) + ReleasedEvents(freed)
      ensures Discarded(old(View()), old(NodesOf(tree.Live())), NodesOf(tree.Live()), old(CallbacksOf(tree.Live())),
              ran, freed, thrown)
    {
      hide Represents, NodesOf, CallbacksOf, Subtree, Below, FreedNodes, ChildrenFirst, Elements, RanEvents;
      hide ReleasedEvents, Progress, Tree.Wf;
      hide Entries, Safe, Prune, Discarded, Throws;
      ghost var m, t, b0, nodes0 := View(), tree, CallbacksOf(tree.Live()), NodesOf(tree.Live());
      var c := stack[maxStackIdx].context;
      LastEntry();
      LastApart(m);
      ParentLive(t, c);
      PrunedLive(t, c);
      hide Based, Freed;
      thrown, ran, freed := Free(c);
      DiscardedIs(m, nodes0, NodesOf(tree.Live()), b0, CallbacksOf(t.Live()), ran, freed, thrown);
    }

    // Clean up after an error: pop everything pushed at `tryDepth` or deeper, freeing what was not kept unless the
    // error is fatal. A callback that throws stops the clean with the freed context still on the stack. `more` are the
    // callbacks run and the contexts released: the doomed ones and no others.
    method Clean(tryDepth: nat, fatal: bool) returns (thrown: bool, ghost more: seq<Event>)
      requires Ready() && tryDepth > 0
      modifies this, tree.Live()
      ensures Valid()
      ensures thrown <==> !fatal && exists x ::
                x in old(tree.Live()) && Doomed(old(View()), tryDepth, x) && Throws(old(CallbacksOf(tree.Live())), x)
      ensures !thrown ==> Ready() && View() == DoClean(old(View()), tryDepth, fatal)
      ensures thrown ==> !Ready() && Last(View()).context !in tree.Live()
      ensures events == old(events) + more
      ensures !thrown ==> Freed(old(tree), old(CallbacksOf(tree.Live())), old(tree.Live()) - tree.Live(), more)
      ensures !thrown ==> GoneAreDoomed(old(View()), tryDepth, fatal, tree.Live())
    {
      hide CleanProgress, GoneAreDoomed, LastFreed, Shrunk, Freed, Safe, Doomed, DoClean, Represents, NodesOf;
      hide CallbacksOf, Prune, ThrowsLast, Entries, Tree.Wf;
      thrown := false;
      ghost var m0, b0 := View(), CallbacksOf(tree.Live());
      CleanStart(m0, b0, tryDepth, fatal);
      SafeParts(m0);
      ShrunkStart(tree, b0);
      more := [];
      while stack[maxStackIdx].tryDepth >= tryDepth
        modifies this, m0.tree.Live()
        invariant Ready() && CleanProgress(m0, View(), b0, CallbacksOf(tree.Live()), tryDepth, fatal)
        invariant tree.Live() <= m0.tree.Live()
        invariant Shrunk(m0.tree, tree, b0, more) && events == old(events) + more
        invariant !thrown
        decreases maxStackIdx
      {
        ghost var m, b := View(), CallbacksOf(tree.Live());
        LastEntry();
        ghost var sofar, last := more, [];
        thrown, last := CleanLast(tryDepth, fatal);
        Regroup(old(events), sofar, last);
        more := sofar + last;
        if thrown {
          CleanThrown(m0, m, b0, b, tryDepth, fatal);
          return;
        }
        ShrunkOnce(m0, m, b0, b, tryDepth, fatal, sofar, last);
        CleanProgressStep(m0, m, b0, b, tryDepth, fatal);
        CleanOneLess(m, fatal);
      }
      LastEntry();
      CleanDone(m0, View(), b0, CallbacksOf(tree.Live()), tryDepth, fatal);
      ShrunkDone(m0, View(), b0, tryDepth, fatal, more);
    }

    lemma LastEntry()
      requires Valid()
      ensures Last(View()) == stack[maxStackIdx]
    {
    }

    // One turn of the clean-up loop.
    method CleanLast(tryDepth: nat, fatal: bool) returns (thrown: bool, ghost more: seq<Event>)
      requires Ready() && stack[maxStackIdx].tryDepth >= tryDepth > 0
      modifies this, tree.Live()
      ensures Valid() && old(maxStackIdx) > 0 && Last(old(View())).tryDepth > 0
      ensures !thrown ==> Ready() && maxStackIdx == old(maxStackIdx) - 1
      ensures !thrown ==> CleanNext(old(View()), View(), fatal)
      ensures !thrown ==> CallbacksOf(tree.Live()) == old(CallbacksOf(tree.Live())) - (old(tree.Live()) - tree.Live())
      ensures thrown <==> ThrowsLast(old(View()), old(CallbacksOf(tree.Live())), fatal)
      ensures thrown ==> View() == DoFree(old(View()), Last(old(View())).context)
      ensures events == old(events) + more
      ensures !thrown ==> LastFreed(old(View()), old(CallbacksOf(tree.Live())), fatal, more)
    {
      hide Freed;
      hide Represents, NodesOf, CallbacksOf, Subtree, Below, FreedNodes, ChildrenFirst, Elements, RanEvents;
      hide ReleasedEvents, Progress, Safe, Tree.Wf;
      ghost var m, t := View(), tree;
      assert Last(m) == stack[maxStackIdx];
      CleanOneSafe(m, fatal);
      thrown, more := false, [];
      if stack[maxStackIdx].kind.New? {
        LastApart(m);
        if fatal {
          Pop(currentStackIdx);
        } else {
          DiscardSafe(m);
          CallbacksRest(CallbacksOf(t.Live()), t.Live(), Subtree(t, Last(m).context));
          ghost var ran, freed;
          thrown, ran, freed := Discard();
          more := RanEvents(ran) + ReleasedEvents(freed);
          Regroup(old(events), RanEvents(ran), ReleasedEvents(freed));
        }
      } else {
        SwitchBackSafe(m);
        var idx := PriorIdx();
        Pop(idx);
      }
    }
  }

  // What there is to visit below `c`: nothing before the child part is initialised, else what is behind all of its
  // slots.
  lemma WholeFacts(nodes: Nodes, t: Tree<MemContext>, c: MemContext)
    requires t.Wf() && Represents(nodes, t.parent) && c in nodes && nodes.Keys == t.Live()
    ensures nodes[c].childInitialized ==> !nodes[c].childQty.QtyNone?
    ensures !nodes[c].childInitialized ==> Subtree(t, c) == {c}
    ensures var slots := Slots(nodes[c]);
            && SlotsOf(t, c, slots)
            && Union(t, slots[..0]) == {}
            && slots[..|slots|] == slots && Union(t, slots) == Subtree(t, c) - {c}
            && {c} + Union(t, slots[..0]) == {c}
            && {c} + Union(t, slots[..|slots|]) == Subtree(t, c)
  {
    var slots := Slots(nodes[c]);
    RepresentsSlots(nodes, t, c);
    ShapedSlots(nodes, t, c);
    UnionFacts(t, c, slots, |slots|);
    assert slots[..|slots|] == slots;
  }

  // What the turn for slot `i` adds to what has been visited.
  lemma SlotFacts(t: Tree<MemContext>, c: MemContext, slots: seq<MemContext?>, i: nat)
    requires t.Wf() && c in t.Live() && SlotsOf(t, c, slots) && i < |slots|
    ensures Union(t, slots[..i]) <= Subtree(t, c) - {c}
    ensures slots[i] == null ==> Union(t, slots[..i + 1]) == Union(t, slots[..i])
    ensures slots[i] != null ==>
              && slots[i] in t.parent && t.parent[slots[i]] == c
              && c !in Subtree(t, slots[i]) && Subtree(t, slots[i]) <= Subtree(t, c)
                   && DownClosed(t, Subtree(t, slots[i]))
              && Union(t, slots[..i]) !! Subtree(t, slots[i])
              && Union(t, slots[..i + 1]) == Union(t, slots[..i]) + Subtree(t, slots[i])
  {
    UnionFacts(t, c, slots, i);
    UnionStep(t, slots, i);
    if slots[i] != null {
      ChildSubtree(t, c, slots[i]);
      SubtreeClosed(t, slots[i]);
    }
  }

  // Only an initialised child part has anything in it.
  lemma ShapedSlots(nodes: Nodes, t: Tree<MemContext>, p: MemContext)
    requires t.Wf() && Represents(nodes, t.parent) && p in nodes
    ensures nodes[p].childInitialized ==> !nodes[p].childQty.QtyNone?
    ensures !nodes[p].childInitialized ==> Union(t, Slots(nodes[p])) == {}
  {
    assert Slotted(nodes, t.parent, p);
    if !nodes[p].childInitialized {
      forall d | d in t.Live() ensures d !in Union(t, Slots(nodes[p])) {
        UnionMember(t, Slots(nodes[p]), d);
      }
    }
  }
}
