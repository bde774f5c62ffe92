// The tree of memory contexts as a value: who is whose parent, and how deep each context lies.
//
// The source keeps the tree in `contextParent` pointers and child lists. This module holds the mathematical tree those
// pointers describe; `MemContexts` proves that the pointer updates follow it.
module MemTree {

  // `parent` maps every context except `top` to its parent. `depth` is the distance from `top`; it is determined by
  // `parent` (see `Wf`) and witnesses that there is no cycle.
  datatype Tree<C(==)> = Tree(top: C, parent: map<C, C>, depth: map<C, nat>) {

    ghost function Live(): set<C> {
      parent.Keys + {top}
    }

    ghost predicate Wf() {
      && top !in parent
      && depth.Keys == Live()
      && depth[top] == 0
      && forall c {:trigger parent[c]} :: c in parent ==> parent[c] in Live() && depth[c] == depth[parent[c]] + 1
    }
  }

  ghost function Root<C>(top: C): (t: Tree<C>)
    ensures t.Wf() && t.Live() == {top}
  {
    Tree(top, map[], map[top := 0])
  }

  // `d` is `a` or one of the contexts below it.
  ghost predicate Below<C>(t: Tree<C>, a: C, d: C)
    requires t.Wf() && d in t.Live()
    decreases t.depth[d]
  {
    d == a || (d in t.parent && Below(t, a, t.parent[d]))
  }

  ghost function Subtree<C>(t: Tree<C>, a: C): (s: set<C>)
    requires t.Wf()
    ensures a in t.Live() ==> a in s
    ensures s <= t.Live()
  {
    set d | d in t.Live() && Below(t, a, d)
  }

  ghost function Add<C>(t: Tree<C>, c: C, p: C): Tree<C>
    requires t.Wf() && c !in t.Live() && p in t.Live()
  {
    t.(parent := t.parent[c := p], depth := t.depth[c := t.depth[p] + 1])
  }

  // Everything below a removed context must be removed too.
  ghost predicate DownClosed<C>(t: Tree<C>, s: set<C>)
    requires t.Wf()
  {
    forall c :: c in t.parent && t.parent[c] in s ==> c in s
  }

  // Drop the contexts in `s`; `top` is never dropped.
  ghost function Drop<C>(t: Tree<C>, s: set<C>): Tree<C>
    requires t.Wf()
  {
    t.(parent := map c | c in t.parent && c !in s :: t.parent[c],
       depth := map c | c in t.depth && (c == t.top || c !in s) :: t.depth[c])
  }

  // What freeing `a` leaves: the top context survives being freed, everything else below `a` goes.
  ghost function Prune<C>(t: Tree<C>, a: C): Tree<C>
    requires t.Wf()
  {
    Drop(t, Subtree(t, a))
  }

  ghost function Graft<C>(t: Tree<C>, c: C, p: C): Tree<C>
    requires t.Wf() && c in t.parent && p in t.Live() && !Below(t, c, p)
  {
    var s := Subtree(t, c);
    BelowDepths(t, c);
    t.(parent := t.parent[c := p],
       depth := map d | d in t.depth :: if d in s then t.depth[d] - t.depth[c] + t.depth[p] + 1 else t.depth[d])
  }

  // ----- facts about Below

  lemma {:induction false} BelowDepth<C>(t: Tree<C>, a: C, d: C)
    requires t.Wf() && d in t.Live() && Below(t, a, d)
    ensures a in t.Live()
    ensures t.depth[a] <= t.depth[d]
    ensures d != a ==> t.depth[a] < t.depth[d]
    decreases t.depth[d]
  {
    if d != a {
      BelowDepth(t, a, t.parent[d]);
    }
  }

  lemma BelowDepths<C>(t: Tree<C>, a: C)
    requires t.Wf()
    ensures forall d :: d in t.Live() && Below(t, a, d) ==> a in t.Live() && t.depth[a] <= t.depth[d]
  {
    forall d | d in t.Live() && Below(t, a, d)
      ensures a in t.Live() && t.depth[a] <= t.depth[d]
    {
      BelowDepth(t, a, d);
    }
  }

  lemma {:induction false} BelowTransitive<C>(t: Tree<C>, a: C, b: C, d: C)
    requires t.Wf() && b in t.Live() && d in t.Live() && Below(t, a, b) && Below(t, b, d)
    ensures Below(t, a, d)
    decreases t.depth[d]
  {
    if d != b {
      BelowTransitive(t, a, b, t.parent[d]);
    }
  }

  lemma BelowAntisymmetric<C>(t: Tree<C>, a: C, b: C)
    requires t.Wf() && a in t.Live() && b in t.Live() && Below(t, a, b) && Below(t, b, a)
    ensures a == b
  {
    BelowDepth(t, a, b);
    BelowDepth(t, b, a);
  }

  lemma {:induction false} AllBelowTop<C>(t: Tree<C>, d: C)
    requires t.Wf() && d in t.Live()
    ensures Below(t, t.top, d)
    decreases t.depth[d]
  {
    if d in t.parent {
      AllBelowTop(t, t.parent[d]);
    }
  }

  // A subtree is closed downwards, so dropping it leaves a tree.
  lemma SubtreeClosed<C>(t: Tree<C>, a: C)
    requires t.Wf()
    ensures DownClosed(t, Subtree(t, a))
  {
  }

  // ----- what each operation does to Wf and to the subtrees

  lemma AddWf<C>(t: Tree<C>, c: C, p: C)
    requires t.Wf() && c !in t.Live() && p in t.Live()
    ensures Add(t, c, p).Wf()
    ensures Add(t, c, p).Live() == t.Live() + {c}
  {
    var t' := Add(t, c, p);
    assert t'.parent.Keys == t.parent.Keys + {c};
    assert t'.depth.Keys == t.depth.Keys + {c};
  }

  // Adding a leaf changes no relation between the contexts that were there, and nothing lies below the new one.
  lemma {:induction false} AddBelow<C>(t: Tree<C>, c: C, p: C, a: C, d: C)
    requires t.Wf() && c !in t.Live() && p in t.Live() && d in t.Live()
    ensures Add(t, c, p).Wf() && d in Add(t, c, p).Live()
    ensures a in t.Live() ==> (Below(Add(t, c, p), a, d) <==> Below(t, a, d))
    ensures !Below(Add(t, c, p), c, d)
    decreases t.depth[d]
  {
    AddWf(t, c, p);
    if d in t.parent {
      AddBelow(t, c, p, a, t.parent[d]);
    }
  }

  lemma DropWf<C>(t: Tree<C>, s: set<C>)
    requires t.Wf() && DownClosed(t, s)
    requires t.top in s ==> t.parent.Keys <= s
    ensures Drop(t, s).Wf() && Drop(t, s).top == t.top
    ensures Drop(t, s).Live() == t.Live() - (s - {t.top})
  {
    var t' := Drop(t, s);
    assert t'.parent.Keys == t.parent.Keys - s;
    assert t'.depth.Keys == t'.Live();
  }

  // Survivors keep their relations.
  lemma {:induction false} DropBelow<C>(t: Tree<C>, s: set<C>, a: C, d: C)
    requires t.Wf() && DownClosed(t, s)
    requires t.top in s ==> t.parent.Keys <= s
    requires Drop(t, s).Wf() && d in Drop(t, s).Live()
    ensures d in t.Live()
    ensures Below(Drop(t, s), a, d) <==> Below(t, a, d)
    decreases t.depth[d]
  {
    if d in Drop(t, s).parent {
      DropBelow(t, s, a, t.parent[d]);
    }
  }

  lemma PruneWf<C>(t: Tree<C>, a: C)
    requires t.Wf() && a in t.Live()
    ensures Prune(t, a).Wf()
    ensures Prune(t, a).Live() == t.Live() - (Subtree(t, a) - {t.top})
  {
    SubtreeClosed(t, a);
    if t.top in Subtree(t, a) {
      forall d | d in t.parent ensures d in Subtree(t, a) {
        AllBelowTop(t, d);
      }
    }
    DropWf(t, Subtree(t, a));
  }

  lemma GraftWf<C>(t: Tree<C>, c: C, p: C)
    requires t.Wf() && c in t.parent && p in t.Live() && !Below(t, c, p)
    ensures Graft(t, c, p).Wf()
    ensures Graft(t, c, p).Live() == t.Live()
  {
    var t' := Graft(t, c, p);
    BelowDepths(t, c);
    assert t'.parent.Keys == t.parent.Keys;
    assert t'.depth.Keys == t.depth.Keys;
    assert t.top !in Subtree(t, c);
    forall d | d in t'.parent
      ensures t'.parent[d] in t'.Live() && t'.depth[d] == t'.depth[t'.parent[d]] + 1
    {
      if d != c {
        assert d in Subtree(t, c) <==> t.parent[d] in Subtree(t, c);
      }
    }
  }

  // After the move, `d` is below `a` if it is reached without passing the old link of `c`, or through the new one.
  lemma {:induction false} GraftBelow<C>(t: Tree<C>, c: C, p: C, a: C, d: C)
    requires t.Wf() && c in t.parent && p in t.Live() && !Below(t, c, p) && d in t.Live() && a in t.Live()
    ensures Graft(t, c, p).Wf() && d in Graft(t, c, p).Live()
    ensures Below(Graft(t, c, p), a, d)
       <==> if Below(t, c, d) then Below(t, a, p) || (Below(t, c, a) && Below(t, a, d)) else Below(t, a, d)
    decreases t.depth[d]
  {
    GraftWf(t, c, p);
    var t' := Graft(t, c, p);
    if Below(t, c, d) {
      if d == c {
        GraftAbove(t, c, p, a, p);
        if Below(t, c, a) && Below(t, a, c) {
          BelowAntisymmetric(t, a, c);
        }
      } else {
        GraftBelow(t, c, p, a, t.parent[d]);
      }
    } else {
      GraftAbove(t, c, p, a, d);
    }
  }

  // Contexts outside the moved subtree keep their ancestors.
  lemma {:induction false} GraftAbove<C>(t: Tree<C>, c: C, p: C, a: C, d: C)
    requires t.Wf() && c in t.parent && p in t.Live() && !Below(t, c, p) && d in t.Live() && !Below(t, c, d)
    ensures Graft(t, c, p).Wf() && d in Graft(t, c, p).Live()
    ensures Below(Graft(t, c, p), a, d) <==> Below(t, a, d)
    decreases t.depth[d]
  {
    GraftWf(t, c, p);
    if d in t.parent {
      GraftAbove(t, c, p, a, t.parent[d]);
    }
  }

  // ----- siblings, and subtrees put together from the children's

  // The ancestors of a context form a chain.
  lemma {:induction false} AncestorsOrdered<C>(t: Tree<C>, a: C, b: C, d: C)
    requires t.Wf() && d in t.Live() && Below(t, a, d) && Below(t, b, d)
    ensures a in t.Live() && b in t.Live()
    ensures Below(t, a, b) || Below(t, b, a)
    decreases t.depth[d]
  {
    BelowDepth(t, a, d);
    BelowDepth(t, b, d);
    if d != a && d != b {
      AncestorsOrdered(t, a, b, t.parent[d]);
    }
  }

  lemma SiblingsApart<C>(t: Tree<C>, a: C, b: C, d: C)
    requires t.Wf() && d in t.Live() && a in t.parent && b in t.parent && t.parent[a] == t.parent[b] && a != b
    ensures !(Below(t, a, d) && Below(t, b, d))
  {
    if Below(t, a, d) && Below(t, b, d) {
      AncestorsOrdered(t, a, b, d);
      if Below(t, a, b) {
        BelowDepth(t, a, t.parent[b]);
      } else {
        BelowDepth(t, b, t.parent[a]);
      }
    }
  }

  // Below `c` strictly means below one of its children.
  lemma {:induction false} BelowChild<C>(t: Tree<C>, c: C, d: C) returns (x: C)
    requires t.Wf() && d in t.Live() && Below(t, c, d) && d != c
    ensures x in t.parent && t.parent[x] == c && Below(t, x, d)
    decreases t.depth[d]
  {
    if t.parent[d] == c {
      x := d;
    } else {
      x := BelowChild(t, c, t.parent[d]);
    }
  }

  lemma ChildSubtree<C>(t: Tree<C>, c: C, x: C)
    requires t.Wf() && x in t.parent && t.parent[x] == c
    ensures Subtree(t, x) <= Subtree(t, c) - {c}
  {
    forall d | d in Subtree(t, x) ensures d in Subtree(t, c) - {c} {
      BelowTransitive(t, c, x, d);
      BelowDepth(t, x, d);
    }
  }

  lemma DropDrop<C>(t: Tree<C>, a: set<C>, b: set<C>)
    requires t.Wf() && Drop(t, a).Wf() && t.top !in a
    ensures Drop(Drop(t, a), b) == Drop(t, a + b)
  {
    assert Drop(Drop(t, a), b).parent == Drop(t, a + b).parent;
    assert Drop(Drop(t, a), b).depth == Drop(t, a + b).depth;
  }

  // Pruning what survived a drop is the same as dropping both at once.
  lemma DropPrune<C>(t: Tree<C>, a: set<C>, x: C)
    requires t.Wf() && DownClosed(t, a) && t.top !in a && x in t.parent && a !! Subtree(t, x)
    ensures Drop(t, a).Wf() && x in Drop(t, a).Live()
    ensures Subtree(Drop(t, a), x) == Subtree(t, x)
    ensures Prune(Drop(t, a), x) == Drop(t, a + Subtree(t, x))
    ensures DownClosed(t, a + Subtree(t, x))
  {
    DropWf(t, a);
    forall d | d in Drop(t, a).Live() ensures Below(Drop(t, a), x, d) <==> Below(t, x, d) {
      DropBelow(t, a, x, d);
    }
    assert forall d :: d in Subtree(t, x) ==> d in Drop(t, a).Live();
    assert Subtree(Drop(t, a), x) == Subtree(t, x);
    DropDrop(t, a, Subtree(t, x));
    SubtreeClosed(t, x);
  }
}
