/** What the redundancy passes do: marking nodes that were seen elsewhere, and clearing these marks. */
module RedundancyPass {
  import opened DiffGraph

  // ----- Marking, on any graph

  /** The nodes that a traversal with these flags comes to from node n, unless a visitor holds it back. */
  ghost predicate Reached(g: Graph, traversing: set<nat>, n: nat, x: nat)
    requires WellFormed(g) && IsNode(g, n)
    decreases |Nodes(g) - traversing|
  {
    || x == n
    || (Canonical(g, n) !in traversing
        && (FewerLeft(g, traversing, n);
            exists i :: 0 <= i < |Children(g, n)|
                && Reached(g, traversing + {Canonical(g, n), n}, Children(g, n)[i], x)))
  }

  lemma FewerLeft(g: Graph, traversing: set<nat>, n: nat)
    requires WellFormed(g) && IsNode(g, n)
    ensures Canonical(g, n) !in traversing ==>
        |Nodes(g) - (traversing + {Canonical(g, n), n})| < |Nodes(g) - traversing|
  {
    if Canonical(g, n) !in traversing {
      assert Canonical(g, n) in Nodes(g) - traversing;
      SubsetCardinality(Nodes(g) - (traversing + {Canonical(g, n), n}), Nodes(g) - traversing);
    }
  }

  ghost predicate ReachedFromAny(g: Graph, traversing: set<nat>, roots: seq<nat>, x: nat)
    requires WellFormed(g) && AreNodes(g, roots)
  {
    exists i :: 0 <= i < |roots| && Reached(g, traversing, roots[i], x)
  }

  /** Going down from a node reaches what is reached from its children. */
  lemma ReachedFromChildren(g: Graph, s: State, n: nat, x: nat)
    requires WellFormed(g) && IsNode(g, n) && Canonical(g, n) !in s.traversing
    ensures ReachedFromAny(g, BeginTraversing(g, s, n).traversing, Children(g, n), x) ==> Reached(g, s.traversing, n, x)
    ensures Reached(g, s.traversing, n, x) && x != n ==>
        ReachedFromAny(g, BeginTraversing(g, s, n).traversing, Children(g, n), x)
  {
  }

  /** The category of a node is as before, or it has been marked as redundant and is among those reached. */
  ghost predicate MarkedOnly(p: seq<Categories>, q: seq<Categories>, x: nat, reached: bool) {
    x < |p| && x < |q| && (q[x] == p[x] || (reached && q[x] == p[x] + {Redundant}))
  }

  lemma MarkedOnlyTransitive(p: seq<Categories>, q: seq<Categories>, r: seq<Categories>, x: nat, first: bool,
                             second: bool)
    requires MarkedOnly(p, q, x, first) && MarkedOnly(q, r, x, second)
    ensures MarkedOnly(p, r, x, first || second)
  {
  }

  /** Marking changes nothing but the marks of the nodes it reaches. */
  lemma {:induction false} TraverseMarks(g: Graph, cx: Context, s: State, n: nat, x: nat)
    requires WellFormed(g) && Fits(g, s) && FlagsConsistent(g, s.traversing) && IsNode(g, n) && IsNode(g, x)
    ensures MarkedOnly(s.category, Traverse(g, RedundancyMarking, cx, s, n).0.category, x,
        Reached(g, s.traversing, n, x))
    decreases NotTraversing(g, s), 0, 0
  {
    hide Traverse, TraverseChildren, Reached, ReachedFromAny, VisitBegin, VisitEnd, MarkedOnly;
    TraverseShape(g, RedundancyMarking, cx, s, n);
    ReachesItself(g, s.traversing, n);
    var reached := Reached(g, s.traversing, n, x);
    var b := Before(g, RedundancyMarking, cx, s, n);
    var t := Below(g, RedundancyMarking, cx, s, n);
    SightMarks(g, cx, s, n, x);
    MarkedMore(s.category, b.category, x, x == n, reached);
    if GoesDown(g, RedundancyMarking, cx, s, n) {
      var u := BeginTraversing(g, b, n);
      ReachedFromChildren(g, s, n, x);
      TraverseChildrenMarks(g, cx, u, Children(g, n), x);
      MarkedMore(b.category, t.category, x, ReachedFromAny(g, u.traversing, Children(g, n), x), reached);
      MarkedOnlyTransitive(s.category, b.category, t.category, x, reached, reached);
    }
    EndMarks(g, cx, t, n, x);
    MarkedOnlyTransitive(s.category, t.category, VisitEnd(g, RedundancyMarking, cx, t, n).category, x, reached, x == n);
  }

  lemma MarkedMore(p: seq<Categories>, q: seq<Categories>, x: nat, reached: bool, more: bool)
    requires MarkedOnly(p, q, x, reached) && (reached ==> more)
    ensures MarkedOnly(p, q, x, more)
  {
  }

  lemma SightMarks(g: Graph, cx: Context, s: State, n: nat, x: nat)
    requires WellFormed(g) && Fits(g, s) && IsNode(g, n) && IsNode(g, x)
    ensures MarkedOnly(s.category, Before(g, RedundancyMarking, cx, s, n).category, x, x == n)
  {
  }

  lemma ReachesItself(g: Graph, traversing: set<nat>, n: nat)
    requires WellFormed(g) && IsNode(g, n)
    ensures Reached(g, traversing, n, n)
  {
  }

  lemma EndMarks(g: Graph, cx: Context, s: State, n: nat, x: nat)
    requires WellFormed(g) && Fits(g, s) && IsNode(g, n) && IsNode(g, x)
    ensures MarkedOnly(s.category, VisitEnd(g, RedundancyMarking, cx, s, n).category, x, x == n)
  {
  }

  lemma {:induction false} TraverseChildrenMarks(g: Graph, cx: Context, s: State, children: seq<nat>, x: nat)
    requires WellFormed(g) && Fits(g, s) && FlagsConsistent(g, s.traversing) && AreNodes(g, children) && IsNode(g, x)
    ensures MarkedOnly(s.category, TraverseChildren(g, RedundancyMarking, cx, s, children).0.category, x,
                       ReachedFromAny(g, s.traversing, children, x))
    decreases NotTraversing(g, s), 1, |children|
  {
    hide Traverse, Reached;
    if children != [] {
      TraverseMarks(g, cx, s, children[0], x);
      TraverseContinues(g, RedundancyMarking, cx, s, children[0]);
      var t := Traverse(g, RedundancyMarking, cx, s, children[0]).0;
      TraverseChildrenMarks(g, cx, t, children[1..], x);
      ReachedFromFirst(g, s.traversing, children, x);
      MarkedOnlyTransitive(s.category, t.category,
          TraverseChildren(g, RedundancyMarking, cx, t, children[1..]).0.category, x,
                           Reached(g, s.traversing, children[0], x), ReachedFromAny(g, s.traversing, children[1..], x));
    }
  }

  lemma ReachedFromFirst(g: Graph, traversing: set<nat>, roots: seq<nat>, x: nat)
    requires WellFormed(g) && AreNodes(g, roots) && roots != []
    ensures ReachedFromAny(g, traversing, roots, x)
       <==> Reached(g, traversing, roots[0], x) || ReachedFromAny(g, traversing, roots[1..], x)
  {
  }

  // ----- What is never marked, on any graph

  /** A node may be marked because its class was seen elsewhere, but not when it is of a kind that is never
      marked or has a sibling of the same class; or because it has no local changes to report, and some of
      its children have changes. */
  ghost predicate MayBeMarked(g: Graph, cx: Context, localCategory: seq<Categories>, x: nat)
    requires WellFormed(g) && IsNode(g, x) && |localCategory| == |g|
  {
    || (!RedundantWithSibling(g, x) && !g[x].unmarkable)
    || (!(g[x].hasLocalChanges && !IsFilteredOut(cx, localCategory[x])) && SomeChanges(g, Children(g, x)))
  }

  lemma SightSpares(g: Graph, cx: Context, s: State, n: nat, x: nat)
    requires WellFormed(g) && Fits(g, s) && IsNode(g, n) && IsNode(g, x)
    ensures var b := Before(g, RedundancyMarking, cx, s, n);
            b.localCategory == s.localCategory
            && MarkedOnly(s.category, b.category, x, MayBeMarked(g, cx, s.localCategory, x))
  {
    hide RedundantWithSibling, IsFilteredOut;
  }

  lemma EndSpares(g: Graph, cx: Context, s: State, n: nat, x: nat)
    requires WellFormed(g) && Fits(g, s) && IsNode(g, n) && IsNode(g, x)
    ensures var e := VisitEnd(g, RedundancyMarking, cx, s, n);
            e.localCategory == s.localCategory
            && MarkedOnly(s.category, e.category, x, MayBeMarked(g, cx, s.localCategory, x))
  {
    hide RedundantWithSibling, IsFilteredOut;
  }

  /** Marking never touches the other nodes: neither functions nor variadic parameters, nor nodes that have a
      sibling of the same class, as long as they have changes of their own to report. */
  lemma {:induction false} TraverseSpares(g: Graph, cx: Context, s: State, n: nat, x: nat)
    requires WellFormed(g) && Fits(g, s) && FlagsConsistent(g, s.traversing) && IsNode(g, n) && IsNode(g, x)
    ensures var t := Traverse(g, RedundancyMarking, cx, s, n).0;
            t.localCategory == s.localCategory
            && MarkedOnly(s.category, t.category, x, MayBeMarked(g, cx, s.localCategory, x))
    decreases NotTraversing(g, s), 0, 0
  {
    hide Traverse, TraverseChildren, VisitBegin, VisitEnd, MarkedOnly, MayBeMarked;
    TraverseShape(g, RedundancyMarking, cx, s, n);
    var may := MayBeMarked(g, cx, s.localCategory, x);
    var b := Before(g, RedundancyMarking, cx, s, n);
    var t := Below(g, RedundancyMarking, cx, s, n);
    SightSpares(g, cx, s, n, x);
    if GoesDown(g, RedundancyMarking, cx, s, n) {
      TraverseChildrenSpares(g, cx, BeginTraversing(g, b, n), Children(g, n), x);
      MarkedOnlyTransitive(s.category, b.category, t.category, x, may, may);
    }
    EndSpares(g, cx, t, n, x);
    MarkedOnlyTransitive(s.category, t.category, VisitEnd(g, RedundancyMarking, cx, t, n).category, x, may, may);
  }

  lemma {:induction false} TraverseChildrenSpares(g: Graph, cx: Context, s: State, children: seq<nat>, x: nat)
    requires WellFormed(g) && Fits(g, s) && FlagsConsistent(g, s.traversing) && AreNodes(g, children) && IsNode(g, x)
    ensures var t := TraverseChildren(g, RedundancyMarking, cx, s, children).0;
            t.localCategory == s.localCategory
            && MarkedOnly(s.category, t.category, x, MayBeMarked(g, cx, s.localCategory, x))
    decreases NotTraversing(g, s), 1, |children|
  {
    hide Traverse, MayBeMarked;
    if children != [] {
      TraverseSpares(g, cx, s, children[0], x);
      TraverseContinues(g, RedundancyMarking, cx, s, children[0]);
      var t := Traverse(g, RedundancyMarking, cx, s, children[0]).0;
      TraverseChildrenSpares(g, cx, t, children[1..], x);
      var may := MayBeMarked(g, cx, s.localCategory, x);
      MarkedOnlyTransitive(s.category, t.category,
                           TraverseChildren(g, RedundancyMarking, cx, t, children[1..]).0.category, x, may, may);
    }
  }

  // ----- Clearing, on any graph

  /** Clearing takes the mark away from the nodes it reaches, and changes nothing else. */
  ghost predicate Cleared(p: seq<Categories>, q: seq<Categories>, x: nat, reached: bool) {
    x < |p| && x < |q| && q[x] == if reached then p[x] - {Redundant} else p[x]
  }

  lemma ClearedTransitive(p: seq<Categories>, q: seq<Categories>, r: seq<Categories>, x: nat, first: bool, second: bool)
    requires Cleared(p, q, x, first) && Cleared(q, r, x, second)
    ensures Cleared(p, r, x, first || second)
  {
  }

  lemma {:induction false} TraverseClears(g: Graph, cx: Context, s: State, n: nat, x: nat)
    requires WellFormed(g) && Fits(g, s) && FlagsConsistent(g, s.traversing) && IsNode(g, n) && IsNode(g, x)
    requires !cx.forbidVisitingTwice && !s.skipChildren
    ensures var t := Traverse(g, RedundancyClearing, cx, s, n).0;
            Cleared(s.category, t.category, x, Reached(g, s.traversing, n, x)) && !t.skipChildren
    decreases NotTraversing(g, s), 0, 0
  {
    hide Traverse, Reached, ReachedFromAny;
    TraverseShape(g, RedundancyClearing, cx, s, n);
    ReachesItself(g, s.traversing, n);
    var b := Before(g, RedundancyClearing, cx, s, n);
    var t := Below(g, RedundancyClearing, cx, s, n);
    if GoesDown(g, RedundancyClearing, cx, s, n) {
      var u := BeginTraversing(g, b, n);
      ReachedFromChildren(g, s, n, x);
      TraverseChildrenClears(g, cx, u, Children(g, n), x);
      ClearedTransitive(s.category, b.category, t.category, x, x == n,
                        ReachedFromAny(g, u.traversing, Children(g, n), x));
    } else {
      OnlyItselfReached(g, s.traversing, n, x);
    }
    ClearedTransitive(s.category, t.category, Visit(g, RedundancyClearing, t, n, false).0.category, x,
                      Reached(g, s.traversing, n, x), x == n);
  }

  lemma OnlyItselfReached(g: Graph, traversing: set<nat>, n: nat, x: nat)
    requires WellFormed(g) && IsNode(g, n) && Canonical(g, n) in traversing
    ensures Reached(g, traversing, n, x) <==> x == n
  {
  }

  lemma {:induction false} TraverseChildrenClears(g: Graph, cx: Context, s: State, children: seq<nat>, x: nat)
    requires WellFormed(g) && Fits(g, s) && FlagsConsistent(g, s.traversing) && AreNodes(g, children) && IsNode(g, x)
    requires !cx.forbidVisitingTwice && !s.skipChildren
    ensures var t := TraverseChildren(g, RedundancyClearing, cx, s, children).0;
            Cleared(s.category, t.category, x, ReachedFromAny(g, s.traversing, children, x)) && !t.skipChildren
    decreases NotTraversing(g, s), 1, |children|
  {
    hide Traverse, Reached;
    if children != [] {
      TraverseClears(g, cx, s, children[0], x);
      TraverseContinues(g, RedundancyClearing, cx, s, children[0]);
      var t := Traverse(g, RedundancyClearing, cx, s, children[0]).0;
      TraverseChildrenClears(g, cx, t, children[1..], x);
      ReachedFromFirst(g, s.traversing, children, x);
      ClearedTransitive(s.category, t.category,
          TraverseChildren(g, RedundancyClearing, cx, t, children[1..]).0.category, x,
                        Reached(g, s.traversing, children[0], x), ReachedFromAny(g, s.traversing, children[1..], x));
    }
  }

  /** Clearing takes the mark away from all nodes that are reached from the roots, and changes nothing else. */
  ghost predicate AllCleared(g: Graph, traversing: set<nat>, roots: seq<nat>, p: seq<Categories>, q: seq<Categories>)
    requires WellFormed(g) && AreNodes(g, roots)
  {
    |p| == |q| == |g| && forall x :: IsNode(g, x) ==> Cleared(p, q, x, ReachedFromAny(g, traversing, roots, x))
  }

  /** On any graph without marks, clearing from the same roots undoes marking, whatever has been visited
      before and in between. */
  lemma ClearingUndoesMarking(g: Graph, cx: Context, s: State, roots: seq<nat>, q: seq<Categories>)
    requires WellFormed(g) && Fits(g, s) && FlagsConsistent(g, s.traversing) && AreNodes(g, roots)
    requires forall x :: IsNode(g, x) ==> Redundant !in s.category[x]
    requires AllCleared(g, s.traversing, roots, TraverseChildren(g, RedundancyMarking, cx, s, roots).0.category, q)
    ensures q == s.category
  {
    hide Traverse, TraverseChildren, Reached, ReachedFromAny;
    forall x | IsNode(g, x)
      ensures q[x] == s.category[x]
    {
      TraverseChildrenMarks(g, cx, s, roots, x);
    }
  }

  lemma ClearOneMore(g: Graph, traversing: set<nat>, roots: seq<nat>, k: nat, p: seq<Categories>, q: seq<Categories>,
                     r: seq<Categories>)
    requires WellFormed(g) && AreNodes(g, roots) && k < |roots|
    requires AllCleared(g, traversing, roots[..k], p, q) && AllCleared(g, traversing, [roots[k]], q, r)
    ensures AllCleared(g, traversing, roots[..k + 1], p, r)
  {
    hide Reached, Cleared, ReachedFromAny;
    forall x | IsNode(g, x)
      ensures Cleared(p, r, x, ReachedFromAny(g, traversing, roots[..k + 1], x))
    {
      ReachedFromLast(g, traversing, roots, k, x);
      assert Cleared(p, q, x, ReachedFromAny(g, traversing, roots[..k], x));
      assert Cleared(q, r, x, ReachedFromAny(g, traversing, [roots[k]], x));
      ClearedTransitive(p, q, r, x, ReachedFromAny(g, traversing, roots[..k], x),
                        ReachedFromAny(g, traversing, [roots[k]], x));
    }
  }

  lemma ReachedFromLast(g: Graph, traversing: set<nat>, roots: seq<nat>, k: nat, x: nat)
    requires WellFormed(g) && AreNodes(g, roots) && k < |roots|
    ensures ReachedFromAny(g, traversing, roots[..k + 1], x)
       <==> ReachedFromAny(g, traversing, roots[..k], x) || ReachedFromAny(g, traversing, [roots[k]], x)
  {
    hide Reached;
    if ReachedFromAny(g, traversing, roots[..k + 1], x) {
      var i :| 0 <= i < k + 1 && Reached(g, traversing, roots[..k + 1][i], x);
      if i < k {
        assert roots[..k][i] == roots[i];
      } else {
        assert [roots[k]][0] == roots[i];
      }
    }
    if ReachedFromAny(g, traversing, roots[..k], x) {
      var i :| 0 <= i < k && Reached(g, traversing, roots[..k][i], x);
      assert roots[..k + 1][i] == roots[i];
    }
    if ReachedFromAny(g, traversing, [roots[k]], x) {
      assert roots[..k + 1][k] == roots[k];
    }
  }

  lemma NoRootsCleared(g: Graph, traversing: set<nat>, p: seq<Categories>)
    requires WellFormed(g) && |p| == |g|
    ensures AllCleared(g, traversing, [], p, p)
  {
  }

  lemma TraverseClearsAll(g: Graph, cx: Context, s: State, n: nat)
    requires WellFormed(g) && Fits(g, s) && FlagsConsistent(g, s.traversing) && IsNode(g, n)
    requires !cx.forbidVisitingTwice && !s.skipChildren
    ensures AllCleared(g, s.traversing, [n], s.category, Traverse(g, RedundancyClearing, cx, s, n).0.category)
  {
    hide Traverse, Reached, Cleared;
    var q := Traverse(g, RedundancyClearing, cx, s, n).0.category;
    forall x | IsNode(g, x)
      ensures Cleared(s.category, q, x, ReachedFromAny(g, s.traversing, [n], x))
    {
      TraverseClears(g, cx, s, n, x);
      assert ReachedFromAny(g, s.traversing, [n], x) <==> Reached(g, s.traversing, [n][0], x);
    }
  }

  // ----- The visitor does not carry anything over from one node to the next

  ghost predicate NothingSkipped(s: State) { !s.skipChildren && !s.skippedChildren }

  /** When a node's traversal is done, on any graph, the visitor looks at children again. */
  lemma {:induction false} TraverseRestoresVisitor(g: Graph, cx: Context, s: State, n: nat)
    requires WellFormed(g) && Fits(g, s) && FlagsConsistent(g, s.traversing) && IsNode(g, n) && NothingSkipped(s)
    ensures NothingSkipped(Traverse(g, RedundancyMarking, cx, s, n).0)
    ensures Traverse(g, RedundancyMarking, cx, s, n).0.localCategory == s.localCategory
    decreases NotTraversing(g, s), 0, 0
  {
    hide Traverse, MarkedOnSight, ChangesRedundant, SomeChanges;
    TraverseShape(g, RedundancyMarking, cx, s, n);
    if GoesDown(g, RedundancyMarking, cx, s, n) {
      TraverseChildrenRestoresVisitor(g, cx, BeginTraversing(g, Before(g, RedundancyMarking, cx, s, n), n),
                                      Children(g, n));
    }
  }

  lemma {:induction false} TraverseChildrenRestoresVisitor(g: Graph, cx: Context, s: State, children: seq<nat>)
    requires WellFormed(g) && Fits(g, s) && FlagsConsistent(g, s.traversing) && AreNodes(g, children)
        && NothingSkipped(s)
    ensures NothingSkipped(TraverseChildren(g, RedundancyMarking, cx, s, children).0)
    ensures TraverseChildren(g, RedundancyMarking, cx, s, children).0.localCategory == s.localCategory
    decreases NotTraversing(g, s), 1, |children|
  {
    hide Traverse;
    if children != [] {
      TraverseRestoresVisitor(g, cx, s, children[0]);
      TraverseContinues(g, RedundancyMarking, cx, s, children[0]);
      TraverseChildrenRestoresVisitor(g, cx, Traverse(g, RedundancyMarking, cx, s, children[0]).0, children[1..]);
    }
  }

  // ----- On a forest, not every node of a class is marked

  /** Going down from a node to a child makes the rank of the node smaller.  Classes may still recur. */
  ghost predicate Ranked(g: Graph, rank: nat -> nat)
    requires WellFormed(g)
  {
    forall n, i :: IsNode(g, n) && 0 <= i < |Children(g, n)| ==> rank(Children(g, n)[i]) < rank(n)
  }

  /** x is in the tree below n. */
  ghost predicate InTree(g: Graph, rank: nat -> nat, n: nat, x: nat)
    requires WellFormed(g) && Ranked(g, rank) && IsNode(g, n)
    decreases rank(n)
  {
    x == n || exists i :: 0 <= i < |Children(g, n)| && InTree(g, rank, Children(g, n)[i], x)
  }

  ghost predicate InForest(g: Graph, rank: nat -> nat, roots: seq<nat>, x: nat)
    requires WellFormed(g) && Ranked(g, rank) && AreNodes(g, roots)
  {
    exists i :: 0 <= i < |roots| && InTree(g, rank, roots[i], x)
  }

  lemma {:induction false} InTreeRank(g: Graph, rank: nat -> nat, n: nat, x: nat)
    requires WellFormed(g) && Ranked(g, rank) && IsNode(g, n) && InTree(g, rank, n, x)
    ensures IsNode(g, x) && rank(x) <= rank(n)
    decreases rank(n)
  {
    if x != n {
      var i :| 0 <= i < |Children(g, n)| && InTree(g, rank, Children(g, n)[i], x);
      InTreeRank(g, rank, Children(g, n)[i], x);
    }
  }

  /** No node is in the trees of two of the roots, and the same holds of the children of every node. */
  ghost predicate Apart(g: Graph, rank: nat -> nat, roots: seq<nat>)
    requires WellFormed(g) && Ranked(g, rank) && AreNodes(g, roots)
  {
    forall i, j, x :: 0 <= i < j < |roots| && InTree(g, rank, roots[i], x) ==> !InTree(g, rank, roots[j], x)
  }

  ghost predicate AllApart(g: Graph, rank: nat -> nat)
    requires WellFormed(g) && Ranked(g, rank)
  {
    forall n :: IsNode(g, n) ==> Apart(g, rank, Children(g, n))
  }

  /** The node stands for its class: if it is marked at all, then only because it has no local changes to be
      reported, and because those of its children that would be reported, are marked. */
  ghost predicate Stands(g: Graph, cx: Context, s: State, y: nat)
    requires WellFormed(g) && Fits(g, s) && IsNode(g, y)
  {
    Redundant in s.category[y] ==>
      && !HasLocalChangesToBeReported(g, cx, s, y)
      && SomeChanges(g, Children(g, y)) && ChangesRedundant(g, cx, s, Children(g, y))
  }

  ghost function Tree(g: Graph, rank: nat -> nat, n: nat): iset<nat>
    requires WellFormed(g) && Ranked(g, rank) && IsNode(g, n)
  {
    iset x: nat | InTree(g, rank, n, x)
  }

  ghost function Trees(g: Graph, rank: nat -> nat, roots: seq<nat>): iset<nat>
    requires WellFormed(g) && Ranked(g, rank) && AreNodes(g, roots)
  {
    iset x: nat | InForest(g, rank, roots, x)
  }

  lemma {:induction false} ReachedInTree(g: Graph, rank: nat -> nat, traversing: set<nat>, n: nat, x: nat)
    requires WellFormed(g) && Ranked(g, rank) && IsNode(g, n) && Reached(g, traversing, n, x)
    ensures InTree(g, rank, n, x)
    decreases rank(n)
  {
    if x != n {
      FewerLeft(g, traversing, n);
      var i :| 0 <= i < |Children(g, n)| && Reached(g, traversing + {Canonical(g, n), n}, Children(g, n)[i], x);
      ReachedInTree(g, rank, traversing + {Canonical(g, n), n}, Children(g, n)[i], x);
    }
  }

  /** The traversal of a tree leaves all other nodes alone. */
  lemma OthersUnchanged(g: Graph, rank: nat -> nat, cx: Context, s: State, n: nat)
    requires WellFormed(g) && Ranked(g, rank) && Fits(g, s) && FlagsConsistent(g, s.traversing) && IsNode(g, n)
    ensures var t := Traverse(g, RedundancyMarking, cx, s, n).0;
            forall x :: IsNode(g, x) && x !in Tree(g, rank, n) ==> t.category[x] == s.category[x]
  {
    hide Traverse, InTree;
    var t := Traverse(g, RedundancyMarking, cx, s, n).0;
    forall x | IsNode(g, x) && x !in Tree(g, rank, n)
      ensures t.category[x] == s.category[x]
    {
      TraverseMarks(g, cx, s, n, x);
      if Reached(g, s.traversing, n, x) {
        ReachedInTree(g, rank, s.traversing, n, x);
      }
    }
  }

  lemma OtherTreesUnchanged(g: Graph, rank: nat -> nat, cx: Context, s: State, roots: seq<nat>)
    requires WellFormed(g) && Ranked(g, rank) && Fits(g, s) && FlagsConsistent(g, s.traversing) && AreNodes(g, roots)
    ensures var t := TraverseChildren(g, RedundancyMarking, cx, s, roots).0;
            forall x :: IsNode(g, x) && x !in Trees(g, rank, roots) ==> t.category[x] == s.category[x]
  {
    hide TraverseChildren, InTree;
    var t := TraverseChildren(g, RedundancyMarking, cx, s, roots).0;
    forall x | IsNode(g, x) && x !in Trees(g, rank, roots)
      ensures t.category[x] == s.category[x]
    {
      TraverseChildrenMarks(g, cx, s, roots, x);
      if ReachedFromAny(g, s.traversing, roots, x) {
        var i :| 0 <= i < |roots| && Reached(g, s.traversing, roots[i], x);
        ReachedInTree(g, rank, s.traversing, roots[i], x);
      }
    }
  }

  /** Marking nodes other than y, or visiting classes, leaves y standing for its class. */
  lemma StandsOn(g: Graph, cx: Context, s: State, t: State, y: nat)
    requires WellFormed(g) && Fits(g, s) && Fits(g, t) && IsNode(g, y) && Stands(g, cx, s, y)
    requires t.localCategory == s.localCategory && t.category[y] == s.category[y]
    requires forall x :: IsNode(g, x) ==> MarkedOnly(s.category, t.category, x, true)
    ensures Stands(g, cx, t, y)
  {
    hide IsFilteredOut, SomeChanges;
    forall i | 0 <= i < |Children(g, y)|
      ensures MarkedOnly(s.category, t.category, Children(g, y)[i], true)
    {
    }
  }

  /** At the end of its visit a node is only marked when it may stand for its class with the mark, so no class
      loses the node that stands for it. */
  lemma AtEnd(g: Graph, cx: Context, s: State, n: nat, y: nat)
    requires WellFormed(g) && Fits(g, s) && IsNode(g, n) && IsNode(g, y) && Stands(g, cx, s, y)
    ensures var e := VisitEnd(g, RedundancyMarking, cx, s, n);
            Stands(g, cx, e, y) && Stands(g, cx, Marked(g, RedundancyMarking, e, n), y)
  {
    hide IsFilteredOut, SomeChanges;
  }

  // ----- The first node that is met of a class

  /** The traversal of n comes to x, and x is the first node of its class that it comes to: up to then the
      class has neither been visited nor is it being traversed. */
  ghost predicate FirstMet(g: Graph, cx: Context, s: State, n: nat, x: nat)
    requires WellFormed(g) && Fits(g, s) && FlagsConsistent(g, s.traversing) && IsNode(g, n)
    decreases NotTraversing(g, s), 0, 0
  {
    if x == n then Canonical(g, n) !in s.visited && Canonical(g, n) !in s.traversing
    else
      && GoesDown(g, RedundancyMarking, cx, s, n)
      && (BeginTraversingDecreases(g, Before(g, RedundancyMarking, cx, s, n), n);
          FirstMetOfAny(g, cx, BeginTraversing(g, Before(g, RedundancyMarking, cx, s, n), n), Children(g, n), x))
  }

  ghost predicate FirstMetOfAny(g: Graph, cx: Context, s: State, roots: seq<nat>, x: nat)
    requires WellFormed(g) && Fits(g, s) && FlagsConsistent(g, s.traversing) && AreNodes(g, roots)
    decreases NotTraversing(g, s), 1, |roots|
  {
    && roots != []
    && (FirstMet(g, cx, s, roots[0], x)
        || FirstMetOfAny(g, cx, Traverse(g, RedundancyMarking, cx, s, roots[0]).0, roots[1..], x))
  }

  lemma {:induction false} FirstMetInTree(g: Graph, rank: nat -> nat, cx: Context, s: State, n: nat, x: nat)
    requires WellFormed(g) && Ranked(g, rank) && Fits(g, s) && FlagsConsistent(g, s.traversing) && IsNode(g, n)
    requires FirstMet(g, cx, s, n, x)
    ensures InTree(g, rank, n, x)
    decreases NotTraversing(g, s), 0, 0
  {
    hide Traverse, VisitBegin, FirstMetOfAny;
    if x != n {
      var b := Before(g, RedundancyMarking, cx, s, n);
      BeginTraversingDecreases(g, b, n);
      FirstMetInForest(g, rank, cx, BeginTraversing(g, b, n), Children(g, n), x);
    }
  }

  lemma {:induction false} FirstMetInForest(g: Graph, rank: nat -> nat, cx: Context, s: State, roots: seq<nat>, x: nat)
    requires WellFormed(g) && Ranked(g, rank) && Fits(g, s) && FlagsConsistent(g, s.traversing) && AreNodes(g, roots)
    requires FirstMetOfAny(g, cx, s, roots, x)
    ensures InForest(g, rank, roots, x)
    decreases NotTraversing(g, s), 1, |roots|
  {
    hide Traverse, FirstMet, InTree;
    if FirstMet(g, cx, s, roots[0], x) {
      FirstMetInTree(g, rank, cx, s, roots[0], x);
    } else {
      FirstMetInForest(g, rank, cx, Traverse(g, RedundancyMarking, cx, s, roots[0]).0, roots[1..], x);
      var i :| 0 <= i < |roots| - 1 && InTree(g, rank, roots[1..][i], x);
      assert roots[1..][i] == roots[i + 1];
    }
  }

  /** On any graph every class that the traversal visits has a first node that is met. */
  lemma {:induction false} VisitedHasFirst(g: Graph, cx: Context, s: State, n: nat, c: nat) returns (x: nat)
    requires WellFormed(g) && Fits(g, s) && FlagsConsistent(g, s.traversing) && IsNode(g, n)
    requires IsNode(g, c) && g[c].canonical == c && c !in s.visited && c !in s.traversing
    requires c in Traverse(g, RedundancyMarking, cx, s, n).0.visited
    ensures IsNode(g, x) && Canonical(g, x) == c && FirstMet(g, cx, s, n, x)
    decreases NotTraversing(g, s), 0, 0
  {
    hide Traverse, VisitBegin, VisitEnd, FirstMetOfAny;
    TraverseShape(g, RedundancyMarking, cx, s, n);
    if c == Canonical(g, n) {
      x := n;
    } else {
      var u := BeginTraversing(g, Before(g, RedundancyMarking, cx, s, n), n);
      x := VisitedByAnyHasFirst(g, cx, u, Children(g, n), c);
    }
  }

  lemma {:induction false} VisitedByAnyHasFirst(g: Graph, cx: Context, s: State, roots: seq<nat>, c: nat)
    returns (x: nat)
    requires WellFormed(g) && Fits(g, s) && FlagsConsistent(g, s.traversing) && AreNodes(g, roots)
    requires IsNode(g, c) && g[c].canonical == c && c !in s.visited && c !in s.traversing
    requires c in TraverseChildren(g, RedundancyMarking, cx, s, roots).0.visited
    ensures IsNode(g, x) && Canonical(g, x) == c && FirstMetOfAny(g, cx, s, roots, x)
    decreases NotTraversing(g, s), 1, |roots|
  {
    hide Traverse, FirstMet;
    TraverseContinues(g, RedundancyMarking, cx, s, roots[0]);
    var t := Traverse(g, RedundancyMarking, cx, s, roots[0]).0;
    if c in t.visited {
      x := VisitedHasFirst(g, cx, s, roots[0], c);
    } else {
      x := VisitedByAnyHasFirst(g, cx, t, roots[1..], c);
    }
  }

  /** On any graph only nodes of visited classes are marked. */
  lemma {:induction false} MarksAreVisited(g: Graph, cx: Context, s: State, n: nat, x: nat)
    requires WellFormed(g) && Fits(g, s) && FlagsConsistent(g, s.traversing) && IsNode(g, n) && IsNode(g, x)
    ensures var t := Traverse(g, RedundancyMarking, cx, s, n).0;
            Redundant in t.category[x] && Redundant !in s.category[x] ==> Canonical(g, x) in t.visited
    decreases NotTraversing(g, s), 0, 0
  {
    hide Traverse, TraverseChildren, VisitBegin, VisitEnd;
    TraverseShape(g, RedundancyMarking, cx, s, n);
    SightMarks(g, cx, s, n, x);
    EndMarks(g, cx, Below(g, RedundancyMarking, cx, s, n), n, x);
    NotForbiddenOrSkipped(g, cx, s, n);
    if GoesDown(g, RedundancyMarking, cx, s, n) {
      MarksOfAnyAreVisited(g, cx, BeginTraversing(g, Before(g, RedundancyMarking, cx, s, n), n), Children(g, n), x);
    }
  }

  /** When the end of a traversal does not mark the class as visited, then it was visited before. */
  lemma NotForbiddenOrSkipped(g: Graph, cx: Context, s: State, n: nat)
    requires WellFormed(g) && Fits(g, s) && FlagsConsistent(g, s.traversing) && IsNode(g, n)
    ensures Canonical(g, n) in Traverse(g, RedundancyMarking, cx, s, n).0.visited
  {
    hide Traverse, TraverseChildren, VisitBegin, VisitEnd;
    TraverseShape(g, RedundancyMarking, cx, s, n);
  }

  lemma {:induction false} MarksOfAnyAreVisited(g: Graph, cx: Context, s: State, roots: seq<nat>, x: nat)
    requires WellFormed(g) && Fits(g, s) && FlagsConsistent(g, s.traversing) && AreNodes(g, roots) && IsNode(g, x)
    ensures var t := TraverseChildren(g, RedundancyMarking, cx, s, roots).0;
            Redundant in t.category[x] && Redundant !in s.category[x] ==> Canonical(g, x) in t.visited
    decreases NotTraversing(g, s), 1, |roots|
  {
    hide Traverse;
    if roots != [] {
      MarksAreVisited(g, cx, s, roots[0], x);
      TraverseContinues(g, RedundancyMarking, cx, s, roots[0]);
      MarksOfAnyAreVisited(g, cx, Traverse(g, RedundancyMarking, cx, s, roots[0]).0, roots[1..], x);
    }
  }

  // ----- The first node that is met of a class stands for it

  lemma TreeParts(g: Graph, rank: nat -> nat, n: nat)
    requires WellFormed(g) && Ranked(g, rank) && IsNode(g, n)
    ensures Tree(g, rank, n) == iset{n} + Trees(g, rank, Children(g, n)) && n !in Trees(g, rank, Children(g, n))
  {
    if InForest(g, rank, Children(g, n), n) {
      var i :| 0 <= i < |Children(g, n)| && InTree(g, rank, Children(g, n)[i], n);
      InTreeRank(g, rank, Children(g, n)[i], n);
    }
  }

  lemma TreesParts(g: Graph, rank: nat -> nat, roots: seq<nat>)
    requires WellFormed(g) && Ranked(g, rank) && AreNodes(g, roots) && roots != [] && Apart(g, rank, roots)
    ensures Trees(g, rank, roots) == Tree(g, rank, roots[0]) + Trees(g, rank, roots[1..])
    ensures Tree(g, rank, roots[0]) !! Trees(g, rank, roots[1..]) && Apart(g, rank, roots[1..])
  {
  }

  /** What it takes to traverse trees: the visitor has nothing left over, and no node of theirs is marked. */
  ghost predicate Ready(g: Graph, s: State, trees: iset<nat>) {
    && Fits(g, s) && FlagsConsistent(g, s.traversing) && NothingSkipped(s)
    && forall x :: x in trees && IsNode(g, x) ==> Redundant !in s.category[x]
  }

  /** A node of a new class is not marked when the visitor comes across it. */
  lemma OnSight(g: Graph, cx: Context, s: State, n: nat)
    requires WellFormed(g) && Fits(g, s) && IsNode(g, n) && NothingSkipped(s)
    requires Canonical(g, n) !in s.visited && Canonical(g, n) !in s.traversing
    ensures var b := Before(g, RedundancyMarking, cx, s, n);
            b.category == s.category && b.skipChildren == b.skippedChildren
            && (!b.skipChildren ==> b == s)
  {
    hide ToBeReported, RedundantWithSibling;
  }

  /** Going down to its children, which are other nodes, does not mark it either. */
  lemma FirstItself(g: Graph, rank: nat -> nat, cx: Context, s: State, n: nat)
    requires WellFormed(g) && Ranked(g, rank) && IsNode(g, n) && Ready(g, s, Tree(g, rank, n))
    requires FirstMet(g, cx, s, n, n)
    ensures Stands(g, cx, Traverse(g, RedundancyMarking, cx, s, n).0, n)
  {
    hide Traverse, TraverseChildren, InTree, VisitBegin, VisitEnd, Marked;
    TraverseShape(g, RedundancyMarking, cx, s, n);
    TreeParts(g, rank, n);
    OnSight(g, cx, s, n);
    assert n in Tree(g, rank, n);
    if GoesDown(g, RedundancyMarking, cx, s, n) {
      OtherTreesUnchanged(g, rank, cx, BeginTraversing(g, s, n), Children(g, n));
    }
    assert Stands(g, cx, Below(g, RedundancyMarking, cx, s, n), n);
    AtEnd(g, cx, Below(g, RedundancyMarking, cx, s, n), n, n);
  }

  /** When the children of a node are looked at, they are ready to be traversed. */
  lemma ReadyBelow(g: Graph, rank: nat -> nat, cx: Context, s: State, n: nat)
    requires WellFormed(g) && Ranked(g, rank) && IsNode(g, n) && Ready(g, s, Tree(g, rank, n))
    requires GoesDown(g, RedundancyMarking, cx, s, n)
    ensures var b := Before(g, RedundancyMarking, cx, s, n);
            Ready(g, BeginTraversing(g, b, n), Trees(g, rank, Children(g, n)))
  {
    hide MarkedOnSight, ToBeReported, InTree;
    TreeParts(g, rank, n);
  }

  lemma {:induction false} FirstStands(g: Graph, rank: nat -> nat, cx: Context, s: State, n: nat, x: nat)
    requires WellFormed(g) && Ranked(g, rank) && AllApart(g, rank) && IsNode(g, n) && Ready(g, s, Tree(g, rank, n))
    requires FirstMet(g, cx, s, n, x)
    ensures IsNode(g, x) && Stands(g, cx, Traverse(g, RedundancyMarking, cx, s, n).0, x)
    decreases NotTraversing(g, s), 0, 0
  {
    hide Traverse, TraverseChildren, InTree, Before, Stands, FirstMetOfAny, Ranked, Apart;
    if x == n {
      FirstItself(g, rank, cx, s, n);
    } else {
      ReadyBelow(g, rank, cx, s, n);
      var b := Before(g, RedundancyMarking, cx, s, n);
      BeginTraversingDecreases(g, b, n);
      FirstOfAnyStands(g, rank, cx, BeginTraversing(g, b, n), Children(g, n), x);
      FirstStandsAfter(g, cx, s, n, x);
    }
  }

  /** What stands after the children of a node have been looked at, stands when the node is left. */
  lemma FirstStandsAfter(g: Graph, cx: Context, s: State, n: nat, x: nat)
    requires WellFormed(g) && Fits(g, s) && FlagsConsistent(g, s.traversing) && IsNode(g, n) && IsNode(g, x)
    requires GoesDown(g, RedundancyMarking, cx, s, n)
    requires var u := BeginTraversing(g, Before(g, RedundancyMarking, cx, s, n), n);
             Stands(g, cx, TraverseChildren(g, RedundancyMarking, cx, u, Children(g, n)).0, x)
    ensures Stands(g, cx, Traverse(g, RedundancyMarking, cx, s, n).0, x)
  {
    hide Traverse, TraverseChildren, VisitBegin, VisitEnd, Marked, Stands;
    TraverseShape(g, RedundancyMarking, cx, s, n);
    var u := BeginTraversing(g, Before(g, RedundancyMarking, cx, s, n), n);
    var w := TraverseChildren(g, RedundancyMarking, cx, u, Children(g, n)).0;
    SameCategoriesStand(g, cx, w, EndTraversing(g, w, n), x);
    AtEnd(g, cx, EndTraversing(g, w, n), n, x);
  }

  lemma SameCategoriesStand(g: Graph, cx: Context, s: State, t: State, y: nat)
    requires WellFormed(g) && Fits(g, s) && IsNode(g, y) && Stands(g, cx, s, y)
    requires t.category == s.category && t.localCategory == s.localCategory
    ensures Fits(g, t) && Stands(g, cx, t, y)
  {
  }

  lemma {:induction false} FirstOfAnyStands(g: Graph, rank: nat -> nat, cx: Context, s: State, roots: seq<nat>, x: nat)
    requires WellFormed(g) && Ranked(g, rank) && AllApart(g, rank) && AreNodes(g, roots) && Apart(g, rank, roots)
    requires Ready(g, s, Trees(g, rank, roots)) && FirstMetOfAny(g, cx, s, roots, x)
    ensures IsNode(g, x) && Stands(g, cx, TraverseChildren(g, RedundancyMarking, cx, s, roots).0, x)
    decreases NotTraversing(g, s), 1, |roots|
  {
    hide Traverse, InTree, Stands, FirstMet, Apart, AllApart;
    TreesParts(g, rank, roots);
    TraverseContinues(g, RedundancyMarking, cx, s, roots[0]);
    TraverseRestoresVisitor(g, cx, s, roots[0]);
    OthersUnchanged(g, rank, cx, s, roots[0]);
    var t := Traverse(g, RedundancyMarking, cx, s, roots[0]).0;
    if FirstMet(g, cx, s, roots[0], x) {
      FirstStands(g, rank, cx, s, roots[0], x);
      FirstMetInTree(g, rank, cx, s, roots[0], x);
      StandsAfterOthers(g, rank, cx, t, roots[1..], x);
    } else {
      FirstOfAnyStands(g, rank, cx, t, roots[1..], x);
    }
  }

  lemma StandsAfterOthers(g: Graph, rank: nat -> nat, cx: Context, s: State, roots: seq<nat>, y: nat)
    requires WellFormed(g) && Ranked(g, rank) && AreNodes(g, roots) && Ready(g, s, Trees(g, rank, roots))
    requires IsNode(g, y) && y !in Trees(g, rank, roots) && Stands(g, cx, s, y)
    ensures Stands(g, cx, TraverseChildren(g, RedundancyMarking, cx, s, roots).0, y)
  {
    hide TraverseChildren, InTree, Stands, ReachedFromAny;
    var t := TraverseChildren(g, RedundancyMarking, cx, s, roots).0;
    OtherTreesUnchanged(g, rank, cx, s, roots);
    TraverseChildrenRestoresVisitor(g, cx, s, roots);
    forall x | IsNode(g, x)
      ensures MarkedOnly(s.category, t.category, x, true)
    {
      TraverseChildrenMarks(g, cx, s, roots, x);
    }
    StandsOn(g, cx, s, t, y);
  }

  // ----- The pass

  /** Every node is in at most one place of the trees below the roots. */
  ghost predicate IsForest(g: Graph, rank: nat -> nat, roots: seq<nat>)
    requires WellFormed(g) && AreNodes(g, roots)
  {
    Ranked(g, rank) && AllApart(g, rank) && Apart(g, rank, roots)
  }

  /** A pass may start: nothing is visited, or being traversed, or marked. */
  ghost predicate Fresh(g: Graph, s: State) {
    && Fits(g, s) && NothingSkipped(s) && s.visited == {} && s.traversing == {}
    && forall y :: IsNode(g, y) ==> Redundant !in s.category[y]
  }

  /** Nothing is lost: the first node that is met of each class stands for it in the end, and is not marked at
      all when it has local changes to report; and whenever a node is marked, such a first node of its class
      was met. */
  ghost predicate FirstsKept(g: Graph, cx: Context, s: State, t: State, roots: seq<nat>)
    requires WellFormed(g) && AreNodes(g, roots) && Fits(g, s) && FlagsConsistent(g, s.traversing) && Fits(g, t)
  {
    && (forall x: nat :: FirstMetOfAny(g, cx, s, roots, x) ==>
          IsNode(g, x) && Stands(g, cx, t, x)
          && (HasLocalChangesToBeReported(g, cx, s, x) ==> Redundant !in t.category[x]))
    && (forall x: nat :: IsNode(g, x) && Redundant in t.category[x] ==>
          exists y: nat :: IsNode(g, y) && Canonical(g, y) == Canonical(g, x) && FirstMetOfAny(g, cx, s, roots, y))
  }

  /** In a redundancy pass over a forest, the first node that is met of a class is not marked when it has local
      changes to report. */
  lemma FirstMetNotMarked(g: Graph, rank: nat -> nat, cx: Context, s: State, roots: seq<nat>, x: nat)
    requires WellFormed(g) && AreNodes(g, roots) && IsForest(g, rank, roots) && Fresh(g, s)
    requires FirstMetOfAny(g, cx, s, roots, x)
    ensures IsNode(g, x)
    ensures HasLocalChangesToBeReported(g, cx, s, x) ==>
              Redundant !in TraverseChildren(g, RedundancyMarking, cx, s, roots).0.category[x]
  {
    hide TraverseChildren, FirstMetOfAny, IsFilteredOut;
    FirstOfAnyStands(g, rank, cx, s, roots, x);
    TraverseChildrenRestoresVisitor(g, cx, s, roots);
  }

  /** A redundancy pass over a forest, with nothing visited and nothing marked before, keeps the first node that
      it meets of every class. */
  lemma MarkingKeepsFirsts(g: Graph, rank: nat -> nat, cx: Context, s: State, roots: seq<nat>)
    requires WellFormed(g) && AreNodes(g, roots) && IsForest(g, rank, roots) && Fresh(g, s)
    ensures FirstsKept(g, cx, s, TraverseChildren(g, RedundancyMarking, cx, s, roots).0, roots)
  {
    hide TraverseChildren, FirstMetOfAny, Stands, HasLocalChangesToBeReported;
    var t := TraverseChildren(g, RedundancyMarking, cx, s, roots).0;
    forall x: nat | FirstMetOfAny(g, cx, s, roots, x)
      ensures IsNode(g, x) && Stands(g, cx, t, x)
      ensures HasLocalChangesToBeReported(g, cx, s, x) ==> Redundant !in t.category[x]
    {
      FirstOfAnyStands(g, rank, cx, s, roots, x);
      FirstMetNotMarked(g, rank, cx, s, roots, x);
    }
    forall x: nat | IsNode(g, x) && Redundant in t.category[x]
      ensures exists y: nat :: IsNode(g, y) && Canonical(g, y) == Canonical(g, x) && FirstMetOfAny(g, cx, s, roots, y)
    {
      MarksOfAnyAreVisited(g, cx, s, roots, x);
      var y := VisitedByAnyHasFirst(g, cx, s, roots, Canonical(g, x));
    }
  }

  /** A node that is the only one of its class is not marked as long as it has changes of its own to report. */
  lemma NotMarkedAlone(g: Graph, rank: nat -> nat, cx: Context, s: State, roots: seq<nat>, x: nat)
    requires WellFormed(g) && AreNodes(g, roots) && IsForest(g, rank, roots) && Fresh(g, s)
    requires IsNode(g, x) && HasLocalChangesToBeReported(g, cx, s, x)
    requires forall y: nat ::
               IsNode(g, y) && InForest(g, rank, roots, y) && Canonical(g, y) == Canonical(g, x) ==> y == x
    ensures Redundant !in TraverseChildren(g, RedundancyMarking, cx, s, roots).0.category[x]
  {
    hide TraverseChildren, FirstMetOfAny, InForest, IsFilteredOut;
    if Redundant in TraverseChildren(g, RedundancyMarking, cx, s, roots).0.category[x] {
      MarksOfAnyAreVisited(g, cx, s, roots, x);
      var y := VisitedByAnyHasFirst(g, cx, s, roots, Canonical(g, x));
      FirstMetInForest(g, rank, cx, s, roots, y);
      FirstMetNotMarked(g, rank, cx, s, roots, y);
    }
  }
}
