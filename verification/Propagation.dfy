/** What the category propagation pass does to the categories of the nodes. */
module PropagationPass {
  import opened DiffGraph

  // ----- Reachability between classes of nodes

  /** A node of class c has a child of class d. */
  ghost predicate Edge(g: Graph, c: nat, d: nat)
    requires WellFormed(g)
  {
    exists n, i :: IsNode(g, n) && Canonical(g, n) == c && 0 <= i < |Children(g, n)|
        && Canonical(g, Children(g, n)[i]) == d
  }

  ghost predicate IsPath(g: Graph, p: seq<nat>)
    requires WellFormed(g)
  {
    forall i :: 0 <= i < |p| - 1 ==> Edge(g, p[i], p[i + 1])
  }

  ghost predicate Reaches(g: Graph, c: nat, d: nat)
    requires WellFormed(g)
  {
    exists p :: |p| > 0 && p[0] == c && p[|p| - 1] == d && IsPath(g, p)
  }

  lemma ReachesItself(g: Graph, c: nat)
    requires WellFormed(g)
    ensures Reaches(g, c, c)
  {
    var p := [c];
    assert |p| > 0 && p[0] == c && p[|p| - 1] == c && IsPath(g, p);
  }

  lemma EdgeReaches(g: Graph, c: nat, d: nat, e: nat)
    requires WellFormed(g) && Edge(g, c, d) && Reaches(g, d, e)
    ensures Reaches(g, c, e)
  {
    var p :| |p| > 0 && p[0] == d && p[|p| - 1] == e && IsPath(g, p);
    var q := [c] + p;
    forall i | 0 <= i < |q| - 1
      ensures Edge(g, q[i], q[i + 1])
    {
      if i > 0 {
        assert q[i] == p[i - 1] && q[i + 1] == p[i - 1 + 1];
      }
    }
    assert |q| > 0 && q[0] == c && q[|q| - 1] == e && IsPath(g, q);
  }

  lemma ChildEdge(g: Graph, n: nat, i: nat)
    requires WellFormed(g) && IsNode(g, n) && i < |Children(g, n)|
    ensures Edge(g, Canonical(g, n), Canonical(g, Children(g, n)[i]))
  {
  }

  // ----- Soundness, on any graph

  const NOT_PROPAGATED: Categories := {Redundant, Suppressed}

  /** Some node of a class that is reachable from the class of n had the category b before the pass. */
  ghost predicate Inherited(g: Graph, before: seq<Categories>, n: nat, b: Category)
    requires WellFormed(g) && IsNode(g, n) && |before| == |g|
  {
    b !in NOT_PROPAGATED && exists y :: IsNode(g, y) && Reaches(g, Canonical(g, n), Canonical(g, y)) && b in before[y]
  }

  /** No node has a category other than its own and inherited ones, and none has lost a category. */
  ghost predicate OnlyInherited(g: Graph, before: seq<Categories>, after: seq<Categories>)
    requires WellFormed(g) && |before| == |after| == |g|
  {
    forall n, b :: IsNode(g, n) ==>
                     && (b in before[n] ==> b in after[n])
                     && (b in after[n] ==> b in before[n] || Inherited(g, before, n, b))
  }

  /** What a child has or inherits, its parent inherits, and so does the whole class of the parent. */
  lemma ChildInherited(g: Graph, before: seq<Categories>, n: nat, i: nat, m: nat, b: Category)
    requires WellFormed(g) && IsNode(g, n) && IsNode(g, m) && |before| == |g| && i < |Children(g, n)|
    requires b !in NOT_PROPAGATED
    requires Canonical(g, m) == Canonical(g, Children(g, n)[i])
    requires b in before[m] || Inherited(g, before, m, b)
    ensures Inherited(g, before, n, b) && Inherited(g, before, Canonical(g, n), b)
  {
    ChildEdge(g, n, i);
    var y: nat :| IsNode(g, y) && b in before[y] && (y == m || Reaches(g, Canonical(g, m), Canonical(g, y)));
    ReachesItself(g, Canonical(g, m));
    EdgeReaches(g, Canonical(g, n), Canonical(g, m), Canonical(g, y));
  }

  lemma PropagateChildSound(g: Graph, before: seq<Categories>, s: State, n: nat, i: nat, alreadyVisited: bool)
    requires WellFormed(g) && Fits(g, s) && IsNode(g, n) && |before| == |g| && i < |Children(g, n)|
    requires OnlyInherited(g, before, s.category)
    ensures OnlyInherited(g, before, PropagateChild(g, s, n, Children(g, n)[i], alreadyVisited).category)
  {
    hide Inherited, Reaches, Edge;
    var child := Children(g, n)[i];
    var m := if alreadyVisited then Canonical(g, child) else child;
    assert Canonical(g, m) == Canonical(g, child);
    var t := PropagateChild(g, s, n, child, alreadyVisited);
    forall x, b | IsNode(g, x)
      ensures b in before[x] ==> b in t.category[x]
      ensures b in t.category[x] ==> b in before[x] || Inherited(g, before, x, b)
    {
      if b in t.category[x] && b !in s.category[x] {
        assert b in s.category[m];
        ChildInherited(g, before, n, i, m, b);
      }
    }
  }

  lemma {:induction false} PropagateChildrenSound(g: Graph, before: seq<Categories>, s: State, n: nat, from: nat,
                                                  alreadyVisited: bool)
    requires WellFormed(g) && Fits(g, s) && IsNode(g, n) && |before| == |g| && from <= |Children(g, n)|
    requires OnlyInherited(g, before, s.category)
    ensures OnlyInherited(g, before, PropagateChildren(g, s, n, Children(g, n)[from..], alreadyVisited).category)
    decreases |Children(g, n)| - from
  {
    hide OnlyInherited;
    var children := Children(g, n);
    if from < |children| {
      PropagateChildSound(g, before, s, n, from, alreadyVisited);
      assert children[from..][1..] == children[from + 1..];
      PropagateChildrenSound(g, before, PropagateChild(g, s, n, children[from], alreadyVisited), n, from + 1,
                             alreadyVisited);
    }
  }

  /** Propagation never gives a node a category that no node of a reachable class had before, whatever the
      shape of the graph, and it never takes a category away. */
  lemma {:induction false} TraverseSound(g: Graph, cx: Context, before: seq<Categories>, s: State, n: nat)
    requires WellFormed(g) && Fits(g, s) && FlagsConsistent(g, s.traversing) && IsNode(g, n) && |before| == |g|
    requires OnlyInherited(g, before, s.category)
    ensures OnlyInherited(g, before, Traverse(g, Propagation, cx, s, n).0.category)
    decreases NotTraversing(g, s), 0, 0
  {
    hide OnlyInherited, PropagateChildren, Traverse;
    var children := Children(g, n);
    assert children[0..] == children;
    TraverseShape(g, Propagation, cx, s, n);
    if GoesDown(g, Propagation, cx, s, n) {
      TraverseChildrenSound(g, cx, before, BeginTraversing(g, s, n), children);
    }
    var t := Below(g, Propagation, cx, s, n);
    PropagateChildrenSound(g, before, t, n, 0, Canonical(g, n) in t.visited);
  }

  lemma {:induction false} TraverseChildrenSound(g: Graph, cx: Context, before: seq<Categories>, s: State,
                                                 children: seq<nat>)
    requires WellFormed(g) && Fits(g, s) && FlagsConsistent(g, s.traversing) && AreNodes(g, children) && |before| == |g|
    requires OnlyInherited(g, before, s.category)
    ensures OnlyInherited(g, before, TraverseChildren(g, Propagation, cx, s, children).0.category)
    decreases NotTraversing(g, s), 1, |children|
  {
    hide OnlyInherited;
    if children != [] {
      TraverseSound(g, cx, before, s, children[0]);
      TraverseChildrenSound(g, cx, before, Traverse(g, Propagation, cx, s, children[0]).0, children[1..]);
    }
  }

  // ----- Completeness, on graphs without cycles

  /** There is no cycle of classes: going down from a node to a child makes the rank of the class smaller. */
  ghost predicate Acyclic(g: Graph, rank: nat -> nat)
    requires WellFormed(g)
  {
    forall n, i :: IsNode(g, n) && 0 <= i < |Children(g, n)| ==>
        rank(Canonical(g, Children(g, n)[i])) < rank(Canonical(g, n))
  }

  /** A child of one of the two nodes has a counterpart among the children of the other one. */
  ghost predicate HasChildOfClass(g: Graph, n: nat, c: nat)
    requires WellFormed(g) && IsNode(g, n)
  {
    exists i :: 0 <= i < |Children(g, n)| && Canonical(g, Children(g, n)[i]) == c
  }

  /** The nodes of a class start with the same categories, and have children of the same classes. */
  ghost predicate Consistent(g: Graph, before: seq<Categories>)
    requires WellFormed(g) && |before| == |g|
  {
    forall n, m :: IsNode(g, n) && IsNode(g, m) && Canonical(g, n) == Canonical(g, m) ==>
                     && before[n] - NOT_PROPAGATED == before[m] - NOT_PROPAGATED
                     && forall c :: HasChildOfClass(g, n, c) ==> HasChildOfClass(g, m, c)
  }

  /** The node has every category it inherits. */
  ghost predicate Complete(g: Graph, before: seq<Categories>, category: seq<Categories>, n: nat)
    requires WellFormed(g) && IsNode(g, n) && |before| == |category| == |g|
  {
    forall b :: Inherited(g, before, n, b) ==> b in category[n]
  }

  ghost predicate Grows(p: seq<Categories>, q: seq<Categories>) {
    |p| == |q| && forall n :: 0 <= n < |p| ==> p[n] <= q[n]
  }

  /** What is visited is complete, and so is everything below it. */
  ghost predicate VisitedComplete(g: Graph, before: seq<Categories>, category: seq<Categories>, visited: set<nat>)
    requires WellFormed(g) && |before| == |category| == |g|
  {
    forall c :: c in visited ==>
                  && IsNode(g, c) && Canonical(g, c) == c && Complete(g, before, category, c)
                  && forall d :: HasChildOfClass(g, c, d) ==> d in visited
  }

  lemma CompleteGrows(g: Graph, before: seq<Categories>, p: seq<Categories>, q: seq<Categories>, visited: set<nat>)
    requires WellFormed(g) && |before| == |g| && |p| == |g| && Grows(p, q)
    ensures forall n :: IsNode(g, n) && Complete(g, before, p, n) ==> Complete(g, before, q, n)
    ensures VisitedComplete(g, before, p, visited) ==> VisitedComplete(g, before, q, visited)
  {
  }

  /** A path is its first edge and a shorter path. */
  lemma ReachesFirst(g: Graph, c: nat, e: nat) returns (d: nat)
    requires WellFormed(g) && Reaches(g, c, e) && c != e
    ensures Edge(g, c, d) && Reaches(g, d, e)
  {
    var p :| |p| > 0 && p[0] == c && p[|p| - 1] == e && IsPath(g, p);
    d := p[1];
    assert Edge(g, p[0], p[0 + 1]);
    var q := p[1..];
    forall i | 0 <= i < |q| - 1
      ensures Edge(g, q[i], q[i + 1])
    {
      assert q[i] == p[i + 1] && q[i + 1] == p[i + 1 + 1];
    }
    assert |q| > 0 && q[0] == d && q[|q| - 1] == e && IsPath(g, q);
  }

  /** All nodes of a class have children of the classes that it has an edge to. */
  lemma EdgeToChild(g: Graph, before: seq<Categories>, n: nat, d: nat) returns (i: nat)
    requires WellFormed(g) && IsNode(g, n) && |before| == |g| && Consistent(g, before) && Edge(g, Canonical(g, n), d)
    ensures i < |Children(g, n)| && Canonical(g, Children(g, n)[i]) == d
  {
    var m, j :| IsNode(g, m) && Canonical(g, m) == Canonical(g, n) && 0 <= j < |Children(g, m)|
        && Canonical(g, Children(g, m)[j]) == d;
    assert HasChildOfClass(g, m, d);
    assert HasChildOfClass(g, n, d);
    i :| 0 <= i < |Children(g, n)| && Canonical(g, Children(g, n)[i]) == d;
  }

  /** What a node inherits it either has already, or one of its children has or inherits it. */
  lemma InheritedFrom(g: Graph, before: seq<Categories>, n: nat, b: Category) returns (own: bool, i: nat)
    requires WellFormed(g) && IsNode(g, n) && |before| == |g| && Consistent(g, before)
    requires Inherited(g, before, n, b)
    ensures own ==> b in before[n]
    ensures !own ==> i < |Children(g, n)| && Inherited(g, before, Children(g, n)[i], b)
    ensures !own ==> Inherited(g, before, Canonical(g, Children(g, n)[i]), b)
  {
    hide Edge, Reaches, HasChildOfClass;
    var y: nat :| IsNode(g, y) && Reaches(g, Canonical(g, n), Canonical(g, y)) && b in before[y];
    own := Canonical(g, n) == Canonical(g, y);
    i := 0;
    if own {
      assert b in before[y] - NOT_PROPAGATED;
    } else {
      var d := ReachesFirst(g, Canonical(g, n), Canonical(g, y));
      i := EdgeToChild(g, before, n, d);
    }
  }

  /** Propagating only adds, and it adds what the children have. */
  lemma {:induction false} PropagateChildrenAdds(g: Graph, s: State, n: nat, children: seq<nat>, alreadyVisited: bool)
    requires WellFormed(g) && Fits(g, s) && IsNode(g, n) && AreNodes(g, children)
    ensures var t := PropagateChildren(g, s, n, children, alreadyVisited);
            && Grows(s.category, t.category)
            && forall i :: 0 <= i < |children| ==> ChildAdded(g, s, t, n, children[i], alreadyVisited)
    decreases |children|
  {
    if children != [] {
      var u := PropagateChild(g, s, n, children[0], alreadyVisited);
      PropagateChildrenAdds(g, u, n, children[1..], alreadyVisited);
      var t := PropagateChildren(g, u, n, children[1..], alreadyVisited);
      forall i | 0 <= i < |children|
        ensures ChildAdded(g, s, t, n, children[i], alreadyVisited)
      {
        if i > 0 {
          assert children[i] == children[1..][i - 1];
          assert ChildAdded(g, u, t, n, children[1..][i - 1], alreadyVisited);
        }
      }
    }
  }

  ghost predicate ChildAdded(g: Graph, s: State, t: State, n: nat, child: nat, alreadyVisited: bool)
    requires WellFormed(g) && Fits(g, s) && Fits(g, t) && IsNode(g, n) && IsNode(g, child)
  {
    var c := s.category[if alreadyVisited then Canonical(g, child) else child] - NOT_PROPAGATED;
    c <= t.category[n] && (alreadyVisited || c <= t.category[Canonical(g, n)])
  }

  /** Once the children are complete, or their canonical nodes, the node is complete, and on the first visit
      of its class the canonical node is complete as well. */
  lemma PropagateChildrenCompletes(g: Graph, before: seq<Categories>, s: State, n: nat, alreadyVisited: bool)
    requires WellFormed(g) && Fits(g, s) && IsNode(g, n) && |before| == |g| && Consistent(g, before)
    requires Grows(before, s.category)
    requires forall i :: 0 <= i < |Children(g, n)| ==>
               Complete(g, before, s.category,
                   if alreadyVisited then Canonical(g, Children(g, n)[i]) else Children(g, n)[i])
    ensures var t := PropagateChildren(g, s, n, Children(g, n), alreadyVisited);
            && Complete(g, before, t.category, n)
            && (alreadyVisited || Complete(g, before, t.category, Canonical(g, n)))
  {
    hide PropagateChildren;
    var children := Children(g, n);
    PropagateChildrenAdds(g, s, n, children, alreadyVisited);
    var t := PropagateChildren(g, s, n, children, alreadyVisited);
    forall b | Inherited(g, before, n, b)
      ensures b in t.category[n] && (alreadyVisited || b in t.category[Canonical(g, n)])
    {
      var own, i := InheritedFrom(g, before, n, b);
      if own {
        SameOwn(g, before, n, b);
      } else {
        assert ChildAdded(g, s, t, n, children[i], alreadyVisited);
        assert b !in NOT_PROPAGATED;
      }
    }
  }

  lemma SameOwn(g: Graph, before: seq<Categories>, n: nat, b: Category)
    requires WellFormed(g) && IsNode(g, n) && |before| == |g| && Consistent(g, before)
    requires b in before[n] && b !in NOT_PROPAGATED
    ensures b in before[Canonical(g, n)]
  {
    assert b in before[n] - NOT_PROPAGATED;
    assert before[n] - NOT_PROPAGATED == before[Canonical(g, n)] - NOT_PROPAGATED;
  }

  /** The state of a pass that visits every class once, on a graph without cycles: classes that are being
      traversed are above `r`. */
  ghost predicate PassState(g: Graph, rank: nat -> nat, before: seq<Categories>, s: State, r: int)
    requires WellFormed(g) && |before| == |g|
  {
    && Fits(g, s) && FlagsConsistent(g, s.traversing) && !s.skipChildren
    && Grows(before, s.category) && VisitedComplete(g, before, s.category, s.visited)
    && forall t :: t in s.traversing ==> r < rank(Canonical(g, t))
  }

  /** What a step of the pass keeps and adds: categories grow, and only classes of at most rank `r` become
      visited. */
  ghost predicate PassStep(g: Graph, rank: nat -> nat, s: State, t: State, r: int)
    requires WellFormed(g)
  {
    && Fits(g, s) && Fits(g, t) && Grows(s.category, t.category) && s.visited <= t.visited
        && s.traversing == t.traversing
    && !t.skipChildren
    && forall c :: c in t.visited && c !in s.visited ==> IsNode(g, c) && rank(c) <= r
  }

  lemma VisitOneMore(g: Graph, before: seq<Categories>, category: seq<Categories>, visited: set<nat>, n: nat)
    requires WellFormed(g) && |before| == |category| == |g| && IsNode(g, n) && Consistent(g, before)
    requires VisitedComplete(g, before, category, visited) && Complete(g, before, category, Canonical(g, n))
    requires forall i :: 0 <= i < |Children(g, n)| ==> Canonical(g, Children(g, n)[i]) in visited
    ensures VisitedComplete(g, before, category, visited + {Canonical(g, n)})
  {
  }

  lemma GrowsTransitive(p: seq<Categories>, q: seq<Categories>, r: seq<Categories>)
    requires Grows(p, q) && Grows(q, r)
    ensures Grows(p, r)
  {
  }

  /** After the children of a node are complete, finishing the node makes it complete, and its class. */
  lemma FinishNode(g: Graph, rank: nat -> nat, before: seq<Categories>, s: State, n: nat)
    requires WellFormed(g) && |before| == |g| && IsNode(g, n) && Consistent(g, before)
    requires PassState(g, rank, before, s, rank(Canonical(g, n)))
    requires forall i :: 0 <= i < |Children(g, n)| ==> Canonical(g, Children(g, n)[i]) in s.visited
    requires Canonical(g, n) !in s.visited ==>
               forall i :: 0 <= i < |Children(g, n)| ==> Complete(g, before, s.category, Children(g, n)[i])
    ensures var p := PropagateChildren(g, s, n, Children(g, n), Canonical(g, n) in s.visited);
            && PassState(g, rank, before, Marked(g, Propagation, p, n), rank(Canonical(g, n)))
            && PassStep(g, rank, s, Marked(g, Propagation, p, n), rank(Canonical(g, n)))
            && Complete(g, before, p.category, n)
            && (Canonical(g, n) in s.visited ==> Marked(g, Propagation, p, n) == p)
  {
    hide PropagateChildren, Inherited, Complete, Grows, VisitedComplete, Consistent;
    var c := Canonical(g, n);
    var alreadyVisited := c in s.visited;
    var p := PropagateChildren(g, s, n, Children(g, n), alreadyVisited);
    PropagateChildrenKeeps(g, s, n, Children(g, n), alreadyVisited);
    PropagateChildrenAdds(g, s, n, Children(g, n), alreadyVisited);
    assert forall i :: 0 <= i < |Children(g, n)| ==>
               Complete(g, before, s.category,
                   if alreadyVisited then Canonical(g, Children(g, n)[i]) else Children(g, n)[i]) by {
      VisitedAreComplete(g, before, s.category, s.visited);
    }
    PropagateChildrenCompletes(g, before, s, n, alreadyVisited);
    CompleteGrows(g, before, s.category, p.category, s.visited);
    GrowsTransitive(before, s.category, p.category);
    if alreadyVisited {
      assert p.visited + {c} == p.visited;
    } else {
      VisitOneMore(g, before, p.category, s.visited, n);
    }
  }

  lemma VisitedAreComplete(g: Graph, before: seq<Categories>, category: seq<Categories>, visited: set<nat>)
    requires WellFormed(g) && |before| == |category| == |g| && VisitedComplete(g, before, category, visited)
    ensures forall c :: c in visited ==> IsNode(g, c) && Complete(g, before, category, c)
  {
  }

  lemma {:induction false} PropagateChildrenKeeps(g: Graph, s: State, n: nat, children: seq<nat>, alreadyVisited: bool)
    requires WellFormed(g) && Fits(g, s) && IsNode(g, n) && AreNodes(g, children)
    ensures PropagateChildren(g, s, n, children, alreadyVisited).skipChildren == s.skipChildren
    decreases |children|
  {
    if children != [] {
      PropagateChildrenKeeps(g, PropagateChild(g, s, n, children[0], alreadyVisited), n, children[1..], alreadyVisited);
    }
  }

  /** On a graph without cycles, a pass that visits each class once makes every node it meets complete. */
  lemma {:induction false} TraverseComplete(g: Graph, rank: nat -> nat, cx: Context, before: seq<Categories>,
                                            s: State, n: nat)
    requires WellFormed(g) && |before| == |g| && IsNode(g, n) && cx.forbidVisitingTwice
    requires Acyclic(g, rank) && Consistent(g, before)
    requires PassState(g, rank, before, s, rank(Canonical(g, n)))
    ensures var t := Traverse(g, Propagation, cx, s, n).0;
            && PassState(g, rank, before, t, rank(Canonical(g, n))) && PassStep(g, rank, s, t, rank(Canonical(g, n)))
            && Complete(g, before, t.category, n) && Canonical(g, n) in t.visited
    decreases NotTraversing(g, s), 0, 0
  {
    hide Traverse, PropagateChildren, Inherited, Complete, PassState, PassStep, Consistent, Acyclic;
    var c, children := Canonical(g, n), Children(g, n);
    assert children[0..] == children;
    PropagationShape(g, rank, cx, before, s, n);
    if c in s.visited {
      VisitedChildren(g, rank, before, s, n);
      FinishNode(g, rank, before, s, n);
    } else {
      var u := BeginTraversing(g, s, n);
      BeginKeepsPassState(g, rank, before, s, n);
      TraverseChildrenComplete(g, rank, cx, before, u, n, 0);
      var w := TraverseChildren(g, Propagation, cx, u, children).0;
      EndKeepsPassState(g, rank, before, s, w, n);
      var t := EndTraversing(g, w, n);
      assert forall i :: 0 <= i < |children| ==> ChildDone(g, before, t, children[i]) by {
        assert forall i :: 0 <= i < |children| ==> ChildDone(g, before, w, children[i]);
      }
      FinishNode(g, rank, before, t, n);
      PassStepTransitive(g, rank, s, t, Traverse(g, Propagation, cx, s, n).0, rank(c));
    }
  }

  /** The traversal of a node, when the pass visits each class once. */
  lemma PropagationShape(g: Graph, rank: nat -> nat, cx: Context, before: seq<Categories>, s: State, n: nat)
    requires WellFormed(g) && |before| == |g| && IsNode(g, n) && cx.forbidVisitingTwice
    requires PassState(g, rank, before, s, rank(Canonical(g, n)))
    ensures Fits(g, s) && FlagsConsistent(g, s.traversing)
    ensures var (c, children, t) := (Canonical(g, n), Children(g, n), Traverse(g, Propagation, cx, s, n).0);
            if c in s.visited then t == PropagateChildren(g, s, n, children, true)
            else
              var u := BeginTraversing(g, s, n);
              && FlagsConsistent(g, u.traversing) && NotTraversing(g, u) < NotTraversing(g, s)
              && var b := EndTraversing(g, TraverseChildren(g, Propagation, cx, u, children).0, n);
              t == Marked(g, Propagation, PropagateChildren(g, b, n, children, c in b.visited), n)
  {
    hide Traverse, PropagateChildren, Grows, VisitedComplete;
    TraverseShape(g, Propagation, cx, s, n);
  }

  lemma {:induction false} TraverseChildrenComplete(g: Graph, rank: nat -> nat, cx: Context, before: seq<Categories>,
                                                    s: State, n: nat, k: nat)
    requires WellFormed(g) && |before| == |g| && IsNode(g, n) && k <= |Children(g, n)| && cx.forbidVisitingTwice
    requires Acyclic(g, rank) && Consistent(g, before)
    requires PassState(g, rank, before, s, rank(Canonical(g, n)) - 1)
    ensures var t := TraverseChildren(g, Propagation, cx, s, Children(g, n)[k..]).0;
            && PassState(g, rank, before, t, rank(Canonical(g, n)) - 1)
                && PassStep(g, rank, s, t, rank(Canonical(g, n)) - 1)
            && forall i :: k <= i < |Children(g, n)| ==> ChildDone(g, before, t, Children(g, n)[i])
    decreases NotTraversing(g, s), 1, |Children(g, n)| - k
  {
    hide Traverse, Inherited, Complete, Grows, VisitedComplete;
    var children, r := Children(g, n), rank(Canonical(g, n)) - 1;
    if k < |children| {
      var child := children[k];
      var rc := rank(Canonical(g, child));
      TraverseContinues(g, Propagation, cx, s, child);
      TraverseComplete(g, rank, cx, before, s, child);
      var u := Traverse(g, Propagation, cx, s, child).0;
      assert children[k..][1..] == children[k + 1..];
      TraverseChildrenComplete(g, rank, cx, before, u, n, k + 1);
      var t := TraverseChildren(g, Propagation, cx, u, children[k + 1..]).0;
      CompleteGrows(g, before, u.category, t.category, u.visited);
      PassStepTransitive(g, rank, s, u, t, r);
    } else {
      assert children[k..] == [];
      NothingGrows(s.category);
    }
  }

  ghost predicate ChildDone(g: Graph, before: seq<Categories>, t: State, child: nat)
    requires WellFormed(g) && |before| == |g| && Fits(g, t) && IsNode(g, child)
  {
    Complete(g, before, t.category, child) && Canonical(g, child) in t.visited
  }

  lemma NothingGrows(p: seq<Categories>)
    ensures Grows(p, p)
  {
  }

  lemma PassStepTransitive(g: Graph, rank: nat -> nat, s: State, t: State, u: State, r: int)
    requires WellFormed(g) && PassStep(g, rank, s, t, r) && PassStep(g, rank, t, u, r)
    ensures PassStep(g, rank, s, u, r)
  {
  }

  lemma BeginKeepsPassState(g: Graph, rank: nat -> nat, before: seq<Categories>, s: State, n: nat)
    requires WellFormed(g) && |before| == |g| && IsNode(g, n)
    requires PassState(g, rank, before, s, rank(Canonical(g, n)))
    ensures Canonical(g, n) !in s.traversing
    ensures PassState(g, rank, before, BeginTraversing(g, s, n), rank(Canonical(g, n)) - 1)
  {
  }

  lemma EndKeepsPassState(g: Graph, rank: nat -> nat, before: seq<Categories>, s: State, w: State, n: nat)
    requires WellFormed(g) && |before| == |g| && IsNode(g, n) && Canonical(g, n) !in s.visited
    requires PassState(g, rank, before, s, rank(Canonical(g, n)))
    requires PassState(g, rank, before, w, rank(Canonical(g, n)) - 1)
    requires PassStep(g, rank, BeginTraversing(g, s, n), w, rank(Canonical(g, n)) - 1)
    ensures PassState(g, rank, before, EndTraversing(g, w, n), rank(Canonical(g, n)))
    ensures PassStep(g, rank, s, EndTraversing(g, w, n), rank(Canonical(g, n)))
    ensures Canonical(g, n) !in w.visited
  {
  }

  /** The classes of the children of a node of a visited class are visited. */
  lemma VisitedChildren(g: Graph, rank: nat -> nat, before: seq<Categories>, s: State, n: nat)
    requires WellFormed(g) && |before| == |g| && IsNode(g, n) && Consistent(g, before)
    requires PassState(g, rank, before, s, rank(Canonical(g, n))) && Canonical(g, n) in s.visited
    ensures forall i :: 0 <= i < |Children(g, n)| ==> Canonical(g, Children(g, n)[i]) in s.visited
  {
  }

  /** The node has its own categories and the inherited ones, and no others. */
  ghost predicate Exact(g: Graph, before: seq<Categories>, after: seq<Categories>, n: nat)
    requires WellFormed(g) && IsNode(g, n) && |before| == |after| == |g|
  {
    forall b :: b in after[n] <==> b in before[n] || Inherited(g, before, n, b)
  }

  lemma {:induction false} ReachableVisited(g: Graph, before: seq<Categories>, category: seq<Categories>,
                                            visited: set<nat>, p: seq<nat>)
    requires WellFormed(g) && |before| == |category| == |g| && Consistent(g, before)
    requires VisitedComplete(g, before, category, visited)
    requires |p| > 0 && p[0] in visited && IsPath(g, p)
    ensures p[|p| - 1] in visited
    decreases |p|
  {
    hide Complete, Inherited;
    if |p| > 1 {
      assert Edge(g, p[0], p[0 + 1]);
      var n, i :| IsNode(g, n) && Canonical(g, n) == p[0] && 0 <= i < |Children(g, n)|
          && Canonical(g, Children(g, n)[i]) == p[1];
      assert HasChildOfClass(g, n, p[1]);
      assert HasChildOfClass(g, p[0], p[1]);
      var q := p[1..];
      forall j | 0 <= j < |q| - 1
        ensures Edge(g, q[j], q[j + 1])
      {
        assert q[j] == p[j + 1] && q[j + 1] == p[j + 1 + 1];
      }
      ReachableVisited(g, before, category, visited, q);
    }
  }

  /** The traversal of n comes to x: it is n itself, or the traversal of one of its children comes to it. */
  ghost predicate ComesTo(g: Graph, cx: Context, s: State, n: nat, x: nat)
    requires WellFormed(g) && Fits(g, s) && FlagsConsistent(g, s.traversing) && IsNode(g, n)
    decreases NotTraversing(g, s), 0, 0
  {
    || x == n
    || (GoesDown(g, Propagation, cx, s, n)
        && (BeginTraversingDecreases(g, s, n);
            ComesToAny(g, cx, BeginTraversing(g, s, n), Children(g, n), x)))
  }

  ghost predicate ComesToAny(g: Graph, cx: Context, s: State, children: seq<nat>, x: nat)
    requires WellFormed(g) && Fits(g, s) && FlagsConsistent(g, s.traversing) && AreNodes(g, children)
    decreases NotTraversing(g, s), 1, |children|
  {
    && children != []
    && (ComesTo(g, cx, s, children[0], x)
        || ComesToAny(g, cx, Traverse(g, Propagation, cx, s, children[0]).0, children[1..], x))
  }

  /** On a graph without cycles, every node that the pass comes to is complete in the end. */
  lemma {:induction false} MetComplete(g: Graph, rank: nat -> nat, cx: Context, before: seq<Categories>, s: State,
                                       n: nat, x: nat)
    requires WellFormed(g) && |before| == |g| && IsNode(g, n) && cx.forbidVisitingTwice
    requires Acyclic(g, rank) && Consistent(g, before)
    requires PassState(g, rank, before, s, rank(Canonical(g, n))) && ComesTo(g, cx, s, n, x)
    ensures IsNode(g, x) && Complete(g, before, Traverse(g, Propagation, cx, s, n).0.category, x)
    decreases NotTraversing(g, s), 0, 0
  {
    hide Traverse, PropagateChildren, Inherited, Complete, PassState, PassStep, Consistent, Acyclic;
    if x == n {
      TraverseComplete(g, rank, cx, before, s, n);
    } else {
      var children := Children(g, n);
      assert children[0..] == children;
      PropagationShape(g, rank, cx, before, s, n);
      BeginKeepsPassState(g, rank, before, s, n);
      var u := BeginTraversing(g, s, n);
      MetBelowComplete(g, rank, cx, before, u, n, 0, x);
      var b := EndTraversing(g, TraverseChildren(g, Propagation, cx, u, children).0, n);
      PropagateChildrenAdds(g, b, n, children, Canonical(g, n) in b.visited);
      CompleteGrows(g, before, b.category, Traverse(g, Propagation, cx, s, n).0.category, {});
    }
  }

  lemma {:induction false} MetBelowComplete(g: Graph, rank: nat -> nat, cx: Context, before: seq<Categories>,
                                            s: State, n: nat, k: nat, x: nat)
    requires WellFormed(g) && |before| == |g| && IsNode(g, n) && k <= |Children(g, n)| && cx.forbidVisitingTwice
    requires Acyclic(g, rank) && Consistent(g, before)
    requires PassState(g, rank, before, s, rank(Canonical(g, n)) - 1) && ComesToAny(g, cx, s, Children(g, n)[k..], x)
    ensures IsNode(g, x) && Complete(g, before,
        TraverseChildren(g, Propagation, cx, s, Children(g, n)[k..]).0.category, x)
    decreases NotTraversing(g, s), 1, |Children(g, n)| - k
  {
    hide Traverse, Inherited, Complete, Grows, VisitedComplete, ComesTo, Consistent;
    var children := Children(g, n);
    var child := children[k];
    TraverseContinues(g, Propagation, cx, s, child);
    TraverseComplete(g, rank, cx, before, s, child);
    var u := Traverse(g, Propagation, cx, s, child).0;
    assert children[k..][0] == child && children[k..][1..] == children[k + 1..];
    TraverseChildrenComplete(g, rank, cx, before, u, n, k + 1);
    if ComesTo(g, cx, s, child, x) {
      MetComplete(g, rank, cx, before, s, child, x);
      CompleteGrows(g, before, u.category, TraverseChildren(g, Propagation, cx, u, children[k + 1..]).0.category, {});
    } else {
      MetBelowComplete(g, rank, cx, before, u, n, k + 1, x);
    }
  }

  /** After a propagation pass over a graph without cycles, every node that it has come to has exactly its own
      categories and those of the classes reachable from it. */
  lemma PropagationIsExact(g: Graph, rank: nat -> nat, cx: Context, s: State, n: nat, x: nat)
    requires WellFormed(g) && Fits(g, s) && IsNode(g, n) && cx.forbidVisitingTwice
    requires Acyclic(g, rank) && Consistent(g, s.category)
    requires s.visited == {} && s.traversing == {} && !s.skipChildren
    requires ComesTo(g, cx, s, n, x)
    ensures IsNode(g, x) && Exact(g, s.category, Traverse(g, Propagation, cx, s, n).0.category, x)
  {
    hide Traverse, Inherited, Acyclic, Consistent, ComesTo;
    OwnOnly(g, s.category);
    TraverseSound(g, cx, s.category, s, n);
    MetComplete(g, rank, cx, s.category, s, n, x);
  }

  /** The pass visits every class that is reachable from the node it starts from, and the canonical nodes of
      these classes have exactly what they should have, whether it has come to them or not. */
  lemma PropagationVisitsAll(g: Graph, rank: nat -> nat, cx: Context, s: State, n: nat)
    requires WellFormed(g) && Fits(g, s) && IsNode(g, n) && cx.forbidVisitingTwice
    requires Acyclic(g, rank) && Consistent(g, s.category)
    requires s.visited == {} && s.traversing == {} && !s.skipChildren
    ensures var t := Traverse(g, Propagation, cx, s, n).0;
            && (forall c :: c in t.visited ==>
                    IsNode(g, c) && Canonical(g, c) == c && Exact(g, s.category, t.category, c))
            && (forall c :: Reaches(g, Canonical(g, n), c) ==> c in t.visited)
  {
    hide Traverse, Inherited, Acyclic;
    var t := Traverse(g, Propagation, cx, s, n).0;
    OwnOnly(g, s.category);
    TraverseSound(g, cx, s.category, s, n);
    TraverseComplete(g, rank, cx, s.category, s, n);
    forall c | Reaches(g, Canonical(g, n), c)
      ensures c in t.visited
    {
      var p :| |p| > 0 && p[0] == Canonical(g, n) && p[|p| - 1] == c && IsPath(g, p);
      ReachableVisited(g, s.category, t.category, t.visited, p);
    }
  }

  lemma OwnOnly(g: Graph, before: seq<Categories>)
    requires WellFormed(g) && |before| == |g|
    ensures OnlyInherited(g, before, before)
  {
  }
}
