/** What the suppression pass does to the categories of the nodes. */
module SuppressionPass {
  import opened DiffGraph
  import opened PropagationPass

  // ----- Soundness, on any graph

  /** The reasons for which a node may be suppressed: a specification, or that it only passes on changes of
      its children, all of which are suppressed. */
  ghost predicate Justified(g: Graph, s: State, n: nat)
    requires WellFormed(g) && Fits(g, s) && IsNode(g, n)
  {
    g[n].suppressed || (!g[n].hasLocalChanges && SomeChanges(g, Children(g, n))
        && ChangesSuppressed(g, s, Children(g, n)))
  }

  ghost predicate AllJustified(g: Graph, s: State)
    requires WellFormed(g) && Fits(g, s)
  {
    forall n {:trigger Justified(g, s, n)} :: IsNode(g, n) && Suppressed in s.category[n] ==> Justified(g, s, n)
  }

  /** The pass only ever adds one category. */
  ghost predicate OnlySuppresses(p: seq<Categories>, q: seq<Categories>) {
    |p| == |q| && forall n :: 0 <= n < |p| ==> q[n] == p[n] || q[n] == p[n] + {Suppressed}
  }

  /** Suppressing a node with a reason keeps the reasons of all other nodes. */
  lemma SuppressOne(g: Graph, s: State, t: State, n: nat)
    requires WellFormed(g) && Fits(g, s) && Fits(g, t) && IsNode(g, n) && AllJustified(g, s)
    requires Justified(g, s, n)
    requires t.category == s.category[n := s.category[n] + {Suppressed}]
    ensures AllJustified(g, t) && OnlySuppresses(s.category, t.category)
  {
    hide SomeChanges;
    forall x | IsNode(g, x) && Suppressed in t.category[x]
      ensures Justified(g, t, x)
    {
      assert Justified(g, s, x);
    }
  }

  lemma SameCategories(g: Graph, s: State, t: State)
    requires WellFormed(g) && Fits(g, s) && Fits(g, t) && s.category == t.category
    ensures AllJustified(g, s) ==> AllJustified(g, t)
    ensures OnlySuppresses(s.category, t.category)
  {
    if AllJustified(g, s) {
      forall x | IsNode(g, x) && Suppressed in t.category[x]
        ensures Justified(g, t, x)
      {
        assert Justified(g, s, x);
      }
    }
  }

  lemma OnlySuppressesTransitive(p: seq<Categories>, q: seq<Categories>, r: seq<Categories>)
    requires OnlySuppresses(p, q) && OnlySuppresses(q, r)
    ensures OnlySuppresses(p, r)
  {
  }

  /** During and after a suppression pass, on any graph, every suppressed node has a reason to be. */
  lemma {:induction false} TraverseJustified(g: Graph, cx: Context, s: State, n: nat)
    requires WellFormed(g) && Fits(g, s) && FlagsConsistent(g, s.traversing) && IsNode(g, n)
    requires AllJustified(g, s)
    ensures var t := Traverse(g, Suppression, cx, s, n).0;
            AllJustified(g, t) && OnlySuppresses(s.category, t.category) && t.skipChildren == s.skipChildren
    decreases NotTraversing(g, s), 0, 0
  {
    hide Traverse, AllJustified, OnlySuppresses, ChangesSuppressed, SomeChanges;
    TraverseShape(g, Suppression, cx, s, n);
    BeginJustified(g, cx, s, n);
    var b := Before(g, Suppression, cx, s, n);
    var t := Below(g, Suppression, cx, s, n);
    if GoesDown(g, Suppression, cx, s, n) {
      var u := BeginTraversing(g, b, n);
      SameCategories(g, b, u);
      TraverseChildrenJustified(g, cx, u, Children(g, n));
      SameCategories(g, TraverseChildren(g, Suppression, cx, u, Children(g, n)).0, t);
      OnlySuppressesTransitive(s.category, b.category, t.category);
    }
    EndJustified(g, cx, t, n);
    OnlySuppressesTransitive(s.category, t.category, VisitEnd(g, Suppression, cx, t, n).category);
    SameCategories(g, VisitEnd(g, Suppression, cx, t, n), Traverse(g, Suppression, cx, s, n).0);
  }

  lemma BeginJustified(g: Graph, cx: Context, s: State, n: nat)
    requires WellFormed(g) && Fits(g, s) && IsNode(g, n) && AllJustified(g, s)
    ensures var t := VisitBegin(g, Suppression, cx, s, n);
            && AllJustified(g, t) && OnlySuppresses(s.category, t.category) && t.skipChildren == s.skipChildren
            && (g[n].suppressed ==> Suppressed in t.category[n])
  {
    hide AllJustified, ChangesSuppressed, SomeChanges;
    var t := VisitBegin(g, Suppression, cx, s, n);
    if g[n].suppressed {
      SuppressOne(g, s, t, n);
    } else {
      SameCategories(g, s, t);
    }
  }

  lemma EndJustified(g: Graph, cx: Context, s: State, n: nat)
    requires WellFormed(g) && Fits(g, s) && IsNode(g, n) && AllJustified(g, s)
    ensures var t := VisitEnd(g, Suppression, cx, s, n);
            AllJustified(g, t) && OnlySuppresses(s.category, t.category) && t.skipChildren == s.skipChildren
  {
    hide AllJustified, ChangesSuppressed, SomeChanges;
    var t := VisitEnd(g, Suppression, cx, s, n);
    if t == s {
      SameCategories(g, s, t);
    } else {
      SuppressOne(g, s, t, n);
    }
  }

  lemma {:induction false} TraverseChildrenJustified(g: Graph, cx: Context, s: State, children: seq<nat>)
    requires WellFormed(g) && Fits(g, s) && FlagsConsistent(g, s.traversing) && AreNodes(g, children)
    requires AllJustified(g, s)
    ensures var t := TraverseChildren(g, Suppression, cx, s, children).0;
            AllJustified(g, t) && OnlySuppresses(s.category, t.category) && t.skipChildren == s.skipChildren
    decreases NotTraversing(g, s), 1, |children|
  {
    hide AllJustified, OnlySuppresses;
    if children == [] {
      SameCategories(g, s, s);
    } else {
      TraverseJustified(g, cx, s, children[0]);
      TraverseContinues(g, Suppression, cx, s, children[0]);
      var t := Traverse(g, Suppression, cx, s, children[0]).0;
      TraverseChildrenJustified(g, cx, t, children[1..]);
      OnlySuppressesTransitive(s.category, t.category,
                               TraverseChildren(g, Suppression, cx, t, children[1..]).0.category);
    }
  }

  // ----- Local categories, on any graph

  /** A local category only changes for a node that a specification matches. */
  ghost predicate OnlyMatchedLocally(g: Graph, p: seq<Categories>, q: seq<Categories>) {
    && |p| == |q| == |g|
    && forall n :: IsNode(g, n) ==> q[n] == p[n] || (g[n].suppressed && q[n] == p[n] + {Suppressed})
  }

  lemma MatchedTransitive(g: Graph, p: seq<Categories>, q: seq<Categories>, r: seq<Categories>)
    requires OnlyMatchedLocally(g, p, q) && OnlyMatchedLocally(g, q, r)
    ensures OnlyMatchedLocally(g, p, r)
    ensures forall n :: IsNode(g, n) && Suppressed in q[n] ==> Suppressed in r[n]
  {
  }

  lemma BeginMatches(g: Graph, cx: Context, s: State, n: nat)
    requires WellFormed(g) && Fits(g, s) && IsNode(g, n)
    ensures var b := Before(g, Suppression, cx, s, n);
            OnlyMatchedLocally(g, s.localCategory, b.localCategory)
            && (g[n].suppressed ==> Suppressed in b.localCategory[n])
  {
  }

  /** The local category of a node that a specification matches says so after the node's traversal, and no
      other local category has changed. */
  lemma {:induction false} TraverseMatches(g: Graph, cx: Context, s: State, n: nat)
    requires WellFormed(g) && Fits(g, s) && FlagsConsistent(g, s.traversing) && IsNode(g, n)
    ensures var t := Traverse(g, Suppression, cx, s, n).0;
            OnlyMatchedLocally(g, s.localCategory, t.localCategory)
            && (g[n].suppressed ==> Suppressed in t.localCategory[n])
    decreases NotTraversing(g, s), 0, 0
  {
    hide Traverse, TraverseChildren, VisitBegin, OnlyMatchedLocally, ChangesSuppressed, SomeChanges;
    TraverseShape(g, Suppression, cx, s, n);
    BeginMatches(g, cx, s, n);
    if GoesDown(g, Suppression, cx, s, n) {
      var b := Before(g, Suppression, cx, s, n);
      var u := BeginTraversing(g, b, n);
      TraverseChildrenMatches(g, cx, u, Children(g, n));
      MatchedTransitive(g, s.localCategory, b.localCategory,
                        TraverseChildren(g, Suppression, cx, u, Children(g, n)).0.localCategory);
    }
  }

  lemma {:induction false} TraverseChildrenMatches(g: Graph, cx: Context, s: State, children: seq<nat>)
    requires WellFormed(g) && Fits(g, s) && FlagsConsistent(g, s.traversing) && AreNodes(g, children)
    ensures OnlyMatchedLocally(g, s.localCategory, TraverseChildren(g, Suppression, cx, s, children).0.localCategory)
    decreases NotTraversing(g, s), 1, |children|
  {
    hide Traverse;
    if children != [] {
      TraverseMatches(g, cx, s, children[0]);
      TraverseContinues(g, Suppression, cx, s, children[0]);
      var t := Traverse(g, Suppression, cx, s, children[0]).0;
      TraverseChildrenMatches(g, cx, t, children[1..]);
      MatchedTransitive(g, s.localCategory, t.localCategory,
                        TraverseChildren(g, Suppression, cx, t, children[1..]).0.localCategory);
    }
  }

  // ----- Exactness, on graphs without cycles

  /** A node should be suppressed if a specification matches it, or if it has no change of its own, and all
      the changed children, of which there are some, should be suppressed. */
  ghost predicate ShouldBeSuppressed(g: Graph, rank: nat -> nat, n: nat)
    requires WellFormed(g) && IsNode(g, n) && Acyclic(g, rank)
    decreases rank(Canonical(g, n))
  {
    || g[n].suppressed
    || (!g[n].hasLocalChanges && SomeChanges(g, Children(g, n))
        && forall i :: 0 <= i < |Children(g, n)| && g[Children(g, n)[i]].hasChanges ==>
            ShouldBeSuppressed(g, rank, Children(g, n)[i]))
  }

  /** Where every suppressed node has a reason, only nodes that should be are suppressed. */
  lemma {:induction false} JustifiedShouldBe(g: Graph, rank: nat -> nat, s: State, n: nat)
    requires WellFormed(g) && Fits(g, s) && IsNode(g, n) && Acyclic(g, rank)
    requires AllJustified(g, s) && Suppressed in s.category[n]
    ensures ShouldBeSuppressed(g, rank, n)
    decreases rank(Canonical(g, n))
  {
    assert Justified(g, s, n);
    if !g[n].suppressed {
      var children := Children(g, n);
      forall i | 0 <= i < |children| && g[children[i]].hasChanges
        ensures ShouldBeSuppressed(g, rank, children[i])
      {
        JustifiedShouldBe(g, rank, s, children[i]);
      }
    }
  }

  /** The node and everything below it is suppressed if it should be. */
  ghost predicate AllDone(g: Graph, rank: nat -> nat, category: seq<Categories>, n: nat)
    requires WellFormed(g) && IsNode(g, n) && Acyclic(g, rank) && |category| == |g|
    decreases rank(Canonical(g, n))
  {
    && (ShouldBeSuppressed(g, rank, n) ==> Suppressed in category[n])
    && forall i :: 0 <= i < |Children(g, n)| ==> AllDone(g, rank, category, Children(g, n)[i])
  }

  lemma {:induction false} AllDoneKept(g: Graph, rank: nat -> nat, p: seq<Categories>, q: seq<Categories>, n: nat)
    requires WellFormed(g) && IsNode(g, n) && Acyclic(g, rank) && |p| == |g| && OnlySuppresses(p, q)
    requires AllDone(g, rank, p, n)
    ensures AllDone(g, rank, q, n)
    decreases rank(Canonical(g, n))
  {
    var children := Children(g, n);
    forall i | 0 <= i < |children|
      ensures AllDone(g, rank, q, children[i])
    {
      AllDoneKept(g, rank, p, q, children[i]);
    }
  }

  /** The classes that are being traversed are above rank r, so that none of them is met again. */
  ghost predicate Descending(g: Graph, rank: nat -> nat, s: State, r: int)
    requires WellFormed(g)
  {
    && Fits(g, s) && FlagsConsistent(g, s.traversing) && !s.skipChildren && AllJustified(g, s)
    && forall t :: t in s.traversing ==> r < rank(Canonical(g, t))
  }

  lemma {:induction false} TraverseSuppresses(g: Graph, rank: nat -> nat, cx: Context, s: State, n: nat)
    requires WellFormed(g) && IsNode(g, n) && Acyclic(g, rank) && !cx.forbidVisitingTwice
    requires Descending(g, rank, s, rank(Canonical(g, n)))
    ensures AllDone(g, rank, Traverse(g, Suppression, cx, s, n).0.category, n)
    decreases NotTraversing(g, s), 0, 0
  {
    hide Traverse, Descending, AllJustified, OnlySuppresses, AllDone, VisitEnd;
    var children := Children(g, n);
    assert children[0..] == children;
    BeginDescends(g, rank, cx, s, n);
    SuppressionShape(g, cx, s, n);
    var u := BeginTraversing(g, VisitBegin(g, Suppression, cx, s, n), n);
    TraverseChildrenSuppresses(g, rank, cx, u, n, 0);
    TraverseChildrenKeeps(g, rank, cx, u, n);
    var t := EndTraversing(g, TraverseChildren(g, Suppression, cx, u, children).0, n);
    EndSuppresses(g, rank, cx, t, n);
  }

  lemma BeginDescends(g: Graph, rank: nat -> nat, cx: Context, s: State, n: nat)
    requires WellFormed(g) && IsNode(g, n) && Descending(g, rank, s, rank(Canonical(g, n)))
    ensures Fits(g, s) && FlagsConsistent(g, s.traversing) && Canonical(g, n) !in s.traversing
    ensures var b := VisitBegin(g, Suppression, cx, s, n);
            var u := BeginTraversing(g, b, n);
            && !b.skipChildren && FlagsConsistent(g, u.traversing)
            && Descending(g, rank, u, rank(Canonical(g, n)) - 1)
            && (g[n].suppressed ==> Suppressed in u.category[n])
  {
    hide AllJustified, SomeChanges, ChangesSuppressed;
    BeginJustified(g, cx, s, n);
    var b := VisitBegin(g, Suppression, cx, s, n);
    SameCategories(g, b, BeginTraversing(g, b, n));
  }

  /** The traversal of a node, when it is not cut short. */
  lemma SuppressionShape(g: Graph, cx: Context, s: State, n: nat)
    requires WellFormed(g) && IsNode(g, n) && Fits(g, s) && FlagsConsistent(g, s.traversing) && !cx.forbidVisitingTwice
    requires Canonical(g, n) !in s.traversing && !VisitBegin(g, Suppression, cx, s, n).skipChildren
    ensures var u := BeginTraversing(g, VisitBegin(g, Suppression, cx, s, n), n);
            && NotTraversing(g, u) < NotTraversing(g, s) && FlagsConsistent(g, u.traversing)
            && var t := EndTraversing(g, TraverseChildren(g, Suppression, cx, u, Children(g, n)).0, n);
               Traverse(g, Suppression, cx, s, n).0.category == VisitEnd(g, Suppression, cx, t, n).category
  {
    hide Traverse, VisitBegin, VisitEnd;
    TraverseShape(g, Suppression, cx, s, n);
  }

  lemma TraverseChildrenKeeps(g: Graph, rank: nat -> nat, cx: Context, u: State, n: nat)
    requires WellFormed(g) && IsNode(g, n)
    requires Descending(g, rank, u, rank(Canonical(g, n)) - 1)
    ensures var t := EndTraversing(g, TraverseChildren(g, Suppression, cx, u, Children(g, n)).0, n);
            && AllJustified(g, t) && OnlySuppresses(u.category, t.category)
            && (Suppressed in u.category[n] ==> Suppressed in t.category[n])
  {
    hide AllJustified;
    TraverseChildrenJustified(g, cx, u, Children(g, n));
    var w := TraverseChildren(g, Suppression, cx, u, Children(g, n)).0;
    SameCategories(g, w, EndTraversing(g, w, n));
  }

  /** When everything below a node is done, the end of its visit suppresses it if it should be. */
  lemma EndSuppresses(g: Graph, rank: nat -> nat, cx: Context, s: State, n: nat)
    requires WellFormed(g) && Fits(g, s) && IsNode(g, n) && Acyclic(g, rank) && AllJustified(g, s)
    requires forall i :: 0 <= i < |Children(g, n)| ==> AllDone(g, rank, s.category, Children(g, n)[i])
    requires g[n].suppressed ==> Suppressed in s.category[n]
    ensures AllDone(g, rank, VisitEnd(g, Suppression, cx, s, n).category, n)
  {
    hide SomeChanges, AllJustified, OnlySuppresses;
    EndJustified(g, cx, s, n);
    var e := VisitEnd(g, Suppression, cx, s, n);
    if ShouldBeSuppressed(g, rank, n) && !g[n].suppressed {
      assert ChangesSuppressed(g, s, Children(g, n));
    }
    forall i | 0 <= i < |Children(g, n)|
      ensures AllDone(g, rank, e.category, Children(g, n)[i])
    {
      AllDoneKept(g, rank, s.category, e.category, Children(g, n)[i]);
    }
  }

  lemma {:induction false} TraverseChildrenSuppresses(g: Graph, rank: nat -> nat, cx: Context, s: State, n: nat, k: nat)
    requires WellFormed(g) && IsNode(g, n) && k <= |Children(g, n)| && Acyclic(g, rank) && !cx.forbidVisitingTwice
    requires Descending(g, rank, s, rank(Canonical(g, n)) - 1)
    ensures var t := TraverseChildren(g, Suppression, cx, s, Children(g, n)[k..]).0;
            forall i :: k <= i < |Children(g, n)| ==> AllDone(g, rank, t.category, Children(g, n)[i])
    decreases NotTraversing(g, s), 1, |Children(g, n)| - k
  {
    hide Traverse, AllJustified, OnlySuppresses, AllDone;
    var children := Children(g, n);
    if k < |children| {
      TraverseContinues(g, Suppression, cx, s, children[k]);
      TraverseJustified(g, cx, s, children[k]);
      TraverseSuppresses(g, rank, cx, s, children[k]);
      var u := Traverse(g, Suppression, cx, s, children[k]).0;
      assert children[k..][1..] == children[k + 1..];
      TraverseChildrenJustified(g, cx, u, children[k + 1..]);
      TraverseChildrenSuppresses(g, rank, cx, u, n, k + 1);
      AllDoneKept(g, rank, u.category, TraverseChildren(g, Suppression, cx, u, children[k + 1..]).0.category,
                  children[k]);
    }
  }

  /** A node below another one, along children. */
  ghost predicate IsBelow(g: Graph, rank: nat -> nat, n: nat, x: nat)
    requires WellFormed(g) && IsNode(g, n) && Acyclic(g, rank)
    decreases rank(Canonical(g, n))
  {
    x == n || exists i :: 0 <= i < |Children(g, n)| && IsBelow(g, rank, Children(g, n)[i], x)
  }

  lemma {:induction false} AllDoneBelow(g: Graph, rank: nat -> nat, category: seq<Categories>, n: nat, x: nat)
    requires WellFormed(g) && IsNode(g, n) && Acyclic(g, rank) && |category| == |g|
    requires AllDone(g, rank, category, n) && IsBelow(g, rank, n, x)
    ensures IsNode(g, x) && (ShouldBeSuppressed(g, rank, x) ==> Suppressed in category[x])
    decreases rank(Canonical(g, n))
  {
    if x != n {
      var i :| 0 <= i < |Children(g, n)| && IsBelow(g, rank, Children(g, n)[i], x);
      AllDoneBelow(g, rank, category, Children(g, n)[i], x);
    }
  }

  /** On a graph without cycles, where no node was suppressed before, a suppression pass suppresses exactly
      those nodes below the one it starts from that should be. */
  lemma SuppressionIsExact(g: Graph, rank: nat -> nat, cx: Context, s: State, n: nat, x: nat)
    requires WellFormed(g) && Fits(g, s) && IsNode(g, n) && Acyclic(g, rank) && !cx.forbidVisitingTwice
    requires s.traversing == {} && !s.skipChildren
    requires forall y :: IsNode(g, y) ==> Suppressed !in s.category[y]
    requires IsBelow(g, rank, n, x)
    ensures IsNode(g, x)
    ensures Suppressed in Traverse(g, Suppression, cx, s, n).0.category[x] <==> ShouldBeSuppressed(g, rank, x)
  {
    hide Traverse, ShouldBeSuppressed, IsBelow, AllDone;
    var t := Traverse(g, Suppression, cx, s, n).0;
    TraverseJustified(g, cx, s, n);
    TraverseSuppresses(g, rank, cx, s, n);
    AllDoneBelow(g, rank, t.category, n, x);
    if Suppressed in t.category[x] {
      JustifiedShouldBe(g, rank, t, x);
    }
  }
}
