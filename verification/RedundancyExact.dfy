/** Which nodes a redundancy pass over a forest marks, exactly: from the order in which it comes to them. */
module RedundancyExact {
  import opened DiffGraph
  import opened RedundancyPass
  import PropagationPass
  import SuppressionPass

  // ----- Nodes that are marked when they are met again

  /** Everything is shown, or the node is neither suppressed nor, unless the user wants to see that, redundant,
      and one of its categories is allowed, if it has any. */
  ghost predicate IsShown(cx: Context, cat: Categories) {
    || cx.allowed == EVERYTHING
    || (&& Suppressed !in cat
        && (Redundant in cat ==> cx.showRedundantChanges)
        && (cat == {} || exists c :: c in cat && c in cx.allowed && c != Redundant))
  }

  lemma ShownExactly(cx: Context)
    ensures forall cat: Categories :: IsFilteredOut(cx, cat) <==> !IsShown(cx, cat)
  {
    forall cat: Categories
      ensures IsFilteredOut(cx, cat) <==> !IsShown(cx, cat)
    {
      if c :| c in cat && c in cx.allowed && c != Redundant {
        assert c in (cat - {Redundant}) * (cx.allowed - {Redundant});
      }
    }
  }

  ghost predicate Reported(g: Graph, cx: Context, cat: seq<Categories>, n: nat)
    requires IsNode(g, n) && |cat| == |g|
  {
    g[n].hasChanges && IsShown(cx, cat[n])
  }

  /** Another node is of the class of n, or is a function parameter whose type, in another node, is. */
  ghost predicate IsTwin(g: Graph, n: nat, other: nat)
    requires WellFormed(g) && IsNode(g, n) && IsNode(g, other)
  {
    && other != n
    && (!g[other].isFnParm ==> g[other].canonical == g[n].canonical)
    && (g[other].isFnParm ==>
          && g[other].typeDiff != n
          && (assert Linked(g, other); g[g[other].typeDiff].canonical == g[n].canonical))
  }

  /** The node p is the parent of n, or the function of which the parent is a parameter. */
  ghost predicate IsAbove(g: Graph, p: nat, n: nat)
    requires WellFormed(g) && IsNode(g, n)
  {
    var q := g[n].parent;
    if IsNode(g, q) && g[q].isFnParm then g[q].parent == p else q == p
  }

  ghost predicate HasTwin(g: Graph, n: nat)
    requires WellFormed(g) && IsNode(g, n)
  {
    exists p: nat, i: nat :: IsNode(g, p) && IsAbove(g, p, n) && i < |Children(g, p)| && IsTwin(g, n, Children(g, p)[i])
  }

  /** The node is met when its class has been met before, and may be marked for that. */
  ghost predicate IsRepetition(g: Graph, cx: Context, cat: seq<Categories>, n: nat, again: bool)
    requires WellFormed(g) && IsNode(g, n) && |cat| == |g|
  {
    Reported(g, cx, cat, n) && again && !g[n].unmarkable && !HasTwin(g, n)
  }

  // ----- The order in which the pass comes to nodes

  /** The pass comes to a node, and a node of its class has been met before, or not. */
  datatype Meeting = Meeting(node: nat, again: bool)

  function Classes(g: Graph, order: seq<Meeting>): set<nat> {
    set m | m in order && IsNode(g, m.node) :: g[m.node].canonical
  }

  /** The pass comes to n when it has met some classes, of which those that are open are above n.  It goes
      down unless the node is not reported, or is a repetition, or its class is open. */
  ghost function Order(g: Graph, cx: Context, cat: seq<Categories>, met: set<nat>, open: set<nat>, n: nat): seq<Meeting>
    requires WellFormed(g) && IsNode(g, n) && |cat| == |g|
    decreases |Nodes(g) - open|, 0, 0
  {
    var c := Canonical(g, n);
    [Meeting(n, c in met)]
    + if Reported(g, cx, cat, n) && !IsRepetition(g, cx, cat, n, c in met) && c !in open then
        FewerLeft(g, open, n);
        OrderOfAll(g, cx, cat, met + {c, n}, open + {c, n}, Children(g, n))
      else []
  }

  ghost function OrderOfAll(g: Graph, cx: Context, cat: seq<Categories>, met: set<nat>, open: set<nat>,
                            roots: seq<nat>): seq<Meeting>
    requires WellFormed(g) && AreNodes(g, roots) && |cat| == |g|
    decreases |Nodes(g) - open|, 1, |roots|
  {
    if roots == [] then []
    else
      var first := Order(g, cx, cat, met, open, roots[0]);
      first + OrderOfAll(g, cx, cat, met + Classes(g, first), open, roots[1..])
  }

  /** The node has no local changes to report, and of its children some have changes, and all that are reported
      are marked. */
  ghost predicate HasNothingNew(g: Graph, cx: Context, cat: seq<Categories>, local: seq<Categories>,
                                final: seq<Categories>,
                                n: nat)
    requires WellFormed(g) && IsNode(g, n) && |cat| == |local| == |final| == |g|
  {
    var cs := Children(g, n);
    && !(g[n].hasLocalChanges && IsShown(cx, local[n]))
    && (exists i :: 0 <= i < |cs| && g[cs[i]].hasChanges)
    && (forall i :: 0 <= i < |cs| && Reported(g, cx, cat, cs[i]) ==> Redundant in final[cs[i]])
  }

  /** A node that is met is marked if and only if it is reported and is a repetition, or has nothing new. */
  ghost predicate IsMarked(g: Graph, cx: Context, cat: seq<Categories>, local: seq<Categories>,
                           final: seq<Categories>,
                           m: Meeting)
    requires WellFormed(g) && IsNode(g, m.node) && |cat| == |local| == |final| == |g|
  {
    && Reported(g, cx, cat, m.node)
    && (IsRepetition(g, cx, cat, m.node, m.again) || HasNothingNew(g, cx, cat, local, final, m.node))
  }

  ghost predicate MarkedIn(g: Graph, cx: Context, cat: seq<Categories>, local: seq<Categories>,
                           final: seq<Categories>,
                           order: seq<Meeting>, x: nat)
    requires WellFormed(g) && IsNode(g, x) && |cat| == |local| == |final| == |g|
  {
    exists m :: m in order && m.node == x && IsMarked(g, cx, cat, local, final, m)
  }

  // ----- One node

  lemma TwinsAreSiblings(g: Graph, n: nat)
    requires WellFormed(g) && IsNode(g, n)
    ensures RedundantWithSibling(g, n) <==> HasTwin(g, n)
  {
    assert Linked(g, n);
    var p := SiblingParent(g, n);
    forall q: nat | IsNode(g, q)
      ensures IsAbove(g, q, n) <==> p == q
    {
    }
    if p >= 0 {
      forall i | 0 <= i < |Children(g, p)|
        ensures SiblingOfSameClass(g, n, Children(g, p)[i]) <==> IsTwin(g, n, Children(g, p)[i])
      {
        assert Linked(g, Children(g, p)[i]);
      }
    }
  }

  /** A node is marked on sight when it is a repetition, and not otherwise. */
  lemma OnSightExactly(g: Graph, cx: Context, s: State, n: nat)
    requires WellFormed(g) && Fits(g, s) && IsNode(g, n)
    ensures var again := Canonical(g, n) in s.visited + s.traversing;
            VisitBegin(g, RedundancyMarking, cx, s, n).category ==
              if IsRepetition(g, cx, s.category, n, again) then s.category[n := s.category[n] + {Redundant}]
              else s.category
  {
    hide WellFormed, RedundantWithSibling, HasTwin, IsFilteredOut, IsShown;
    ShownExactly(cx);
    TwinsAreSiblings(g, n);
  }

  /** When its children have been looked at, a node is marked when it has nothing new, and not otherwise. */
  lemma AtEndExactly(g: Graph, cx: Context, s: State, n: nat)
    requires WellFormed(g) && Fits(g, s) && IsNode(g, n)
    ensures VisitEnd(g, RedundancyMarking, cx, s, n).category ==
              if !s.skippedChildren && Redundant !in s.category[n]
                 && HasNothingNew(g, cx, s.category, s.localCategory, s.category, n)
              then s.category[n := s.category[n] + {Redundant}] else s.category
  {
    hide WellFormed, IsFilteredOut, IsShown;
    ShownExactly(cx);
    forall i | 0 <= i < |Children(g, n)|
      ensures ToBeReported(g, cx, s, Children(g, n)[i]) <==> Reported(g, cx, s.category, Children(g, n)[i])
    {
    }
  }

  /** What happens when the pass comes to a node. */
  lemma Comes(g: Graph, cx: Context, s: State, cat: seq<Categories>, n: nat)
    requires WellFormed(g) && Fits(g, s) && IsNode(g, n) && |cat| == |g| && s.category[n] == cat[n]
    requires NothingSkipped(s) && !cx.forbidVisitingTwice
    ensures var b, again := Before(g, RedundancyMarking, cx, s, n), Canonical(g, n) in s.visited + s.traversing;
            b == if IsRepetition(g, cx, cat, n, again) then
                   AddToCategory(s, n, {Redundant}).(skipChildren := true, skippedChildren := true)
                 else if !Reported(g, cx, cat, n) then s.(skipChildren := true, skippedChildren := true)
                 else s
    ensures GoesDown(g, RedundancyMarking, cx, s, n) <==>
              && Reported(g, cx, cat, n) && Canonical(g, n) !in s.traversing
              && !IsRepetition(g, cx, cat, n, Canonical(g, n) in s.visited + s.traversing)
  {
    hide WellFormed, RedundantWithSibling, HasTwin, IsFilteredOut, IsShown;
    ShownExactly(cx);
    TwinsAreSiblings(g, n);
  }

  /** What happens when it leaves one. */
  lemma Leaves(g: Graph, cx: Context, s: State, n: nat)
    requires WellFormed(g) && Fits(g, s) && IsNode(g, n)
    ensures var e := Marked(g, RedundancyMarking, VisitEnd(g, RedundancyMarking, cx, s, n), n);
            && e.visited == s.visited + {Canonical(g, n)} && e.traversing == s.traversing
            && (forall x :: IsNode(g, x) && x != n ==> e.category[x] == s.category[x])
            && (Redundant in e.category[n] <==>
                  || Redundant in s.category[n]
                  || (&& !s.skippedChildren && !HasLocalChangesToBeReported(g, cx, s, n)
                      && SomeChanges(g, Children(g, n)) && ChangesRedundant(g, cx, s, Children(g, n))))
  {
    hide HasLocalChangesToBeReported, SomeChanges, ChangesRedundant;
  }

  // ----- Orders and trees

  lemma {:induction false} OrderInTree(g: Graph, rank: nat -> nat, cx: Context, cat: seq<Categories>, met: set<nat>,
                                       open: set<nat>, n: nat, m: Meeting)
    requires WellFormed(g) && Ranked(g, rank) && IsNode(g, n) && |cat| == |g| && m in Order(g, cx, cat, met, open, n)
    ensures IsNode(g, m.node) && InTree(g, rank, n, m.node)
    decreases |Nodes(g) - open|, 0, 0
  {
    hide OrderOfAll, Reported, IsRepetition, Ranked;
    if m != Order(g, cx, cat, met, open, n)[0] {
      var c := Canonical(g, n);
      FewerLeft(g, open, n);
      OrderInForest(g, rank, cx, cat, met + {c, n}, open + {c, n}, Children(g, n), m);
    }
  }

  lemma {:induction false} OrderInForest(g: Graph, rank: nat -> nat, cx: Context, cat: seq<Categories>, met: set<nat>,
                                         open: set<nat>, roots: seq<nat>, m: Meeting)
    requires WellFormed(g) && Ranked(g, rank) && AreNodes(g, roots) && |cat| == |g|
    requires m in OrderOfAll(g, cx, cat, met, open, roots)
    ensures IsNode(g, m.node) && InForest(g, rank, roots, m.node)
    decreases |Nodes(g) - open|, 1, |roots|
  {
    hide Order, InTree, Ranked;
    var first := Order(g, cx, cat, met, open, roots[0]);
    if m in first {
      OrderInTree(g, rank, cx, cat, met, open, roots[0], m);
    } else {
      OrderInForest(g, rank, cx, cat, met + Classes(g, first), open, roots[1..], m);
      var i :| 0 <= i < |roots| - 1 && InTree(g, rank, roots[1..][i], m.node);
      assert roots[1..][i] == roots[i + 1];
    }
  }

  lemma {:induction false} ChildInTree(g: Graph, rank: nat -> nat, n: nat, x: nat, i: nat)
    requires WellFormed(g) && Ranked(g, rank) && IsNode(g, n) && IsNode(g, x) && InTree(g, rank, n, x)
    requires i < |Children(g, x)|
    ensures InTree(g, rank, n, Children(g, x)[i])
    decreases rank(n)
  {
    if x == n {
      assert InTree(g, rank, Children(g, n)[i], Children(g, n)[i]);
    } else {
      var k :| 0 <= k < |Children(g, n)| && InTree(g, rank, Children(g, n)[k], x);
      ChildInTree(g, rank, Children(g, n)[k], x, i);
    }
  }

  lemma ChildInForest(g: Graph, rank: nat -> nat, roots: seq<nat>, x: nat, i: nat)
    requires WellFormed(g) && Ranked(g, rank) && AreNodes(g, roots) && IsNode(g, x) && InForest(g, rank, roots, x)
    requires i < |Children(g, x)|
    ensures InForest(g, rank, roots, Children(g, x)[i])
  {
    hide InTree, Ranked;
    var k :| 0 <= k < |roots| && InTree(g, rank, roots[k], x);
    ChildInTree(g, rank, roots[k], x, i);
  }

  /** Whether a node is marked is a matter of its meetings, and of the marks of its children. */
  lemma MarkedInAgrees(g: Graph, cx: Context, cat: seq<Categories>, local: seq<Categories>, f1: seq<Categories>,
                       f2: seq<Categories>, o1: seq<Meeting>, o2: seq<Meeting>, x: nat)
    requires WellFormed(g) && IsNode(g, x) && |cat| == |local| == |f1| == |f2| == |g|
    requires forall i :: 0 <= i < |Children(g, x)| ==> f1[Children(g, x)[i]] == f2[Children(g, x)[i]]
    requires forall m: Meeting :: m.node == x ==> (m in o1 <==> m in o2)
    ensures MarkedIn(g, cx, cat, local, f1, o1, x) <==> MarkedIn(g, cx, cat, local, f2, o2, x)
  {
    hide WellFormed, Reported, IsRepetition, IsFilteredOut, IsShown;
    forall m: Meeting | m.node == x
      ensures IsMarked(g, cx, cat, local, f1, m) <==> IsMarked(g, cx, cat, local, f2, m)
    {
    }
  }

  lemma ClassesTogether(g: Graph, o1: seq<Meeting>, o2: seq<Meeting>)
    ensures Classes(g, o1 + o2) == Classes(g, o1) + Classes(g, o2)
  {
  }

  // ----- The marks of a pass

  /** The categories are as before the pass in these trees. */
  ghost predicate AsBefore(g: Graph, cat: seq<Categories>, now: seq<Categories>, trees: iset<nat>) {
    |cat| == |now| == |g| && forall y: nat :: y in trees && IsNode(g, y) ==> now[y] == cat[y]
  }

  /** The classes in the order have been met, and of the nodes in the trees those are marked that should be. */
  ghost predicate Exactly(g: Graph, cx: Context, cat: seq<Categories>, s: State, t: State, order: seq<Meeting>,
                          trees: iset<nat>)
    requires WellFormed(g) && Fits(g, s) && Fits(g, t) && |cat| == |g|
  {
    && t.visited == s.visited + Classes(g, order)
    && forall x: nat :: x in trees && IsNode(g, x) ==>
         (Redundant in t.category[x] <==> MarkedIn(g, cx, cat, s.localCategory, t.category, order, x))
  }

  /** A node is met first, and then what is below it, which are other nodes. */
  lemma MarkedInFirst(g: Graph, cx: Context, cat: seq<Categories>, local: seq<Categories>, final: seq<Categories>,
                      first: Meeting, below: seq<Meeting>)
    requires WellFormed(g) && IsNode(g, first.node) && |cat| == |local| == |final| == |g|
    requires forall m :: m in below ==> m.node != first.node
    ensures MarkedIn(g, cx, cat, local, final, [first] + below, first.node)
       <==> IsMarked(g, cx, cat, local, final, first)
  {
    hide WellFormed, IsMarked;
    assert ([first] + below)[0] == first;
  }

  /** What the visitor does with a node, when it comes to it in state s and leaves it in state w, is to mark it
      exactly when it should. */
  lemma NodeExactly(g: Graph, rank: nat -> nat, cx: Context, s: State, cat: seq<Categories>, w: State, t: State, n: nat)
    requires WellFormed(g) && Ranked(g, rank) && IsNode(g, n) && Fits(g, s) && Fits(g, w) && Fits(g, t) && |cat| == |g|
    requires s.category[n] == cat[n] && Redundant !in cat[n] && NothingSkipped(s) && !cx.forbidVisitingTwice
    requires var b := Before(g, RedundancyMarking, cx, s, n);
             w.category[n] == b.category[n] && w.skippedChildren == b.skippedChildren
    requires w.localCategory == s.localCategory
    requires forall i :: 0 <= i < |Children(g, n)| ==> MarkedOnly(cat, w.category, Children(g, n)[i], true)
    requires t == Marked(g, RedundancyMarking, VisitEnd(g, RedundancyMarking, cx, w, n), n)
    ensures var again := Canonical(g, n) in s.visited + s.traversing;
            Redundant in t.category[n] <==> IsMarked(g, cx, cat, s.localCategory, t.category, Meeting(n, again))
  {
    hide WellFormed, VisitEnd, Before, Ranked, IsFilteredOut, IsShown, IsRepetition, SomeChanges, ChangesRedundant,
         Marked;
    ShownExactly(cx);
    Comes(g, cx, s, cat, n);
    Leaves(g, cx, w, n);
    NoNews(g, rank, cx, cat, w, t, n);
    var again := Canonical(g, n) in s.visited + s.traversing;
    assert Redundant in w.category[n] <==> IsRepetition(g, cx, cat, n, again);
    assert IsRepetition(g, cx, cat, n, again) ==> Reported(g, cx, cat, n) by {
      RepetitionIsReported(g, cx, cat, n, again);
    }
  }

  lemma RepetitionIsReported(g: Graph, cx: Context, cat: seq<Categories>, n: nat, again: bool)
    requires WellFormed(g) && IsNode(g, n) && |cat| == |g|
    ensures IsRepetition(g, cx, cat, n, again) ==> Reported(g, cx, cat, n)
  {
  }

  /** Looking at the children when they have been marked, or before, comes to the same. */
  lemma NoNews(g: Graph, rank: nat -> nat, cx: Context, cat: seq<Categories>, w: State, t: State, n: nat)
    requires WellFormed(g) && Ranked(g, rank) && Fits(g, w) && Fits(g, t) && IsNode(g, n) && |cat| == |g|
    requires forall x :: IsNode(g, x) && x != n ==> t.category[x] == w.category[x]
    requires forall i :: 0 <= i < |Children(g, n)| ==> MarkedOnly(cat, w.category, Children(g, n)[i], true)
    ensures SomeChanges(g, Children(g, n)) && ChangesRedundant(g, cx, w, Children(g, n)) <==>
              && (exists i :: 0 <= i < |Children(g, n)| && g[Children(g, n)[i]].hasChanges)
              && (forall i :: 0 <= i < |Children(g, n)| && Reported(g, cx, cat, Children(g, n)[i]) ==>
                    Redundant in t.category[Children(g, n)[i]])
  {
    hide WellFormed, IsFilteredOut, IsShown;
    ShownExactly(cx);
    forall i | 0 <= i < |Children(g, n)|
      ensures (ToBeReported(g, cx, w, Children(g, n)[i]) ==> Redundant in w.category[Children(g, n)[i]]) <==>
                (Reported(g, cx, cat, Children(g, n)[i]) ==> Redundant in t.category[Children(g, n)[i]])
    {
      assert Children(g, n)[i] != n;
    }
  }

  lemma ChildrenApart(g: Graph, rank: nat -> nat, n: nat, i: nat)
    requires WellFormed(g) && Ranked(g, rank) && IsNode(g, n) && i < |Children(g, n)|
    ensures Children(g, n)[i] != n && Children(g, n)[i] in Trees(g, rank, Children(g, n))
    ensures Children(g, n)[i] in Tree(g, rank, n)
  {
    assert InTree(g, rank, Children(g, n)[i], Children(g, n)[i]);
  }

  lemma OwnNode(g: Graph, rank: nat -> nat, cat: seq<Categories>, now: seq<Categories>, n: nat)
    requires WellFormed(g) && Ranked(g, rank) && IsNode(g, n) && AsBefore(g, cat, now, Tree(g, rank, n))
    ensures |cat| == |g| && n in Tree(g, rank, n) && now[n] == cat[n]
    ensures AsBefore(g, cat, now, Trees(g, rank, Children(g, n)))
  {
    hide InTree, Ranked;
    TreeParts(g, rank, n);
  }

  /** A node that the pass does not go down from. */
  lemma StaysExactly(g: Graph, rank: nat -> nat, cx: Context, s: State, cat: seq<Categories>, n: nat)
    requires WellFormed(g) && Ranked(g, rank) && IsNode(g, n) && Ready(g, s, Tree(g, rank, n))
    requires AsBefore(g, cat, s.category, Tree(g, rank, n)) && !cx.forbidVisitingTwice
    requires !GoesDown(g, RedundancyMarking, cx, s, n)
    ensures Exactly(g, cx, cat, s, Traverse(g, RedundancyMarking, cx, s, n).0,
                    Order(g, cx, cat, s.visited + s.traversing, s.traversing, n), Tree(g, rank, n))
  {
    hide WellFormed, Traverse, VisitEnd, Before, Ranked, IsFilteredOut, IsShown, InTree, IsRepetition, Marked, IsMarked,
         OrderOfAll;
    OwnNode(g, rank, cat, s.category, n);
    TraverseShape(g, RedundancyMarking, cx, s, n);
    Comes(g, cx, s, cat, n);
    var b, t := Before(g, RedundancyMarking, cx, s, n), Traverse(g, RedundancyMarking, cx, s, n).0;
    Leaves(g, cx, b, n);
    forall i | 0 <= i < |Children(g, n)|
      ensures MarkedOnly(cat, b.category, Children(g, n)[i], true)
    {
      ChildrenApart(g, rank, n, i);
    }
    NodeExactly(g, rank, cx, s, cat, b, t, n);
    var first := Meeting(n, Canonical(g, n) in s.visited + s.traversing);
    assert Order(g, cx, cat, s.visited + s.traversing, s.traversing, n) == [first] + [];
    MarkedInFirst(g, cx, cat, s.localCategory, t.category, first, []);
    assert forall m: Meeting :: m in [first] + [] <==> m == first;
  }

  /** Going down marks nothing but what is below. */
  lemma GoesDownMarks(g: Graph, rank: nat -> nat, cx: Context, u: State, cat: seq<Categories>, n: nat)
    requires WellFormed(g) && Ranked(g, rank) && IsNode(g, n) && Ready(g, u, Trees(g, rank, Children(g, n)))
    requires AsBefore(g, cat, u.category, Tree(g, rank, n))
    ensures var v := TraverseChildren(g, RedundancyMarking, cx, u, Children(g, n)).0;
            && v.category[n] == cat[n] && v.localCategory == u.localCategory && NothingSkipped(v)
            && v.traversing == u.traversing
            && (forall i :: 0 <= i < |Children(g, n)| ==> MarkedOnly(cat, v.category, Children(g, n)[i], true))
  {
    hide WellFormed, TraverseChildren, Ranked, InTree, FlagsConsistent, ReachedFromAny;
    OwnNode(g, rank, cat, u.category, n);
    TreeParts(g, rank, n);
    OtherTreesUnchanged(g, rank, cx, u, Children(g, n));
    TraverseChildrenRestoresVisitor(g, cx, u, Children(g, n));
    forall i | 0 <= i < |Children(g, n)|
      ensures MarkedOnly(cat, TraverseChildren(g, RedundancyMarking, cx, u, Children(g, n)).0.category,
                         Children(g, n)[i], true)
    {
      ChildrenApart(g, rank, n, i);
      TraverseChildrenMarks(g, cx, u, Children(g, n), Children(g, n)[i]);
    }
  }

  /** Whether the nodes below n are marked does not depend on n. */
  lemma BelowExactly(g: Graph, rank: nat -> nat, cx: Context, cat: seq<Categories>, local: seq<Categories>, v: State,
                     t: State, first: Meeting, below: seq<Meeting>, x: nat)
    requires WellFormed(g) && Ranked(g, rank) && IsNode(g, first.node) && IsNode(g, x) && |cat| == |local| == |g|
    requires Fits(g, v) && Fits(g, t) && x in Trees(g, rank, Children(g, first.node))
    requires forall y :: IsNode(g, y) && y != first.node ==> t.category[y] == v.category[y]
    ensures MarkedIn(g, cx, cat, local, t.category, [first] + below, x)
       <==> MarkedIn(g, cx, cat, local, v.category, below, x)
  {
    hide WellFormed, Ranked, InTree, MarkedIn;
    TreeParts(g, rank, first.node);
    forall i | 0 <= i < |Children(g, x)|
      ensures Children(g, x)[i] != first.node
    {
      ChildInForest(g, rank, Children(g, first.node), x, i);
    }
    MarkedInAgrees(g, cx, cat, local, t.category, v.category, [first] + below, below, x);
  }

  /** A node that it goes down from, and what is below. */
  lemma GoesDownExactly(g: Graph, rank: nat -> nat, cx: Context, s: State, cat: seq<Categories>, n: nat, v: State,
                        below: seq<Meeting>)
    requires WellFormed(g) && Ranked(g, rank) && IsNode(g, n) && Ready(g, s, Tree(g, rank, n))
    requires |cat| == |g| && s.category[n] == cat[n] && Redundant !in cat[n] && !cx.forbidVisitingTwice
    requires GoesDown(g, RedundancyMarking, cx, s, n) && Before(g, RedundancyMarking, cx, s, n) == s
    requires var u := BeginTraversing(g, s, n);
             && FlagsConsistent(g, u.traversing) && v == TraverseChildren(g, RedundancyMarking, cx, u, Children(g, n)).0
             && v.category[n] == cat[n] && v.localCategory == u.localCategory && NothingSkipped(v)
             && (forall i :: 0 <= i < |Children(g, n)| ==> MarkedOnly(cat, v.category, Children(g, n)[i], true))
             && Exactly(g, cx, cat, u, v, below, Trees(g, rank, Children(g, n)))
    requires forall m :: m in below ==> m.node in Trees(g, rank, Children(g, n)) && IsNode(g, m.node)
    ensures var first := Meeting(n, Canonical(g, n) in s.visited + s.traversing);
            Exactly(g, cx, cat, s, Traverse(g, RedundancyMarking, cx, s, n).0, [first] + below, Tree(g, rank, n))
  {
    hide WellFormed, Traverse, TraverseChildren, VisitEnd, Before, Ranked, InTree, Marked, IsMarked, MarkedIn,
         FlagsConsistent, GoesDown, MarkedOnly;
    TraverseDown(g, cx, s, n);
    TreeParts(g, rank, n);
    var w, t := EndTraversing(g, v, n), Traverse(g, RedundancyMarking, cx, s, n).0;
    Leaves(g, cx, w, n);
    NodeExactly(g, rank, cx, s, cat, w, t, n);
    var first := Meeting(n, Canonical(g, n) in s.visited + s.traversing);
    MarkedInFirst(g, cx, cat, s.localCategory, t.category, first, below);
    ClassesTogether(g, [first], below);
    OneClass(g, first);
    forall x: nat | x in Trees(g, rank, Children(g, n)) && IsNode(g, x)
      ensures Redundant in t.category[x]
         <==> MarkedIn(g, cx, cat, s.localCategory, t.category, [first] + below, x)
    {
      BelowExactly(g, rank, cx, cat, s.localCategory, v, t, first, below, x);
    }
  }

  lemma OneClass(g: Graph, m: Meeting)
    requires WellFormed(g) && IsNode(g, m.node)
    ensures Classes(g, [m]) == {Canonical(g, m.node)}
  {
    assert [m][0] == m;
  }

  lemma TraverseDown(g: Graph, cx: Context, s: State, n: nat)
    requires WellFormed(g) && Fits(g, s) && FlagsConsistent(g, s.traversing) && IsNode(g, n)
    requires GoesDown(g, RedundancyMarking, cx, s, n) && Before(g, RedundancyMarking, cx, s, n) == s
    ensures FlagsConsistent(g, BeginTraversing(g, s, n).traversing)
    ensures var v := TraverseChildren(g, RedundancyMarking, cx, BeginTraversing(g, s, n), Children(g, n)).0;
            var w := EndTraversing(g, v, n);
            Traverse(g, RedundancyMarking, cx, s, n).0
              == Marked(g, RedundancyMarking, VisitEnd(g, RedundancyMarking, cx, w, n), n)
  {
    hide Traverse, TraverseChildren, VisitBegin, VisitEnd, Marked;
    TraverseShape(g, RedundancyMarking, cx, s, n);
  }

  lemma {:induction false} TraverseExactly(g: Graph, rank: nat -> nat, cx: Context, s: State, cat: seq<Categories>,
                                           n: nat)
    requires WellFormed(g) && Ranked(g, rank) && AllApart(g, rank) && IsNode(g, n) && Ready(g, s, Tree(g, rank, n))
    requires AsBefore(g, cat, s.category, Tree(g, rank, n)) && !cx.forbidVisitingTwice
    ensures Exactly(g, cx, cat, s, Traverse(g, RedundancyMarking, cx, s, n).0,
                    Order(g, cx, cat, s.visited + s.traversing, s.traversing, n), Tree(g, rank, n))
    decreases NotTraversing(g, s), 0, 0
  {
    hide WellFormed, Traverse, TraverseChildren, Before, Ranked, Tree, Trees, Exactly, IsRepetition, Reported,
         OrderOfAll, AsBefore, MarkedOnly, GoesDown, FlagsConsistent;
    if GoesDown(g, RedundancyMarking, cx, s, n) {
      OwnNode(g, rank, cat, s.category, n);
      Comes(g, cx, s, cat, n);
      ReadyBelow(g, rank, cx, s, n);
      BeginTraversingDecreases(g, s, n);
      var u, c := BeginTraversing(g, s, n), Canonical(g, n);
      ForestExactly(g, rank, cx, u, cat, Children(g, n));
      GoesDownMarks(g, rank, cx, u, cat, n);
      var met, open := s.visited + s.traversing, s.traversing;
      assert u.visited + u.traversing == met + {c, n};
      var below := OrderOfAll(g, cx, cat, met + {c, n}, open + {c, n}, Children(g, n));
      BelowInForest(g, rank, cx, cat, met + {c, n}, open + {c, n}, Children(g, n));
      GoesDownExactly(g, rank, cx, s, cat, n, TraverseChildren(g, RedundancyMarking, cx, u, Children(g, n)).0, below);
    } else {
      StaysExactly(g, rank, cx, s, cat, n);
    }
  }

  lemma BelowInForest(g: Graph, rank: nat -> nat, cx: Context, cat: seq<Categories>, met: set<nat>, open: set<nat>,
                      roots: seq<nat>)
    requires WellFormed(g) && Ranked(g, rank) && AreNodes(g, roots) && |cat| == |g|
    ensures forall m :: m in OrderOfAll(g, cx, cat, met, open, roots) ==>
              m.node in Trees(g, rank, roots) && IsNode(g, m.node)
  {
    hide OrderOfAll, InTree, Ranked;
    forall m | m in OrderOfAll(g, cx, cat, met, open, roots)
      ensures m.node in Trees(g, rank, roots) && IsNode(g, m.node)
    {
      OrderInForest(g, rank, cx, cat, met, open, roots, m);
    }
  }

  lemma {:induction false} ForestExactly(g: Graph, rank: nat -> nat, cx: Context, s: State, cat: seq<Categories>,
                                         roots: seq<nat>)
    requires WellFormed(g) && Ranked(g, rank) && AllApart(g, rank) && AreNodes(g, roots) && Apart(g, rank, roots)
    requires Ready(g, s, Trees(g, rank, roots)) && AsBefore(g, cat, s.category, Trees(g, rank, roots))
    requires !cx.forbidVisitingTwice
    ensures Exactly(g, cx, cat, s, TraverseChildren(g, RedundancyMarking, cx, s, roots).0,
                    OrderOfAll(g, cx, cat, s.visited + s.traversing, s.traversing, roots), Trees(g, rank, roots))
    decreases NotTraversing(g, s), 1, |roots|
  {
    hide WellFormed, Traverse, Ranked, InTree, Exactly, Order, Apart, AllApart;
    if roots == [] {
      NothingExactly(g, rank, cx, s, cat);
    } else {
      TreesParts(g, rank, roots);
      TraverseContinues(g, RedundancyMarking, cx, s, roots[0]);
      TraverseRestoresVisitor(g, cx, s, roots[0]);
      OthersUnchanged(g, rank, cx, s, roots[0]);
      var t := Traverse(g, RedundancyMarking, cx, s, roots[0]).0;
      TraverseExactly(g, rank, cx, s, cat, roots[0]);
      ForestExactly(g, rank, cx, t, cat, roots[1..]);
      TogetherExactly(g, rank, cx, s, t, cat, roots);
    }
  }

  lemma NothingExactly(g: Graph, rank: nat -> nat, cx: Context, s: State, cat: seq<Categories>)
    requires WellFormed(g) && Ranked(g, rank) && Fits(g, s) && |cat| == |g|
    ensures Exactly(g, cx, cat, s, s, [], Trees(g, rank, []))
  {
  }

  /** The tree of the first root, and those of the others. */
  lemma TogetherExactly(g: Graph, rank: nat -> nat, cx: Context, s: State, t: State, cat: seq<Categories>,
                        roots: seq<nat>)
    requires WellFormed(g) && Ranked(g, rank) && AreNodes(g, roots) && roots != [] && Apart(g, rank, roots)
    requires Ready(g, s, Trees(g, rank, roots)) && Fits(g, t) && FlagsConsistent(g, t.traversing) && |cat| == |g|
    requires t == Traverse(g, RedundancyMarking, cx, s, roots[0]).0 && t.localCategory == s.localCategory
    requires var first := Order(g, cx, cat, s.visited + s.traversing, s.traversing, roots[0]);
             var u := TraverseChildren(g, RedundancyMarking, cx, t, roots[1..]).0;
             && Exactly(g, cx, cat, s, t, first, Tree(g, rank, roots[0]))
             && Exactly(g, cx, cat, t, u, OrderOfAll(g, cx, cat, t.visited + t.traversing, t.traversing, roots[1..]),
                        Trees(g, rank, roots[1..]))
    ensures Exactly(g, cx, cat, s, TraverseChildren(g, RedundancyMarking, cx, t, roots[1..]).0,
                    OrderOfAll(g, cx, cat, s.visited + s.traversing, s.traversing, roots), Trees(g, rank, roots))
  {
    hide WellFormed, Traverse, TraverseChildren, Ranked, InTree, MarkedIn, Order, Apart, FlagsConsistent, Classes;
    TreesParts(g, rank, roots);
    OtherTreesUnchanged(g, rank, cx, t, roots[1..]);
    var u := TraverseChildren(g, RedundancyMarking, cx, t, roots[1..]).0;
    var met, open := s.visited + s.traversing, s.traversing;
    var first := Order(g, cx, cat, met, open, roots[0]);
    assert t.visited + t.traversing == met + Classes(g, first);
    var others := OrderOfAll(g, cx, cat, met + Classes(g, first), open, roots[1..]);
    ClassesTogether(g, first, others);
    forall m | m in first
      ensures m.node in Tree(g, rank, roots[0])
    {
      OrderInTree(g, rank, cx, cat, met, open, roots[0], m);
    }
    forall m | m in others
      ensures m.node in Trees(g, rank, roots[1..])
    {
      OrderInForest(g, rank, cx, cat, met + Classes(g, first), open, roots[1..], m);
    }
    forall x: nat | x in Trees(g, rank, roots) && IsNode(g, x)
      ensures Redundant in u.category[x] <==> MarkedIn(g, cx, cat, s.localCategory, u.category, first + others, x)
    {
      if x in Tree(g, rank, roots[0]) {
        MarkedInFirstTree(g, rank, cx, cat, s.localCategory, t.category, u.category, first, others, roots, x);
      } else {
        MarkedInAgrees(g, cx, cat, s.localCategory, u.category, u.category, others, first + others, x);
      }
    }
  }

  /** The other trees do not matter to the first one. */
  lemma MarkedInFirstTree(g: Graph, rank: nat -> nat, cx: Context, cat: seq<Categories>, local: seq<Categories>,
                          f1: seq<Categories>, f2: seq<Categories>, first: seq<Meeting>, others: seq<Meeting>,
                          roots: seq<nat>, x: nat)
    requires WellFormed(g) && Ranked(g, rank) && AreNodes(g, roots) && roots != [] && IsNode(g, x)
    requires |cat| == |local| == |f1| == |f2| == |g| && x in Tree(g, rank, roots[0])
    requires Tree(g, rank, roots[0]) !! Trees(g, rank, roots[1..])
    requires forall y :: IsNode(g, y) && y !in Trees(g, rank, roots[1..]) ==> f1[y] == f2[y]
    requires forall m :: m in others ==> m.node in Trees(g, rank, roots[1..])
    ensures MarkedIn(g, cx, cat, local, f1, first, x) <==> MarkedIn(g, cx, cat, local, f2, first + others, x)
  {
    hide WellFormed, Ranked, InTree, MarkedIn;
    forall i | 0 <= i < |Children(g, x)|
      ensures f1[Children(g, x)[i]] == f2[Children(g, x)[i]]
    {
      ChildInTree(g, rank, roots[0], x, i);
    }
    MarkedInAgrees(g, cx, cat, local, f1, f2, first, first + others, x);
  }

  // ----- The pass

  /** In the order of a pass, the class of a node has been met before if and only if it had been met at the
      start, or a node of that class comes earlier. */
  ghost predicate AgainIsLater(g: Graph, met: set<nat>, order: seq<Meeting>) {
    forall i :: 0 <= i < |order| && IsNode(g, order[i].node) ==>
      (order[i].again <==> g[order[i].node].canonical in met + Classes(g, order[..i]))
  }

  lemma {:induction false} OrderIsOrdered(g: Graph, cx: Context, cat: seq<Categories>, met: set<nat>, open: set<nat>,
                                          n: nat)
    requires WellFormed(g) && IsNode(g, n) && |cat| == |g|
    ensures AgainIsLater(g, met, Order(g, cx, cat, met, open, n))
    decreases |Nodes(g) - open|, 0, 0
  {
    hide OrderOfAll, Reported, IsRepetition, AgainIsLater;
    var c := Canonical(g, n);
    var first := Meeting(n, c in met);
    FirstIsOrdered(g, met, first);
    if Order(g, cx, cat, met, open, n) != [first] {
      FewerLeft(g, open, n);
      OrderOfAllIsOrdered(g, cx, cat, met + {c, n}, open + {c, n}, Children(g, n));
      BelowIsOrdered(g, met, first, OrderOfAll(g, cx, cat, met + {c, n}, open + {c, n}, Children(g, n)));
    }
  }

  lemma {:induction false} OrderOfAllIsOrdered(g: Graph, cx: Context, cat: seq<Categories>, met: set<nat>,
                                               open: set<nat>, roots: seq<nat>)
    requires WellFormed(g) && AreNodes(g, roots) && |cat| == |g|
    ensures AgainIsLater(g, met, OrderOfAll(g, cx, cat, met, open, roots))
    decreases |Nodes(g) - open|, 1, |roots|
  {
    hide Order, AgainIsLater;
    if roots == [] {
      NothingIsOrdered(g, met);
    } else {
      var first := Order(g, cx, cat, met, open, roots[0]);
      OrderIsOrdered(g, cx, cat, met, open, roots[0]);
      OrderOfAllIsOrdered(g, cx, cat, met + Classes(g, first), open, roots[1..]);
      TogetherOrdered(g, met, first, OrderOfAll(g, cx, cat, met + Classes(g, first), open, roots[1..]));
    }
  }

  lemma NothingIsOrdered(g: Graph, met: set<nat>)
    ensures AgainIsLater(g, met, [])
  {
  }

  lemma FirstIsOrdered(g: Graph, met: set<nat>, first: Meeting)
    requires WellFormed(g) && IsNode(g, first.node) && first.again == (Canonical(g, first.node) in met)
    ensures AgainIsLater(g, met, [first])
  {
    assert [first][..0] == [];
  }

  /** Only canonical nodes stand for classes. */
  lemma BelowIsOrdered(g: Graph, met: set<nat>, first: Meeting, below: seq<Meeting>)
    requires WellFormed(g) && IsNode(g, first.node) && AgainIsLater(g, met, [first])
    requires AgainIsLater(g, met + {Canonical(g, first.node), first.node}, below)
    ensures AgainIsLater(g, met, [first] + below)
  {
    OneClass(g, first);
    forall i | 0 <= i < |below| && IsNode(g, below[i].node)
      ensures below[i].again <==> g[below[i].node].canonical in met + Classes(g, [first]) + Classes(g, below[..i])
    {
      assert Linked(g, below[i].node);
    }
    assert AgainIsLater(g, met + Classes(g, [first]), below);
    TogetherOrdered(g, met, [first], below);
  }

  lemma TogetherOrdered(g: Graph, met: set<nat>, o1: seq<Meeting>, o2: seq<Meeting>)
    requires AgainIsLater(g, met, o1) && AgainIsLater(g, met + Classes(g, o1), o2)
    ensures AgainIsLater(g, met, o1 + o2)
  {
    hide Classes;
    forall i | 0 <= i < |o1 + o2| && IsNode(g, (o1 + o2)[i].node)
      ensures (o1 + o2)[i].again <==> g[(o1 + o2)[i].node].canonical in met + Classes(g, (o1 + o2)[..i])
    {
      if i < |o1| {
        assert (o1 + o2)[..i] == o1[..i];
      } else {
        assert (o1 + o2)[..i] == o1 + o2[..i - |o1|];
        ClassesTogether(g, o1, o2[..i - |o1|]);
      }
    }
  }

  /** The order in which a pass that has met nothing yet comes to nodes. */
  ghost function PassOrder(g: Graph, cx: Context, cat: seq<Categories>, roots: seq<nat>): seq<Meeting>
    requires WellFormed(g) && AreNodes(g, roots) && |cat| == |g|
  {
    OrderOfAll(g, cx, cat, {}, {}, roots)
  }

  /** A node of the class comes earlier in the order. */
  ghost predicate MetBefore(g: Graph, order: seq<Meeting>, i: nat)
    requires i < |order| && IsNode(g, order[i].node)
  {
    exists j :: 0 <= j < i && IsNode(g, order[j].node) && g[order[j].node].canonical == g[order[i].node].canonical
  }

  lemma PassOrderIsOrdered(g: Graph, rank: nat -> nat, cx: Context, cat: seq<Categories>, roots: seq<nat>, i: nat)
    requires WellFormed(g) && Ranked(g, rank) && AreNodes(g, roots) && |cat| == |g|
    requires i < |PassOrder(g, cx, cat, roots)|
    ensures var order := PassOrder(g, cx, cat, roots);
            IsNode(g, order[i].node) && (order[i].again <==> MetBefore(g, order, i))
  {
    hide OrderOfAll, Ranked, Classes, WellFormed;
    var order := PassOrder(g, cx, cat, roots);
    OrderInForest(g, rank, cx, cat, {}, {}, roots, order[i]);
    OrderOfAllIsOrdered(g, cx, cat, {}, {}, roots);
    ClassInPrefix(g, order, i, g[order[i].node].canonical);
  }

  lemma ClassInPrefix(g: Graph, order: seq<Meeting>, i: nat, c: nat)
    requires i <= |order|
    ensures c in Classes(g, order[..i])
       <==> exists j :: 0 <= j < i && IsNode(g, order[j].node) && g[order[j].node].canonical == c
  {
    var before := order[..i];
    if c in Classes(g, before) {
      var m :| m in before && IsNode(g, m.node) && g[m.node].canonical == c;
      var j :| 0 <= j < i && before[j] == m;
      assert order[j] == m;
    }
    if j :| 0 <= j < i && IsNode(g, order[j].node) && g[order[j].node].canonical == c {
      assert before[j] == order[j];
    }
  }

  /** A redundancy pass over a forest, with nothing visited and nothing marked before, marks exactly the nodes
      that it comes to and that repeat what has been met, or have nothing new. */
  lemma PassMarksExactly(g: Graph, rank: nat -> nat, cx: Context, s: State, roots: seq<nat>, x: nat)
    requires WellFormed(g) && AreNodes(g, roots) && IsForest(g, rank, roots) && Fresh(g, s) && !cx.forbidVisitingTwice
    requires IsNode(g, x)
    ensures var t := TraverseChildren(g, RedundancyMarking, cx, s, roots).0;
            var order := PassOrder(g, cx, s.category, roots);
            Redundant in t.category[x] <==> MarkedIn(g, cx, s.category, s.localCategory, t.category, order, x)
  {
    hide WellFormed, TraverseChildren, Ranked, InTree, MarkedIn, OrderOfAll, AllApart, Apart;
    ForestExactly(g, rank, cx, s, s.category, roots);
    assert s.visited + s.traversing == {};
    if x !in Trees(g, rank, roots) {
      OtherTreesUnchanged(g, rank, cx, s, roots);
      BelowInForest(g, rank, cx, s.category, {}, {}, roots);
      NotMet(g, cx, s.category, s.localCategory, TraverseChildren(g, RedundancyMarking, cx, s, roots).0.category,
             PassOrder(g, cx, s.category, roots), x);
    }
  }

  /** Exactly those nodes are marked in the end that should be. */
  ghost predicate MarksExactly(g: Graph, cx: Context, s: State, final: seq<Categories>, roots: seq<nat>)
    requires WellFormed(g) && AreNodes(g, roots) && Fits(g, s) && |final| == |g|
  {
    var order := PassOrder(g, cx, s.category, roots);
    forall x: nat :: IsNode(g, x) ==>
      (Redundant in final[x] <==> MarkedIn(g, cx, s.category, s.localCategory, final, order, x))
  }

  lemma PassMarksAll(g: Graph, rank: nat -> nat, cx: Context, s: State, roots: seq<nat>)
    requires WellFormed(g) && AreNodes(g, roots) && IsForest(g, rank, roots) && Fresh(g, s) && !cx.forbidVisitingTwice
    ensures MarksExactly(g, cx, s, TraverseChildren(g, RedundancyMarking, cx, s, roots).0.category, roots)
  {
    hide WellFormed, TraverseChildren, IsForest, MarkedIn, PassOrder;
    forall x: nat | IsNode(g, x)
      ensures var final := TraverseChildren(g, RedundancyMarking, cx, s, roots).0.category;
              var order := PassOrder(g, cx, s.category, roots);
              Redundant in final[x] <==> MarkedIn(g, cx, s.category, s.localCategory, final, order, x)
    {
      PassMarksExactly(g, rank, cx, s, roots, x);
    }
  }

  lemma OnlyCategoriesMatter(g: Graph, cx: Context, s: State, t: State, final: seq<Categories>, roots: seq<nat>)
    requires WellFormed(g) && AreNodes(g, roots) && Fits(g, s) && Fits(g, t) && |final| == |g|
    requires s.category == t.category && s.localCategory == t.localCategory
    ensures MarksExactly(g, cx, s, final, roots) == MarksExactly(g, cx, t, final, roots)
  {
  }

  lemma NotMet(g: Graph, cx: Context, cat: seq<Categories>, local: seq<Categories>, final: seq<Categories>,
               order: seq<Meeting>, x: nat)
    requires WellFormed(g) && IsNode(g, x) && |cat| == |local| == |final| == |g|
    requires forall m :: m in order ==> m.node != x
    ensures !MarkedIn(g, cx, cat, local, final, order, x)
  {
  }

  // ----- What that means

  /** A node whose class has been met before is marked, when it is to be reported and of a kind that may be
      marked, unless it has a twin. */
  lemma RepetitionIsMarked(g: Graph, rank: nat -> nat, cx: Context, s: State, roots: seq<nat>, i: nat)
    requires WellFormed(g) && AreNodes(g, roots) && IsForest(g, rank, roots) && Fresh(g, s) && !cx.forbidVisitingTwice
    requires var order := PassOrder(g, cx, s.category, roots);
             && i < |order| && IsNode(g, order[i].node) && MetBefore(g, order, i)
             && g[order[i].node].hasChanges && IsShown(cx, s.category[order[i].node])
             && !g[order[i].node].unmarkable && !HasTwin(g, order[i].node)
    ensures Redundant in TraverseChildren(g, RedundancyMarking, cx, s, roots).0.category[
                             PassOrder(g, cx, s.category, roots)[i].node]
  {
    hide WellFormed, TraverseChildren, Ranked, AllApart, Apart, PassOrder, HasTwin, IsFilteredOut, IsShown;
    var order, t := PassOrder(g, cx, s.category, roots), TraverseChildren(g, RedundancyMarking, cx, s, roots).0;
    PassOrderIsOrdered(g, rank, cx, s.category, roots, i);
    PassMarksExactly(g, rank, cx, s, roots, order[i].node);
    assert order[i] in order && IsMarked(g, cx, s.category, s.localCategory, t.category, order[i]);
  }

  /** So is a node that is met, when it has no local changes to report, and some of its children have changes,
      but all those that are to be reported have been marked. */
  lemma NothingNewIsMarked(g: Graph, rank: nat -> nat, cx: Context, s: State, roots: seq<nat>, i: nat)
    requires WellFormed(g) && AreNodes(g, roots) && IsForest(g, rank, roots) && Fresh(g, s) && !cx.forbidVisitingTwice
    requires var order := PassOrder(g, cx, s.category, roots);
             var t := TraverseChildren(g, RedundancyMarking, cx, s, roots).0;
             && i < |order| && IsNode(g, order[i].node)
             && var n := order[i].node;
                && g[n].hasChanges && IsShown(cx, s.category[n])
                && !(g[n].hasLocalChanges && IsShown(cx, s.localCategory[n]))
                && (exists c :: c in Children(g, n) && g[c].hasChanges)
                && (forall c :: c in Children(g, n) && g[c].hasChanges && IsShown(cx, s.category[c]) ==>
                      Redundant in t.category[c])
    ensures Redundant in TraverseChildren(g, RedundancyMarking, cx, s, roots).0.category[
                             PassOrder(g, cx, s.category, roots)[i].node]
  {
    hide WellFormed, TraverseChildren, Ranked, AllApart, Apart, PassOrder, HasTwin, IsFilteredOut, IsShown;
    var order, t := PassOrder(g, cx, s.category, roots), TraverseChildren(g, RedundancyMarking, cx, s, roots).0;
    PassMarksExactly(g, rank, cx, s, roots, order[i].node);
    assert order[i] in order && IsMarked(g, cx, s.category, s.localCategory, t.category, order[i]);
  }

  /** Two nodes of a class, both children of a third one, that have local changes to report, are both kept. */
  lemma TwinsAreKept(g: Graph, rank: nat -> nat, cx: Context, s: State, roots: seq<nat>, p: nat, i: nat, j: nat)
    requires WellFormed(g) && AreNodes(g, roots) && IsForest(g, rank, roots) && Fresh(g, s) && !cx.forbidVisitingTwice
    requires IsNode(g, p) && !g[p].isFnParm && i < |Children(g, p)| && j < |Children(g, p)|
    requires var x, y := Children(g, p)[i], Children(g, p)[j];
             && x != y && g[x].parent == p && g[x].canonical == g[y].canonical && !g[y].isFnParm
             && g[x].hasLocalChanges && IsShown(cx, s.localCategory[x])
    ensures Redundant !in TraverseChildren(g, RedundancyMarking, cx, s, roots).0.category[Children(g, p)[i]]
  {
    hide WellFormed, TraverseChildren, Ranked, AllApart, Apart, PassOrder, IsFilteredOut, IsShown;
    var x, y := Children(g, p)[i], Children(g, p)[j];
    assert IsAbove(g, p, x) && IsTwin(g, x, Children(g, p)[j]);
    PassMarksExactly(g, rank, cx, s, roots, x);
  }

  /** The types of two parameters of a function likewise. */
  lemma ParametersAreKept(g: Graph, rank: nat -> nat, cx: Context, s: State, roots: seq<nat>, p: nat, i: nat, j: nat,
                          x: nat)
    requires WellFormed(g) && AreNodes(g, roots) && IsForest(g, rank, roots) && Fresh(g, s) && !cx.forbidVisitingTwice
    requires IsNode(g, p) && i < |Children(g, p)| && j < |Children(g, p)| && IsNode(g, x)
    requires var f1, f2 := Children(g, p)[i], Children(g, p)[j];
             && g[f1].isFnParm && g[f1].parent == p && g[x].parent == f1
             && g[f2].isFnParm && f2 != x && g[f2].typeDiff != x && IsNode(g, g[f2].typeDiff)
             && g[g[f2].typeDiff].canonical == g[x].canonical
             && g[x].hasLocalChanges && IsShown(cx, s.localCategory[x])
    ensures Redundant !in TraverseChildren(g, RedundancyMarking, cx, s, roots).0.category[x]
  {
    hide WellFormed, TraverseChildren, Ranked, AllApart, Apart, PassOrder, IsFilteredOut, IsShown;
    assert IsAbove(g, p, x) && IsTwin(g, x, Children(g, p)[j]);
    PassMarksExactly(g, rank, cx, s, roots, x);
  }

  // ----- What is shown, and what a suppression pass has hidden

  /** On any graph, the pass marks nothing at a node that is not shown, and does not go down from it. */
  lemma HiddenNotEntered(g: Graph, cx: Context, s: State, n: nat)
    requires WellFormed(g) && Fits(g, s) && FlagsConsistent(g, s.traversing) && IsNode(g, n) && NothingSkipped(s)
    requires !IsShown(cx, s.category[n])
    ensures Traverse(g, RedundancyMarking, cx, s, n) == (s.(visited := s.visited + {Canonical(g, n)}), true)
  {
    hide TraverseChildren;
    TraverseShape(g, RedundancyMarking, cx, s, n);
    ShownExactly(cx);
    assert SkipsVisited(g, cx, s, n) ==> s.visited + {Canonical(g, n)} == s.visited;
  }

  /** From a node of a new class that is shown and has changes, it does go down. */
  lemma NewClassEntered(g: Graph, cx: Context, s: State, n: nat)
    requires WellFormed(g) && Fits(g, s) && FlagsConsistent(g, s.traversing) && IsNode(g, n) && NothingSkipped(s)
    requires Canonical(g, n) !in s.visited && Canonical(g, n) !in s.traversing
    ensures GoesDown(g, RedundancyMarking, cx, s, n) <==> g[n].hasChanges && IsShown(cx, s.category[n])
  {
    hide RedundantWithSibling;
    ShownExactly(cx);
  }

  /** So what a suppression pass has suppressed, because of a specification or of all that changes below it, is
      passed over by the marking of redundant nodes, however far that has come. */
  lemma SuppressedIsPassedOver(g: Graph, rank: nat -> nat, cx: Context, s: State, n: nat, x: nat, u: State)
    requires WellFormed(g) && Fits(g, s) && IsNode(g, n) && PropagationPass.Acyclic(g, rank) && !cx.forbidVisitingTwice
    requires s.traversing == {} && !s.skipChildren && (forall y :: IsNode(g, y) ==> Suppressed !in s.category[y])
    requires SuppressionPass.IsBelow(g, rank, n, x) && cx.allowed != EVERYTHING
    requires Fits(g, u) && FlagsConsistent(g, u.traversing) && NothingSkipped(u)
    requires MarkedOnly(Traverse(g, Suppression, cx, s, n).0.category, u.category, x, true)
    ensures IsNode(g, x)
    ensures SuppressionPass.ShouldBeSuppressed(g, rank, x) ==>
              && Traverse(g, RedundancyMarking, cx, u, x) == (u.(visited := u.visited + {Canonical(g, x)}), true)
              && forall met, open :: |Order(g, cx, u.category, met, open, x)| == 1
  {
    hide Traverse, SuppressionPass.ShouldBeSuppressed, SuppressionPass.IsBelow;
    SuppressionPass.SuppressionIsExact(g, rank, cx, s, n, x);
    if SuppressionPass.ShouldBeSuppressed(g, rank, x) {
      HiddenNotEntered(g, cx, u, x);
    }
  }
}
