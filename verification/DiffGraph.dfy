/** The graph of diff nodes, and the traversal that applies a visitor to it. */
module DiffGraph {

  // ----- Categories

  datatype Category =
    | AccessChange | CompatibleTypeChange | HarmlessDeclNameChange | NonVirtMemFunChange
    | StaticDataMemberChange | HarmlessEnumChange | HarmlessSymbolAliasChange | Suppressed
    | SizeOrOffsetChange | VirtualMemberChange | Redundant

  /** A bit-map of categories. */
  type Categories = set<Category>

  const EVERYTHING: Categories := {
    AccessChange, CompatibleTypeChange, HarmlessDeclNameChange, NonVirtMemFunChange,
    StaticDataMemberChange, HarmlessEnumChange, HarmlessSymbolAliasChange, Suppressed,
    SizeOrOffsetChange, VirtualMemberChange, Redundant }

  // ----- What does not change during a pass

  /** A diff node.  Nodes of the same two subjects share a canonical node.  `suppressed` says that a
      suppression specification matches the node, `unmarkable` that it is a node of a kind that is never
      marked as redundant, and `typeDiff` is the type node of a function parameter. */
  datatype Node = Node(
    children: seq<nat>,
    parent: int,
    canonical: nat,
    hasChanges: bool,
    hasLocalChanges: bool,
    suppressed: bool,
    unmarkable: bool,
    isFnParm: bool,
    typeDiff: nat)

  type Graph = seq<Node>

  predicate IsNode(g: Graph, n: int) { 0 <= n < |g| }

  /** All links of a node lead to nodes, and its canonical node is its own canonical node. */
  ghost predicate Linked(g: Graph, n: nat) {
    IsNode(g, n) ==>
      && (forall i :: 0 <= i < |g[n].children| ==> IsNode(g, g[n].children[i]))
      && -1 <= g[n].parent < |g|
      && IsNode(g, g[n].canonical) && g[g[n].canonical].canonical == g[n].canonical
      && IsNode(g, g[n].typeDiff)
  }

  ghost predicate WellFormed(g: Graph) {
    forall n {:trigger Linked(g, n)} :: Linked(g, n)
  }

  function Canonical(g: Graph, n: nat): (c: nat)
    requires WellFormed(g) && IsNode(g, n)
    ensures IsNode(g, c) && g[c].canonical == c
  {
    assert Linked(g, n);
    g[n].canonical
  }

  function Children(g: Graph, n: nat): (cs: seq<nat>)
    requires WellFormed(g) && IsNode(g, n)
    ensures AreNodes(g, cs)
  {
    assert Linked(g, n);
    g[n].children
  }

  ghost predicate AreNodes(g: Graph, cs: seq<nat>) {
    forall i :: 0 <= i < |cs| ==> IsNode(g, cs[i])
  }

  /** What the diff context says about categories and about visiting nodes. */
  datatype Context = Context(allowed: Categories, showRedundantChanges: bool, forbidVisitingTwice: bool)

  /** The visitors.  `Plain` stands for any visitor that leaves the categories alone; its results may stop
      the traversal, and it may ask not to mark what it visits. */
  datatype Visitor =
    | Propagation
    | Suppression
    | RedundancyMarking
    | RedundancyClearing
    | Plain(visit: (nat, bool) -> bool, doNotMark: bool)

  // ----- What changes during a pass

  datatype State = State(
    category: seq<Categories>,
    localCategory: seq<Categories>,
    traversing: set<nat>,
    visited: set<nat>,
    skipChildren: bool,        // the visiting kind of the visitor
    skippedChildren: bool)     // what the redundancy marking visitor remembers of it

  ghost predicate Fits(g: Graph, s: State) {
    |s.category| == |s.localCategory| == |g|
  }

  /** A node is only flagged as being traversed together with its canonical node. */
  ghost predicate FlagsConsistent(g: Graph, traversing: set<nat>) {
    forall n :: n in traversing ==> IsNode(g, n) && g[n].canonical in traversing
  }

  function AddToCategory(s: State, n: nat, c: Categories): State
    requires n < |s.category|
  {
    s.(category := s.category[n := s.category[n] + c])
  }

  // ----- Whether a node is reported

  predicate IsFilteredOut(cx: Context, category: Categories) {
    if cx.allowed == EVERYTHING then false
    else if Suppressed in category then true
    else if !cx.showRedundantChanges && Redundant in category then true
    else if category == {} then false
    else (category - {Redundant}) * (cx.allowed - {Redundant}) == {}
  }

  predicate ToBeReported(g: Graph, cx: Context, s: State, n: nat)
    requires IsNode(g, n) && n < |s.category|
  {
    g[n].hasChanges && !IsFilteredOut(cx, s.category[n])
  }

  predicate HasLocalChangesToBeReported(g: Graph, cx: Context, s: State, n: nat)
    requires IsNode(g, n) && n < |s.localCategory|
  {
    g[n].hasLocalChanges && !IsFilteredOut(cx, s.localCategory[n])
  }

  // ----- Redundancy among siblings

  /** The node to look for siblings under: the parent, looking through a function parameter. */
  function SiblingParent(g: Graph, n: nat): (p: int)
    requires WellFormed(g) && IsNode(g, n)
    ensures -1 <= p < |g|
  {
    assert Linked(g, n);
    var p := g[n].parent;
    if p >= 0 && g[p].isFnParm then (assert Linked(g, p); g[p].parent) else p
  }

  predicate SiblingOfSameClass(g: Graph, n: nat, s: nat)
    requires WellFormed(g) && IsNode(g, n) && IsNode(g, s)
  {
    assert Linked(g, s);
    var sib := if g[s].isFnParm then g[s].typeDiff else s;
    s != n && sib != n && Canonical(g, sib) == Canonical(g, n)
  }

  predicate RedundantWithSibling(g: Graph, n: nat)
    requires WellFormed(g) && IsNode(g, n)
  {
    var p := SiblingParent(g, n);
    p >= 0 && exists i :: 0 <= i < |Children(g, p)| && SiblingOfSameClass(g, n, Children(g, p)[i])
  }

  // ----- The visitors, as functions on the state

  /** Whether the redundancy marking visitor marks a node when it comes across it. */
  predicate MarkedOnSight(g: Graph, cx: Context, s: State, n: nat)
    requires WellFormed(g) && Fits(g, s) && IsNode(g, n)
  {
    && ToBeReported(g, cx, s, n)
    && (Canonical(g, n) in s.visited || Canonical(g, n) in s.traversing)
    && g[n].hasChanges
    && !RedundantWithSibling(g, n)
    && !g[n].unmarkable
  }

  function VisitBegin(g: Graph, v: Visitor, cx: Context, s: State, n: nat): (r: State)
    requires WellFormed(g) && Fits(g, s) && IsNode(g, n)
    ensures Fits(g, r) && r.traversing == s.traversing && r.visited == s.visited
  {
    match v
    case Propagation => s
    case Suppression =>
      if g[n].suppressed then
        AddToCategory(s, n, {Suppressed}).(localCategory := s.localCategory[n := s.localCategory[n] + {Suppressed}])
      else s
    case RedundancyMarking =>
      if MarkedOnSight(g, cx, s, n) then AddToCategory(s, n, {Redundant}).(skipChildren := true, skippedChildren :=
          true)
      else if !ToBeReported(g, cx, s, n) then s.(skipChildren := true, skippedChildren := true)
      else s
    case RedundancyClearing => s
    case Plain(_, _) => s
  }

  function Visit(g: Graph, v: Visitor, s: State, n: nat, pre: bool): (r: (State, bool))
    requires Fits(g, s) && IsNode(g, n)
    ensures Fits(g, r.0) && r.0.traversing == s.traversing && r.0.visited == s.visited
  {
    match v
    case RedundancyClearing => (s.(category := s.category[n := s.category[n] - {Redundant}]), true)
    case Plain(visit, _) => (s, visit(n, pre))
    case _ => (s, true)
  }

  /** The category of one child is propagated to the node, and to its canonical node when the class is
      visited for the first time. */
  function PropagateChild(g: Graph, s: State, n: nat, child: nat, alreadyVisited: bool): (r: State)
    requires WellFormed(g) && Fits(g, s) && IsNode(g, n) && IsNode(g, child)
    ensures Fits(g, r) && r.traversing == s.traversing && r.visited == s.visited
  {
    var c := s.category[if alreadyVisited then Canonical(g, child) else child] - {Redundant, Suppressed};
    var t := AddToCategory(s, n, c);
    if alreadyVisited then t else AddToCategory(t, Canonical(g, n), c)
  }

  function PropagateChildren(g: Graph, s: State, n: nat, children: seq<nat>, alreadyVisited: bool): (r: State)
    requires WellFormed(g) && Fits(g, s) && IsNode(g, n)
    requires AreNodes(g, children)
    ensures Fits(g, r) && r.traversing == s.traversing && r.visited == s.visited
    decreases |children|
  {
    if children == [] then s
    else PropagateChildren(g, PropagateChild(g, s, n, children[0], alreadyVisited), n, children[1..], alreadyVisited)
  }

  /** At least one child has changes. */
  predicate SomeChanges(g: Graph, children: seq<nat>)
    requires AreNodes(g, children)
  {
    exists i :: 0 <= i < |children| && g[children[i]].hasChanges
  }

  /** All children that have changes are suppressed. */
  predicate ChangesSuppressed(g: Graph, s: State, children: seq<nat>)
    requires Fits(g, s) && AreNodes(g, children)
  {
    forall i :: 0 <= i < |children| && g[children[i]].hasChanges ==> Suppressed in s.category[children[i]]
  }

  /** All children that would be reported are redundant. */
  predicate ChangesRedundant(g: Graph, cx: Context, s: State, children: seq<nat>)
    requires Fits(g, s) && AreNodes(g, children)
  {
    forall i :: 0 <= i < |children| && ToBeReported(g, cx, s, children[i]) ==> Redundant in s.category[children[i]]
  }

  function VisitEnd(g: Graph, v: Visitor, cx: Context, s: State, n: nat): (r: State)
    requires WellFormed(g) && Fits(g, s) && IsNode(g, n)
    ensures Fits(g, r) && r.traversing == s.traversing && r.visited == s.visited
  {
    match v
    case Propagation => PropagateChildren(g, s, n, Children(g, n), Canonical(g, n) in s.visited)
    case Suppression =>
      if Suppressed !in s.category[n] && !g[n].hasLocalChanges
         && SomeChanges(g, Children(g, n)) && ChangesSuppressed(g, s, Children(g, n))
      then AddToCategory(s, n, {Suppressed}) else s
    case RedundancyMarking =>
      if s.skippedChildren then s.(skipChildren := false, skippedChildren := false)
      else if Redundant !in s.category[n] && !HasLocalChangesToBeReported(g, cx, s, n)
         && SomeChanges(g, Children(g, n)) && ChangesRedundant(g, cx, s, Children(g, n))
      then AddToCategory(s, n, {Redundant}) else s
    case RedundancyClearing => s
    case Plain(_, _) => s
  }

  // ----- The traversal, as a function on the state

  function BeginTraversing(g: Graph, s: State, n: nat): State
    requires WellFormed(g) && IsNode(g, n)
  {
    s.(traversing := s.traversing + {Canonical(g, n), n})
  }

  function EndTraversing(g: Graph, s: State, n: nat): State
    requires WellFormed(g) && IsNode(g, n)
  {
    s.(traversing := s.traversing - {Canonical(g, n), n})
  }

  function Marked(g: Graph, v: Visitor, s: State, n: nat): State
    requires WellFormed(g) && IsNode(g, n)
  {
    if v.Plain? && v.doNotMark then s else s.(visited := s.visited + {Canonical(g, n)})
  }

  ghost function Nodes(g: Graph): set<nat> {
    set n: nat | n < |g| && IsNode(g, n)
  }

  /** The nodes that are not flagged: the traversal only goes down from a node whose class is not flagged,
      so there are fewer of them below, whatever the cycles of the graph. */
  ghost function NotTraversing(g: Graph, s: State): nat {
    |Nodes(g) - s.traversing|
  }

  lemma BeginTraversingDecreases(g: Graph, s: State, n: nat)
    requires WellFormed(g) && IsNode(g, n) && Canonical(g, n) !in s.traversing
    ensures NotTraversing(g, BeginTraversing(g, s, n)) < NotTraversing(g, s)
  {
    var before, after := Nodes(g) - s.traversing, Nodes(g) - BeginTraversing(g, s, n).traversing;
    assert Canonical(g, n) in before && Canonical(g, n) !in after;
    SubsetCardinality(after, before);
  }

  lemma {:induction false} SubsetCardinality(a: set<nat>, b: set<nat>)
    requires a <= b && a != b
    ensures |a| < |b|
  {
    assert b == a + (b - a);
    var x :| x in b - a;
    assert |b| == |a| + |b - a|;
  }

  /** Traversing a node: whatever happens on the way, the flags of the nodes being traversed are as before
      when it is done. */
  ghost function Traverse(g: Graph, v: Visitor, cx: Context, s: State, n: nat): (r: (State, bool))
    requires WellFormed(g) && Fits(g, s) && FlagsConsistent(g, s.traversing) && IsNode(g, n)
    ensures Fits(g, r.0) && r.0.traversing == s.traversing && s.visited <= r.0.visited
    decreases NotTraversing(g, s), 0, 0
  {
    var s1 := VisitBegin(g, v, cx, s, n);
    var alreadyVisited := cx.forbidVisitingTwice && Canonical(g, n) in s1.visited;
    var (s2, keepGoing) := if alreadyVisited then (s1, true) else Visit(g, v, s1, n, true);
    if !keepGoing then (Marked(g, v, VisitEnd(g, v, cx, s2, n), n), false)
    else if s2.skipChildren || Canonical(g, n) in s2.traversing || alreadyVisited then
      TraverseEnd(g, v, cx, s2, n, alreadyVisited)
    else
      BeginTraversingDecreases(g, s2, n);
      var (s3, all) := TraverseChildren(g, v, cx, BeginTraversing(g, s2, n), Children(g, n));
      assert s3.traversing == s2.traversing + {Canonical(g, n), n} && n !in s2.traversing;
      if !all then (EndTraversing(g, Marked(g, v, VisitEnd(g, v, cx, s3, n), n), n), false)
      else TraverseEnd(g, v, cx, EndTraversing(g, s3, n), n, alreadyVisited)
  }

  /** After the children: visit the node again, and mark its class as visited. */
  ghost function TraverseEnd(g: Graph, v: Visitor, cx: Context, s: State, n: nat,
                             alreadyVisited: bool): (r: (State, bool))
    requires WellFormed(g) && Fits(g, s) && IsNode(g, n)
    ensures Fits(g, r.0) && r.0.traversing == s.traversing && s.visited <= r.0.visited
  {
    var (s1, keepGoing) := Visit(g, v, s, n, false);
    var s2 := VisitEnd(g, v, cx, s1, n);
    if !keepGoing then (Marked(g, v, s2, n), false)
    else (if alreadyVisited then s2 else Marked(g, v, s2, n), true)
  }

  ghost function TraverseChildren(g: Graph, v: Visitor, cx: Context, s: State, children: seq<nat>): (r: (State, bool))
    requires WellFormed(g) && Fits(g, s) && FlagsConsistent(g, s.traversing)
    requires AreNodes(g, children)
    ensures Fits(g, r.0) && r.0.traversing == s.traversing && s.visited <= r.0.visited
    decreases NotTraversing(g, s), 1, |children|
  {
    if children == [] then (s, true)
    else
      var (s1, keepGoing) := Traverse(g, v, cx, s, children[0]);
      if !keepGoing then (s1, false) else TraverseChildren(g, v, cx, s1, children[1..])
  }

  // ----- Visitors that never stop a traversal

  /** The visitors of the program all do. */
  predicate Continues(v: Visitor) { !v.Plain? }

  lemma VisitContinues(g: Graph, v: Visitor, cx: Context, s: State, n: nat)
    requires WellFormed(g) && Fits(g, s) && IsNode(g, n) && Continues(v)
    ensures Visit(g, v, s, n, true).1 && TraverseEnd(g, v, cx, s, n, true).1 && TraverseEnd(g, v, cx, s, n, false).1
  {
  }

  lemma {:induction false} TraverseContinues(g: Graph, v: Visitor, cx: Context, s: State, n: nat)
    requires WellFormed(g) && Fits(g, s) && FlagsConsistent(g, s.traversing) && IsNode(g, n) && Continues(v)
    ensures Traverse(g, v, cx, s, n).1
    decreases NotTraversing(g, s), 0, 0
  {
    hide VisitBegin, Visit, VisitEnd, Marked, TraverseEnd, TraverseChildren;
    var s1 := VisitBegin(g, v, cx, s, n);
    VisitContinues(g, v, cx, s1, n);
    var alreadyVisited := cx.forbidVisitingTwice && Canonical(g, n) in s1.visited;
    var s2 := if alreadyVisited then s1 else Visit(g, v, s1, n, true).0;
    if s2.skipChildren || Canonical(g, n) in s2.traversing || alreadyVisited {
      VisitContinues(g, v, cx, s2, n);
    } else {
      BeginTraversingDecreases(g, s2, n);
      TraverseChildrenContinues(g, v, cx, BeginTraversing(g, s2, n), Children(g, n));
      VisitContinues(g, v, cx,
                     EndTraversing(g, TraverseChildren(g, v, cx, BeginTraversing(g, s2, n), Children(g, n)).0, n), n);
    }
  }

  lemma {:induction false} TraverseChildrenContinues(g: Graph, v: Visitor, cx: Context, s: State, children: seq<nat>)
    requires WellFormed(g) && Fits(g, s) && FlagsConsistent(g, s.traversing) && AreNodes(g, children) && Continues(v)
    ensures TraverseChildren(g, v, cx, s, children).1
    decreases NotTraversing(g, s), 1, |children|
  {
    if children != [] {
      TraverseContinues(g, v, cx, s, children[0]);
      TraverseChildrenContinues(g, v, cx, Traverse(g, v, cx, s, children[0]).0, children[1..]);
    }
  }

  /** The state in which a node's children are looked at, or not. */
  function Before(g: Graph, v: Visitor, cx: Context, s: State, n: nat): (r: State)
    requires WellFormed(g) && Fits(g, s) && IsNode(g, n)
    ensures Fits(g, r) && r.traversing == s.traversing && r.visited == s.visited
  {
    var s1 := VisitBegin(g, v, cx, s, n);
    if SkipsVisited(g, cx, s, n) then s1 else Visit(g, v, s1, n, true).0
  }

  predicate SkipsVisited(g: Graph, cx: Context, s: State, n: nat)
    requires WellFormed(g) && IsNode(g, n)
  {
    cx.forbidVisitingTwice && Canonical(g, n) in s.visited
  }

  predicate GoesDown(g: Graph, v: Visitor, cx: Context, s: State, n: nat)
    requires WellFormed(g) && Fits(g, s) && IsNode(g, n)
  {
    !Before(g, v, cx, s, n).skipChildren && Canonical(g, n) !in s.traversing && !SkipsVisited(g, cx, s, n)
  }

  /** The state after the children of a node, if it has been going down to them. */
  ghost function Below(g: Graph, v: Visitor, cx: Context, s: State, n: nat): (r: State)
    requires WellFormed(g) && Fits(g, s) && FlagsConsistent(g, s.traversing) && IsNode(g, n)
    ensures Fits(g, r) && r.traversing == s.traversing && s.visited <= r.visited
  {
    var b := Before(g, v, cx, s, n);
    if GoesDown(g, v, cx, s, n) then
      EndTraversing(g, TraverseChildren(g, v, cx, BeginTraversing(g, b, n), Children(g, n)).0, n)
    else b
  }

  /** A traversal that is never stopped: before, below, and after. */
  lemma TraverseShape(g: Graph, v: Visitor, cx: Context, s: State, n: nat)
    requires WellFormed(g) && Fits(g, s) && FlagsConsistent(g, s.traversing) && IsNode(g, n) && Continues(v)
    ensures var after := VisitEnd(g, v, cx, Visit(g, v, Below(g, v, cx, s, n), n, false).0, n);
            Traverse(g, v, cx, s, n) == (if SkipsVisited(g, cx, s, n) then after else Marked(g, v, after, n), true)
    ensures GoesDown(g, v, cx, s, n) ==>
              NotTraversing(g, BeginTraversing(g, Before(g, v, cx, s, n), n)) < NotTraversing(g, s)
  {
    hide VisitBegin, VisitEnd, Marked;
    TraverseContinues(g, v, cx, s, n);
    var b := Before(g, v, cx, s, n);
    if GoesDown(g, v, cx, s, n) {
      BeginTraversingDecreases(g, b, n);
      TraverseChildrenContinues(g, v, cx, BeginTraversing(g, b, n), Children(g, n));
    }
  }

  /** When nodes must not be visited twice, the traversal does not go down from a node whose class has been
      visited: nothing changes but what the visitor does to that node itself. */
  lemma VisitedNotEntered(g: Graph, v: Visitor, cx: Context, s: State, n: nat)
    requires WellFormed(g) && Fits(g, s) && FlagsConsistent(g, s.traversing) && IsNode(g, n) && Continues(v)
    requires cx.forbidVisitingTwice && Canonical(g, n) in s.visited
    ensures var t := Traverse(g, v, cx, s, n).0;
            && t.visited == s.visited
            && forall x: nat :: IsNode(g, x) && x != n ==>
                 t.category[x] == s.category[x] && t.localCategory[x] == s.localCategory[x]
  {
    hide MarkedOnSight, PropagateChildren, ChangesRedundant, ChangesSuppressed, SomeChanges,
         HasLocalChangesToBeReported, ToBeReported;
    TraverseShape(g, v, cx, s, n);
    var b := Below(g, v, cx, s, n);
    if v.Propagation? {
      PropagateToItself(g, b, n, Children(g, n));
    }
  }

  /** A node of a visited class gives nothing to its canonical node. */
  lemma {:induction false} PropagateToItself(g: Graph, s: State, n: nat, children: seq<nat>)
    requires WellFormed(g) && Fits(g, s) && IsNode(g, n) && AreNodes(g, children)
    ensures var t := PropagateChildren(g, s, n, children, true);
            t.localCategory == s.localCategory
            && forall x: nat :: IsNode(g, x) && x != n ==> t.category[x] == s.category[x]
    decreases |children|
  {
    if children != [] {
      PropagateToItself(g, PropagateChild(g, s, n, children[0], true), n, children[1..]);
    }
  }

  /** Where a traversal with any other visitor comes to: it stays at the node, or goes down from it. */
  lemma PlainShape(g: Graph, v: Visitor, cx: Context, s: State, n: nat)
    requires WellFormed(g) && Fits(g, s) && FlagsConsistent(g, s.traversing) && IsNode(g, n) && v.Plain?
    ensures var (t, below) := (Traverse(g, v, cx, s, n).0, GoesDown(g, v, cx, s, n) && v.visit(n, true));
            if !below then t == Marked(g, v, s, n)
            else
              && FlagsConsistent(g, BeginTraversing(g, s, n).traversing)
              && t == Marked(g, v, EndTraversing(g,
                  TraverseChildren(g, v, cx, BeginTraversing(g, s, n), Children(g, n)).0, n), n)
  {
    hide TraverseChildren;
    assert Canonical(g, n) in s.visited ==> s.visited + {Canonical(g, n)} == s.visited;
  }

  /** Any other visitor only leaves behind what it has visited, or nothing at all when it asks not to mark that. */
  lemma {:induction false} PlainOnlyVisits(g: Graph, v: Visitor, cx: Context, s: State, n: nat)
    requires WellFormed(g) && Fits(g, s) && FlagsConsistent(g, s.traversing) && IsNode(g, n) && v.Plain?
    ensures var t := Traverse(g, v, cx, s, n).0;
            && t == s.(visited := t.visited)
            && if v.doNotMark then t.visited == s.visited else Canonical(g, n) in t.visited
    decreases NotTraversing(g, s), 0, 0
  {
    hide WellFormed, TraverseChildren, Traverse, VisitBegin, Visit, VisitEnd;
    PlainShape(g, v, cx, s, n);
    if GoesDown(g, v, cx, s, n) && v.visit(n, true) {
      BeginTraversingDecreases(g, s, n);
      PlainOnlyVisitsAll(g, v, cx, BeginTraversing(g, s, n), Children(g, n));
      assert n !in s.traversing;
      assert s.traversing + {Canonical(g, n), n} - {Canonical(g, n), n} == s.traversing;
    }
  }

  lemma {:induction false} PlainOnlyVisitsAll(g: Graph, v: Visitor, cx: Context, s: State, children: seq<nat>)
    requires WellFormed(g) && Fits(g, s) && FlagsConsistent(g, s.traversing) && AreNodes(g, children) && v.Plain?
    ensures var t := TraverseChildren(g, v, cx, s, children).0;
            t == s.(visited := t.visited) && (v.doNotMark ==> t.visited == s.visited)
    decreases NotTraversing(g, s), 1, |children|
  {
    hide Traverse;
    if children != [] {
      PlainOnlyVisits(g, v, cx, s, children[0]);
      PlainOnlyVisitsAll(g, v, cx, Traverse(g, v, cx, s, children[0]).0, children[1..]);
    }
  }
}
