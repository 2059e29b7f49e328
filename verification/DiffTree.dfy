/** The diff nodes, their context and the visitors as the program has them: state that is updated in place
    while a graph is traversed.  Every operation is proved against its counterpart on values. */
module DiffTrees {
  import opened DiffGraph
  import Propagation = PropagationPass
  import Suppression = SuppressionPass
  import Redundancy = RedundancyPass
  import Exact = RedundancyExact

  class DiffTree {
    const g: Graph
    const allowed: Categories
    const showRedundantChanges: bool
    var forbidVisitingTwice: bool
    var category: seq<Categories>
    var localCategory: seq<Categories>
    var traversing: set<nat>
    var visited: set<nat>
    var skipChildren: bool
    var skippedChildren: bool

    /** A finished graph, of which nothing has been categorized beyond the changes of each node itself. */
    constructor (g: Graph, allowed: Categories, showRedundantChanges: bool, localCategory: seq<Categories>)
      requires WellFormed(g) && |localCategory| == |g|
      ensures Valid() && this.g == g && this.allowed == allowed && this.showRedundantChanges == showRedundantChanges
      ensures Value() == State(localCategory, localCategory, {}, {}, false, false) && !forbidVisitingTwice
    {
      this.g, this.allowed, this.showRedundantChanges := g, allowed, showRedundantChanges;
      category, this.localCategory, traversing, visited := localCategory, localCategory, {}, {};
      forbidVisitingTwice, skipChildren, skippedChildren := false, false, false;
    }

    function Value(): State
      reads this
    {
      State(category, localCategory, traversing, visited, skipChildren, skippedChildren)
    }

    function Cx(): Context
      reads this
    {
      Context(allowed, showRedundantChanges, forbidVisitingTwice)
    }

    ghost predicate Valid()
      reads this
    {
      WellFormed(g) && Fits(g, Value()) && FlagsConsistent(g, traversing)
    }

    // ----- The flags of a node

    predicate IsTraversing(n: nat)
      requires Valid() && IsNode(g, n)
      reads this
    {
      Canonical(g, n) in traversing
    }

    method BeginTraversing(n: nat)
      requires Valid() && IsNode(g, n)
      requires !IsTraversing(n)
      modifies `traversing
      ensures Valid() && Value() == DiffGraph.BeginTraversing(g, old(Value()), n)
    {
      traversing := traversing + {Canonical(g, n)};
      traversing := traversing + {n};
    }

    method EndTraversing(n: nat)
      requires Valid() && IsNode(g, n)
      requires IsTraversing(n)
      modifies `traversing
      ensures Value() == DiffGraph.EndTraversing(g, old(Value()), n)
    {
      traversing := traversing - {Canonical(g, n)};
      traversing := traversing - {n};
    }

    predicate HasBeenVisited(n: nat)
      requires Valid() && IsNode(g, n)
      reads this
    {
      Canonical(g, n) in visited
    }

    method MarkAsVisited(n: nat)
      requires Valid() && IsNode(g, n)
      modifies `visited
      ensures visited == old(visited) + {Canonical(g, n)}
    {
      visited := visited + {Canonical(g, n)};
    }

    method AddToCategory(n: nat, c: Categories)
      requires IsNode(g, n) && n < |category|
      modifies `category
      ensures Value() == DiffGraph.AddToCategory(old(Value()), n, c)
    {
      category := category[n := category[n] + c];
    }

    // ----- The visitors

    /** Look for a sibling of the same class, through function parameters. */
    method HasRedundantSibling(n: nat) returns (found: bool)
      requires Valid() && IsNode(g, n)
      ensures found <==> RedundantWithSibling(g, n)
      ensures found <==> Exact.HasTwin(g, n)
    {
      hide Linked, Exact.HasTwin;
      Exact.TwinsAreSiblings(g, n);
      found := false;
      var p := SiblingParent(g, n);
      if p >= 0 {
        var siblings := Children(g, p);
        for i := 0 to |siblings|
          invariant !found && forall j :: 0 <= j < i ==> !SiblingOfSameClass(g, n, siblings[j])
        {
          if SiblingOfSameClass(g, n, siblings[i]) {
            found := true;
            break;
          }
        }
      }
    }

    /** Mark a node that repeats what has been met, and do not look at its children; nor at those of a node that
        is not reported. */
    method MarkRepetition(n: nat)
      requires Valid() && IsNode(g, n)
      modifies `category, `skipChildren, `skippedChildren
      ensures Valid() && Value() == DiffGraph.VisitBegin(g, RedundancyMarking, Cx(), old(Value()), n)
      ensures var again := Canonical(g, n) in visited + traversing;
              category == if Exact.IsRepetition(g, Cx(), old(category), n, again)
                          then old(category)[n := old(category)[n] + {Redundant}] else old(category)
    {
      hide WellFormed, Linked, RedundantWithSibling, ToBeReported, FlagsConsistent, Exact.IsRepetition, Exact.HasTwin;
      Exact.OnSightExactly(g, Cx(), Value(), n);
      if ToBeReported(g, Cx(), Value(), n) {
        if (HasBeenVisited(n) || IsTraversing(n)) && g[n].hasChanges {
          var redundantWithSibling := HasRedundantSibling(n);
          if !redundantWithSibling && !g[n].unmarkable {
            AddToCategory(n, {Redundant});
            skipChildren, skippedChildren := true, true;
          }
        }
      } else {
        skipChildren, skippedChildren := true, true;
      }
    }

    method VisitBegin(v: Visitor, n: nat)
      requires Valid() && IsNode(g, n)
      modifies `category, `localCategory, `skipChildren, `skippedChildren
      ensures Valid() && Value() == DiffGraph.VisitBegin(g, v, Cx(), old(Value()), n)
    {
      hide WellFormed, MarkedOnSight, IsFilteredOut;
      if v.Suppression? {
        if g[n].suppressed {
          localCategory := localCategory[n := localCategory[n] + {Suppressed}];
          AddToCategory(n, {Suppressed});
        }
      } else if v.RedundancyMarking? {
        MarkRepetition(n);
      }
    }

    method Visit(v: Visitor, n: nat, pre: bool) returns (keepGoing: bool)
      requires Valid() && IsNode(g, n)
      modifies `category
      ensures Valid() && (Value(), keepGoing) == DiffGraph.Visit(g, v, old(Value()), n, pre)
    {
      keepGoing := true;
      match v
      case RedundancyClearing => category := category[n := category[n] - {Redundant}];
      case Plain(visit, _) => keepGoing := visit(n, pre);
      case _ =>
    }

    /** Propagate the categories of the children of a node to it. */
    method Propagate(n: nat)
      requires Valid() && IsNode(g, n)
      modifies `category
      ensures Valid() && Value() == PropagateChildren(g, old(Value()), n, Children(g, n), Canonical(g, n) in visited)
    {
      hide WellFormed, Linked, PropagateChild;
      var alreadyVisited := HasBeenVisited(n);
      var children := Children(g, n);
      assert children[0..] == children;
      for i := 0 to |children|
        invariant Valid()
        invariant PropagateChildren(g, old(Value()), n, children, alreadyVisited)
               == PropagateChildren(g, Value(), n, children[i..], alreadyVisited)
      {
        assert children[i..][0] == children[i] && children[i..][1..] == children[i + 1..];
        PropagateOne(n, children[i], alreadyVisited);
      }
    }

    method PropagateOne(n: nat, child: nat, alreadyVisited: bool)
      requires Valid() && IsNode(g, n) && IsNode(g, child)
      modifies `category
      ensures Valid() && Value() == PropagateChild(g, old(Value()), n, child, alreadyVisited)
    {
      var diff := if alreadyVisited then Canonical(g, child) else child;
      var c := category[diff] - {Redundant, Suppressed};
      AddToCategory(n, c);
      if !alreadyVisited {
        AddToCategory(Canonical(g, n), c);
      }
    }

    /** Suppress a node that only passes on changes, all of which are suppressed. */
    method PropagateSuppression(n: nat)
      requires Valid() && IsNode(g, n)
      modifies `category
      ensures Valid() && Value() == DiffGraph.VisitEnd(g, Visitor.Suppression, Cx(), old(Value()), n)
    {
      hide WellFormed, Linked;
      var hasNonSuppressed, hasNonEmpty, hasSuppressed := false, false, false;
      if Suppressed !in category[n] && !g[n].hasLocalChanges {
        var children := Children(g, n);
        for i := 0 to |children|
          invariant hasNonEmpty <==> exists j :: 0 <= j < i && g[children[j]].hasChanges
          invariant hasSuppressed <==> exists j ::
              0 <= j < i && g[children[j]].hasChanges && Suppressed in category[children[j]]
          invariant hasNonSuppressed <==> exists j ::
              0 <= j < i && g[children[j]].hasChanges && Suppressed !in category[children[j]]
        {
          var child := children[i];
          if g[child].hasChanges {
            hasNonEmpty := true;
            if Suppressed in category[child] {
              hasSuppressed := true;
            } else {
              hasNonSuppressed := true;
            }
          }
        }
        if hasNonEmpty && hasSuppressed && !hasNonSuppressed {
          AddToCategory(n, {Suppressed});
        }
      }
    }

    /** Look at children again; or else mark a node that has nothing to report but what its children have,
        if all of that is marked. */
    method PropagateRedundancy(n: nat)
      requires Valid() && IsNode(g, n)
      modifies `category, `skipChildren, `skippedChildren
      ensures Valid() && Value() == DiffGraph.VisitEnd(g, RedundancyMarking, Cx(), old(Value()), n)
      ensures category ==
                if !old(skippedChildren) && Redundant !in old(category)[n]
                   && Exact.HasNothingNew(g, Cx(), old(category), localCategory, old(category), n)
                then old(category)[n := old(category)[n] + {Redundant}] else old(category)
    {
      hide WellFormed, Linked, IsFilteredOut, Exact.HasNothingNew;
      Exact.AtEndExactly(g, Cx(), Value(), n);
      if skippedChildren {
        skipChildren, skippedChildren := false, false;
      } else if Redundant !in category[n] && !HasLocalChangesToBeReported(g, Cx(), Value(), n) {
        var hasNonRedundant, hasNonEmpty := false, false;
        var children := Children(g, n);
        var i := 0;
        while i < |children|
          invariant 0 <= i <= |children| && !hasNonRedundant
          invariant hasNonEmpty <==> exists j :: 0 <= j < i && g[children[j]].hasChanges
          invariant forall j :: 0 <= j < i && ToBeReported(g, Cx(), Value(), children[j]) ==>
              Redundant in category[children[j]]
        {
          if g[children[i]].hasChanges {
            hasNonEmpty := true;
            if ToBeReported(g, Cx(), Value(), children[i]) && Redundant !in category[children[i]] {
              hasNonRedundant := true;
            }
          }
          if hasNonRedundant {
            break;
          }
          i := i + 1;
        }
        if hasNonEmpty && !hasNonRedundant {
          AddToCategory(n, {Redundant});
        }
      }
    }

    method VisitEnd(v: Visitor, n: nat)
      requires Valid() && IsNode(g, n)
      modifies `category, `skipChildren, `skippedChildren
      ensures Valid() && Value() == DiffGraph.VisitEnd(g, v, Cx(), old(Value()), n)
    {
      hide WellFormed, PropagateChildren, ChangesRedundant, ChangesSuppressed, SomeChanges, HasLocalChangesToBeReported;
      if v.Propagation? {
        Propagate(n);
      } else if v.Suppression? {
        PropagateSuppression(n);
      } else if v.RedundancyMarking? {
        PropagateRedundancy(n);
      }
    }

    // ----- The traversal

    /** End the visit of a node and mark its class as visited. */
    method Leave(v: Visitor, n: nat)
      requires Valid() && IsNode(g, n)
      modifies `category, `visited, `skipChildren, `skippedChildren
      ensures Valid() && Value() == Marked(g, v, DiffGraph.VisitEnd(g, v, Cx(), old(Value()), n), n)
    {
      hide WellFormed, DiffGraph.VisitEnd;
      VisitEnd(v, n);
      if !(v.Plain? && v.doNotMark) {
        MarkAsVisited(n);
      }
    }

    /** The last part of the traversal of a node, after its children. */
    method TraverseEnd(v: Visitor, n: nat, alreadyVisited: bool) returns (keepGoing: bool)
      requires Valid() && IsNode(g, n)
      modifies `category, `visited, `skipChildren, `skippedChildren
      ensures Valid() && (Value(), keepGoing) == DiffGraph.TraverseEnd(g, v, Cx(), old(Value()), n, alreadyVisited)
    {
      hide WellFormed, DiffGraph.Visit, DiffGraph.VisitEnd, Marked;
      keepGoing := Visit(v, n, false);
      if !keepGoing || !alreadyVisited {
        Leave(v, n);
      } else {
        VisitEnd(v, n);
      }
    }

    /** Traverse a node.  That no node is ever flagged twice is what BeginTraversing requires, and that a flag
        is only taken away when it is there is what EndTraversing requires. */
    method Traverse(v: Visitor, n: nat) returns (keepGoing: bool)
      requires Valid() && IsNode(g, n)
      modifies `category, `localCategory, `traversing, `visited, `skipChildren, `skippedChildren
      ensures Valid() && traversing == old(traversing)
      ensures (Value(), keepGoing) == DiffGraph.Traverse(g, v, Cx(), old(Value()), n)
      decreases NotTraversing(g, Value()), 2
    {
      hide WellFormed, FlagsConsistent, DiffGraph.VisitBegin, DiffGraph.Visit, DiffGraph.VisitEnd,
           DiffGraph.TraverseChildren, DiffGraph.TraverseEnd, Marked;
      VisitBegin(v, n);
      var alreadyVisited := false;
      if forbidVisitingTwice && HasBeenVisited(n) {
        alreadyVisited := true;
      }
      if !alreadyVisited {
        var goOn := Visit(v, n, true);
        if !goOn {
          Leave(v, n);
          return false;
        }
      }
      if !skipChildren && !IsTraversing(n) && !alreadyVisited {
        var all := TraverseBelow(v, n);
        if !all {
          return false;
        }
      }
      keepGoing := TraverseEnd(v, n, alreadyVisited);
    }

    /** Traverse the children of a node that is flagged meanwhile.  When one of them asks to stop, the node
        is left right away. */
    method TraverseBelow(v: Visitor, n: nat) returns (all: bool)
      requires Valid() && IsNode(g, n)
      requires !IsTraversing(n)
      modifies `category, `localCategory, `traversing, `visited, `skipChildren, `skippedChildren
      ensures Valid() && traversing == old(traversing)
      ensures var (s, everything) := DiffGraph.TraverseChildren(g, v, Cx(),
          DiffGraph.BeginTraversing(g, old(Value()), n), Children(g, n));
              all == everything
              && Value() == DiffGraph.EndTraversing(g,
                  if all then s else Marked(g, v, DiffGraph.VisitEnd(g, v, Cx(), s, n), n), n)
      decreases NotTraversing(g, Value()), 1
    {
      hide WellFormed, Linked, DiffGraph.VisitEnd, DiffGraph.TraverseChildren, Marked;
      assert n !in traversing && Canonical(g, n) !in traversing;
      BeginTraversingDecreases(g, Value(), n);
      BeginTraversing(n);
      all := TraverseChildren(v, n);
      if !all {
        Leave(v, n);
      }
      EndTraversing(n);
      assert traversing == old(traversing);
    }

    /** Traverse the children of a node, up to the first one that asks to stop. */
    method TraverseChildren(v: Visitor, n: nat) returns (all: bool)
      requires Valid() && IsNode(g, n)
      modifies `category, `localCategory, `traversing, `visited, `skipChildren, `skippedChildren
      ensures Valid() && traversing == old(traversing)
      ensures (Value(), all) == DiffGraph.TraverseChildren(g, v, Cx(), old(Value()), Children(g, n))
      decreases NotTraversing(g, Value()), 3
    {
      hide WellFormed, Linked, DiffGraph.Traverse;
      var children := Children(g, n);
      assert children[0..] == children;
      for i := 0 to |children|
        invariant Valid() && traversing == old(traversing)
        invariant DiffGraph.TraverseChildren(g, v, Cx(), old(Value()), children)
               == DiffGraph.TraverseChildren(g, v, Cx(), Value(), children[i..])
      {
        assert children[i..][0] == children[i] && children[i..][1..] == children[i + 1..];
        var keepGoing := Traverse(v, children[i]);
        if !keepGoing {
          return false;
        }
      }
      return true;
    }

    // ----- The passes

    /** A new visitor looks at children, and has not skipped any. */
    method NewVisitor()
      modifies `skipChildren, `skippedChildren
      ensures !skipChildren && !skippedChildren
    {
      skipChildren, skippedChildren := false, false;
    }

    /** Propagate the categories of all nodes below a node upwards.  A node only gets a category that some
        node of a class reachable from it had, and loses none. */
    method PropagateCategories(n: nat)
      requires Valid() && IsNode(g, n)
      modifies this
      ensures Valid() && traversing == old(traversing) && forbidVisitingTwice == old(forbidVisitingTwice)
      ensures Value() == DiffGraph.Traverse(g, Visitor.Propagation, Context(allowed, showRedundantChanges, true),
                old(Value()).(visited := {}, skipChildren := false, skippedChildren := false), n).0
      ensures Propagation.OnlyInherited(g, old(category), category)
    {
      hide WellFormed, DiffGraph.Traverse, Propagation.OnlyInherited;
      NewVisitor();
      var s := forbidVisitingTwice;
      forbidVisitingTwice := true;
      visited := {};
      Propagation.OwnOnly(g, category);
      Propagation.TraverseSound(g, Cx(), category, Value(), n);
      var _ := Traverse(Visitor.Propagation, n);
      forbidVisitingTwice := s;
    }

    /** Suppress the nodes below a node that the user does not want to see.  Nodes are only ever suppressed for
        a reason. */
    method ApplySuppressions(n: nat, noSuppressions: bool)
      requires Valid() && IsNode(g, n)
      modifies this
      ensures Valid() && traversing == old(traversing) && forbidVisitingTwice == old(forbidVisitingTwice)
      ensures Value() == if noSuppressions then old(Value()) else
                DiffGraph.Traverse(g, Visitor.Suppression, Context(allowed, showRedundantChanges, false),
                  old(Value()).(skipChildren := false, skippedChildren := false), n).0
      ensures old(Suppression.AllJustified(g, Value())) ==>
                Suppression.AllJustified(g, Value()) && Suppression.OnlySuppresses(old(category), category)
    {
      hide WellFormed, DiffGraph.Traverse, Suppression.AllJustified, Suppression.OnlySuppresses;
      Suppression.SameCategories(g, Value(), Value());
      if !noSuppressions {
        ghost var before := Value();
        NewVisitor();
        var s := forbidVisitingTwice;
        forbidVisitingTwice := false;
        Suppression.SameCategories(g, before, Value());
        if Suppression.AllJustified(g, Value()) {
          Suppression.TraverseJustified(g, Cx(), Value(), n);
        }
        var _ := Traverse(Visitor.Suppression, n);
        forbidVisitingTwice := s;
      }
    }

    /** Mark the nodes below a node that have been seen elsewhere, unless the user wants to see all of them. */
    method CategorizeRedundancy(n: nat)
      requires Valid() && IsNode(g, n)
      modifies this
      ensures Valid() && traversing == old(traversing) && forbidVisitingTwice == old(forbidVisitingTwice)
      ensures Value() == if showRedundantChanges then old(Value()) else
                DiffGraph.Traverse(g, RedundancyMarking, Context(allowed, showRedundantChanges, false),
                  old(Value()).(skipChildren := false, skippedChildren := false), n).0
      ensures !showRedundantChanges ==> Redundancy.NothingSkipped(Value())
    {
      hide WellFormed, DiffGraph.Traverse;
      if showRedundantChanges {
        return;
      }
      NewVisitor();
      var s := forbidVisitingTwice;
      forbidVisitingTwice := false;
      Redundancy.TraverseRestoresVisitor(g, Cx(), Value(), n);
      var _ := Traverse(RedundancyMarking, n);
      forbidVisitingTwice := s;
    }

    /** Mark nodes below all the changed functions and variables.  When their nodes are a forest, the first node
        that is met of every class is kept. */
    method CategorizeRedundantChangedSubNodes(changed: seq<nat>, ghost rank: nat -> nat)
      requires Valid() && AreNodes(g, changed)
      modifies this
      ensures Valid() && traversing == old(traversing) && forbidVisitingTwice == old(forbidVisitingTwice)
      ensures category == if showRedundantChanges then old(category) else
                DiffGraph.TraverseChildren(g, RedundancyMarking, Context(allowed, showRedundantChanges, false),
                  old(Value()).(visited := {}, skipChildren := false, skippedChildren := false), changed).0.category
      ensures !showRedundantChanges && Redundancy.IsForest(g, rank, changed) && old(traversing) == {}
              && (forall y :: IsNode(g, y) ==> Redundant !in old(category)[y]) ==>
                Redundancy.FirstsKept(g, Context(allowed, showRedundantChanges, false),
                  old(Value()).(visited := {}, skipChildren := false, skippedChildren := false), Value(), changed)
      ensures !showRedundantChanges && Redundancy.IsForest(g, rank, changed) && old(traversing) == {}
              && (forall y :: IsNode(g, y) ==> Redundant !in old(category)[y]) ==>
                Exact.MarksExactly(g, Context(allowed, showRedundantChanges, false), old(Value()), category, changed)
    {
      hide WellFormed, Linked, DiffGraph.Traverse, Redundancy.FirstsKept, Redundancy.IsForest, Exact.MarksExactly;
      visited := {};
      NewVisitor();
      ghost var cx, start := Context(allowed, showRedundantChanges, false), Value();
      assert changed[0..] == changed;
      for i := 0 to |changed|
        invariant Valid() && traversing == old(traversing) && forbidVisitingTwice == old(forbidVisitingTwice)
        invariant Redundancy.NothingSkipped(Value())
        invariant showRedundantChanges ==> category == old(category)
        invariant showRedundantChanges || DiffGraph.TraverseChildren(g, RedundancyMarking, cx, start, changed)
                                       == DiffGraph.TraverseChildren(g, RedundancyMarking, cx, Value(), changed[i..])
      {
        assert changed[i..][0] == changed[i] && changed[i..][1..] == changed[i + 1..];
        TraverseContinues(g, RedundancyMarking, cx, Value(), changed[i]);
        CategorizeRedundancy(changed[i]);
      }
      if !showRedundantChanges && Redundancy.IsForest(g, rank, changed) && old(traversing) == {}
         && (forall y :: IsNode(g, y) ==> Redundant !in old(category)[y]) {
        Redundancy.MarkingKeepsFirsts(g, rank, cx, start, changed);
        Exact.PassMarksAll(g, rank, cx, start, changed);
        Exact.OnlyCategoriesMatter(g, cx, start, old(Value()), category, changed);
      }
    }

    /** Take the marks away from the nodes below a node, and forget all visits. */
    method ClearRedundancyCategorization(n: nat)
      requires Valid() && IsNode(g, n)
      modifies this
      ensures Valid() && traversing == old(traversing) && forbidVisitingTwice == old(forbidVisitingTwice)
          && visited == {}
      ensures Redundancy.AllCleared(g, traversing, [n], old(category), category)
    {
      hide WellFormed, DiffGraph.Traverse, Redundancy.AllCleared;
      NewVisitor();
      var s := forbidVisitingTwice;
      forbidVisitingTwice := false;
      Redundancy.TraverseClearsAll(g, Cx(), Value(), n);
      var _ := Traverse(RedundancyClearing, n);
      forbidVisitingTwice := s;
      visited := {};
    }

    /** Take the marks away from all nodes below the changed functions and variables. */
    method ClearRedundancyOfChanges(changed: seq<nat>)
      requires Valid() && AreNodes(g, changed)
      modifies this
      ensures Valid() && traversing == old(traversing) && forbidVisitingTwice == old(forbidVisitingTwice)
      ensures Redundancy.AllCleared(g, traversing, changed, old(category), category)
    {
      hide WellFormed, Redundancy.AllCleared;
      Redundancy.NoRootsCleared(g, traversing, category);
      for i := 0 to |changed|
        invariant Valid() && traversing == old(traversing) && forbidVisitingTwice == old(forbidVisitingTwice)
        invariant Redundancy.AllCleared(g, traversing, changed[..i], old(category), category)
      {
        ghost var before := category;
        ClearRedundancyCategorization(changed[i]);
        Redundancy.ClearOneMore(g, traversing, changed, i, old(category), before, category);
      }
      assert changed[..|changed|] == changed;
    }
  }
}
