/** The registry of canonical diff nodes: one node stands for all those of the same two subjects. */
module CanonicalDiffs {
  import opened Options

  /** The two subjects of a diff. */
  type Pair<S> = (S, S)

  /** What the registry is made of: the two subjects of each diff node, the canonical nodes of those that
      have one, the registered node for two subjects, and all nodes that have been registered. */
  datatype Registry<S(==)> = Registry(
    subjects: seq<Pair<S>>,
    canonical: map<nat, nat>,
    diffs: map<Pair<S>, nat>,
    canonicalDiffs: seq<nat>)

  /** From classes that are only declared to their definitions, which are not looked through any more. */
  function Resolve<S>(look: S -> S, p: Pair<S>): Pair<S> { (look(p.0), look(p.1)) }

  ghost predicate LooksThrough<S(!new)>(look: S -> S) {
    forall s :: look(look(s)) == look(s)
  }

  predicate IsCanonical<S(==)>(r: Registry<S>, c: nat) {
    c < |r.subjects| && c in r.canonical && r.canonical[c] == c
  }

  /** The canonical node of n is the one registered for its subjects. */
  predicate NodeConsistent<S(==)>(r: Registry<S>, n: nat) {
    n in r.canonical ==> n < |r.subjects| && r.subjects[n] in r.diffs && r.canonical[n] == r.diffs[r.subjects[n]]
  }

  /** Whatever is registered is its own canonical node, with just these subjects or their definitions. */
  predicate PairConsistent<S(==)>(look: S -> S, r: Registry<S>, p: Pair<S>) {
    p in r.diffs ==>
      var c := r.diffs[p];
      IsCanonical(r, c) && (r.subjects[c] == p || r.subjects[c] == Resolve(look, p)) && c in r.canonicalDiffs
  }

  ghost predicate Consistent<S(!new)>(look: S -> S, r: Registry<S>) {
    && (forall n :: NodeConsistent(r, n))
    && (forall p :: PairConsistent(look, r, p))
  }

  // ----- The operations, on values

  function Created<S(==)>(r: Registry<S>, p: Pair<S>): Registry<S> {
    r.(subjects := r.subjects + [p])
  }

  function Registered<S(==)>(r: Registry<S>, p: Pair<S>, d: nat): Registry<S> {
    if p in r.diffs then r else r.(diffs := r.diffs[p := d], canonicalDiffs := r.canonicalDiffs + [d])
  }

  function Initialized<S(==)>(r: Registry<S>, d: nat): Registry<S>
    requires d < |r.subjects|
  {
    if d in r.canonical then r
    else
      var q := Registered(r, r.subjects[d], d);
      q.(canonical := r.canonical[d := q.diffs[r.subjects[d]]])
  }

  function ClassesCompared<S(==)>(look: S -> S, r: Registry<S>, p: Pair<S>): Registry<S> {
    var q := Initialized(Created(r, Resolve(look, p)), |r.subjects|);
    Registered(q, p, q.canonical[|r.subjects|])
  }

  lemma CreatedConsistent<S(!new)>(look: S -> S, r: Registry<S>, p: Pair<S>)
    requires LooksThrough(look) && Consistent(look, r)
    ensures Consistent(look, Created(r, p)) && |r.subjects| !in r.canonical
  {
    var q := Created(r, p);
    assert NodeConsistent(r, |r.subjects|);
    forall n
      ensures NodeConsistent(q, n)
    {
      assert NodeConsistent(r, n);
    }
    forall p'
      ensures PairConsistent(look, q, p')
    {
      assert PairConsistent(look, r, p');
    }
  }

  lemma InitializedConsistent<S(!new)>(look: S -> S, r: Registry<S>, d: nat)
    requires Consistent(look, r) && d < |r.subjects|
    ensures Consistent(look, Initialized(r, d))
    ensures d in Initialized(r, d).canonical
    ensures var q := Initialized(r, d);
            forall n :: n in r.canonical ==> n in q.canonical && q.canonical[n] == r.canonical[n]
  {
    var q := Initialized(r, d);
    assert PairConsistent(look, r, r.subjects[d]);
    forall n
      ensures NodeConsistent(q, n)
    {
      assert NodeConsistent(r, n);
    }
    forall p
      ensures PairConsistent(look, q, p)
    {
      assert PairConsistent(look, r, p);
    }
  }

  lemma ClassesComparedConsistent<S(!new)>(look: S -> S, r: Registry<S>, p: Pair<S>)
    requires LooksThrough(look) && Consistent(look, r)
    ensures var q := ClassesCompared(look, r, p);
            && Consistent(look, q) && |r.subjects| in q.canonical && p in q.diffs
            && (forall n :: n in r.canonical ==> n in q.canonical && q.canonical[n] == r.canonical[n])
  {
    var d := |r.subjects|;
    CreatedConsistent(look, r, Resolve(look, p));
    var s := Initialized(Created(r, Resolve(look, p)), d);
    InitializedConsistent(look, Created(r, Resolve(look, p)), d);
    var q := ClassesCompared(look, r, p);
    assert NodeConsistent(s, d) && s.subjects[d] == Resolve(look, p);
    forall p'
      ensures PairConsistent(look, q, p')
    {
      assert PairConsistent(look, s, p');
      if p' == p {
        AliasConsistent(look, s, p, d);
      }
    }
    forall n
      ensures NodeConsistent(q, n)
    {
      assert NodeConsistent(s, n);
    }
  }

  /** The classes of a node may be registered under its canonical node. */
  lemma AliasConsistent<S(!new)>(look: S -> S, s: Registry<S>, p: Pair<S>, d: nat)
    requires Consistent(look, s) && d < |s.subjects| && d in s.canonical && s.subjects[d] == Resolve(look, p)
    requires LooksThrough(look)
    ensures PairConsistent(look, Registered(s, p, s.canonical[d]), p)
  {
    assert NodeConsistent(s, d);
    assert PairConsistent(look, s, Resolve(look, p)) && PairConsistent(look, s, p);
  }

  // ----- Any number of operations, one after the other

  /** A diff is computed and its node initialised, or this is done for two classes, or a node that exists is
      initialised again. */
  datatype Step<S> = ComputeDiff(p: Pair<S>) | ComputeClassDiff(p: Pair<S>) | InitializeAgain(d: nat)

  function Stepped<S(==)>(look: S -> S, r: Registry<S>, step: Step<S>): Registry<S> {
    match step
    case ComputeDiff(p) => Initialized(Created(r, p), |r.subjects|)
    case ComputeClassDiff(p) => ClassesCompared(look, r, p)
    case InitializeAgain(d) => if d < |r.subjects| then Initialized(r, d) else r
  }

  function Run<S(==)>(look: S -> S, r: Registry<S>, steps: seq<Step<S>>): Registry<S>
    decreases |steps|
  {
    if steps == [] then r else Stepped(look, Run(look, r, steps[..|steps| - 1]), steps[|steps| - 1])
  }

  /** Canonical nodes never change. */
  ghost predicate Keeps<S>(r: Registry<S>, q: Registry<S>) {
    forall n :: n in r.canonical ==> n in q.canonical && q.canonical[n] == r.canonical[n]
  }

  lemma SteppedConsistent<S(!new)>(look: S -> S, r: Registry<S>, step: Step<S>)
    requires LooksThrough(look) && Consistent(look, r)
    ensures Consistent(look, Stepped(look, r, step)) && Keeps(r, Stepped(look, r, step))
  {
    hide Consistent, ClassesCompared, Initialized;
    match step
    case ComputeDiff(p) =>
      CreatedConsistent(look, r, p);
      InitializedConsistent(look, Created(r, p), |r.subjects|);
    case ComputeClassDiff(p) => ClassesComparedConsistent(look, r, p);
    case InitializeAgain(d) =>
      if d < |r.subjects| {
        InitializedConsistent(look, r, d);
      }
  }

  lemma {:induction false} RunConsistent<S(!new)>(look: S -> S, r: Registry<S>, steps: seq<Step<S>>)
    requires LooksThrough(look) && Consistent(look, r)
    ensures Consistent(look, Run(look, r, steps)) && Keeps(r, Run(look, r, steps))
    decreases |steps|
  {
    hide Consistent, Stepped;
    if steps != [] {
      var n := |steps| - 1;
      RunConsistent(look, r, steps[..n]);
      SteppedConsistent(look, Run(look, r, steps[..n]), steps[n]);
    }
  }

  ghost function Empty<S>(): Registry<S> { Registry([], map[], map[], []) }

  /** The canonical nodes tell nodes apart as their subjects do: those of the same subjects have the same
      canonical node, and those with the same canonical node are about the same definitions. */
  lemma CanonicalIffSubjects<S(!new)>(look: S -> S, r: Registry<S>, m: nat, n: nat)
    requires Consistent(look, r) && m in r.canonical && n in r.canonical
    ensures m < |r.subjects| && n < |r.subjects| && IsCanonical(r, r.canonical[m])
    ensures r.subjects[m] == r.subjects[n] ==> r.canonical[m] == r.canonical[n]
    ensures LooksThrough(look) && r.canonical[m] == r.canonical[n] ==>
              Resolve(look, r.subjects[m]) == Resolve(look, r.subjects[n])
  {
    assert NodeConsistent(r, m) && NodeConsistent(r, n);
    assert PairConsistent(look, r, r.subjects[m]) && PairConsistent(look, r, r.subjects[n]);
  }

  // ----- When canonical nodes tell all nodes apart

  /** Two nodes have the same canonical node if and only if they have the same two subjects. */
  ghost predicate TellsApart<S>(r: Registry<S>) {
    forall m, n :: m in r.canonical && n in r.canonical && m < |r.subjects| && n < |r.subjects| ==>
      (r.canonical[m] == r.canonical[n] <==> r.subjects[m] == r.subjects[n])
  }

  ghost predicate Diffed<S>(steps: seq<Step<S>>, p: Pair<S>) {
    exists k :: 0 <= k < |steps| && steps[k] == ComputeDiff(p)
  }

  /** The diff of two classes that are not both definitions was computed while there was no node about just
      these classes. */
  ghost predicate Aliased<S>(look: S -> S, steps: seq<Step<S>>, p: Pair<S>) {
    Resolve(look, p) != p
    && exists i :: 0 <= i < |steps| && steps[i] == ComputeClassDiff(p) && !Diffed(steps[..i], p)
  }

  /** Later on a node about just these classes was made. */
  ghost predicate Clashes<S>(look: S -> S, steps: seq<Step<S>>) {
    exists j :: 0 <= j < |steps| && steps[j].ComputeDiff? && Aliased(look, steps[..j], steps[j].p)
  }

  ghost predicate HasNode<S>(r: Registry<S>, p: Pair<S>) {
    exists n: nat :: n < |r.subjects| && r.subjects[n] == p && n in r.canonical
  }

  /** Where a node comes from, and that it is initialised. */
  ghost predicate NodeHistory<S>(look: S -> S, r: Registry<S>, steps: seq<Step<S>>, n: nat) {
    n < |r.subjects| ==>
      n in r.canonical && (Diffed(steps, r.subjects[n]) || Resolve(look, r.subjects[n]) == r.subjects[n])
  }

  /** Where the registered node of two subjects comes from, and what steps about them have done. */
  ghost predicate PairHistory<S>(look: S -> S, r: Registry<S>, steps: seq<Step<S>>, p: Pair<S>) {
    && (p in r.diffs && !Aliased(look, steps, p) ==> r.diffs[p] < |r.subjects| && r.subjects[r.diffs[p]] == p)
    && (Diffed(steps, p) ==> HasNode(r, p))
    && (Aliased(look, steps, p) ==>
          && p in r.diffs && Resolve(look, p) in r.diffs && r.diffs[p] == r.diffs[Resolve(look, p)]
          && HasNode(r, Resolve(look, p)))
  }

  ghost predicate History<S(!new)>(look: S -> S, r: Registry<S>, steps: seq<Step<S>>) {
    && Consistent(look, r)
    && (forall n :: NodeHistory(look, r, steps, n))
    && (forall p :: PairHistory(look, r, steps, p))
  }

  /** One step more adds to what has been diffed and aliased. */
  lemma HistoryGrows<S(!new)>(look: S -> S, steps: seq<Step<S>>, n: nat, p: Pair<S>)
    requires |steps| == n + 1
    ensures Diffed(steps, p) <==> Diffed(steps[..n], p) || steps[n] == ComputeDiff(p)
    ensures Aliased(look, steps, p) <==>
              || Aliased(look, steps[..n], p)
              || (Resolve(look, p) != p && steps[n] == ComputeClassDiff(p) && !Diffed(steps[..n], p))
  {
    var before := steps[..n];
    assert forall i :: 0 <= i < n ==> before[i] == steps[i] && before[..i] == steps[..i];
    if Diffed(before, p) {
      var k :| 0 <= k < n && before[k] == ComputeDiff(p);
      assert steps[k] == ComputeDiff(p);
    }
    if Aliased(look, before, p) {
      var i :| 0 <= i < n && before[i] == ComputeClassDiff(p) && !Diffed(before[..i], p);
      assert steps[i] == ComputeClassDiff(p) && !Diffed(steps[..i], p);
    }
  }

  /** Registered nodes are never replaced. */
  lemma SteppedKeeps<S(!new)>(look: S -> S, r: Registry<S>, step: Step<S>)
    requires LooksThrough(look) && Consistent(look, r)
    ensures var q := Stepped(look, r, step);
            && r.subjects <= q.subjects
            && (forall p :: p in r.diffs ==> p in q.diffs && q.diffs[p] == r.diffs[p])
            && (forall p :: HasNode(r, p) ==> HasNode(q, p))
  {
    hide Consistent, ClassesCompared, Initialized;
    SteppedConsistent(look, r, step);
    SteppedDiffs(look, r, step);
    var q := Stepped(look, r, step);
    forall p | HasNode(r, p)
      ensures HasNode(q, p)
    {
      var n: nat :| n < |r.subjects| && r.subjects[n] == p && n in r.canonical;
      assert n < |q.subjects| && q.subjects[n] == p && n in q.canonical;
    }
  }

  lemma SteppedDiffs<S(!new)>(look: S -> S, r: Registry<S>, step: Step<S>)
    ensures var q := Stepped(look, r, step);
            && r.subjects <= q.subjects
            && (forall p :: p in r.diffs ==> p in q.diffs && q.diffs[p] == r.diffs[p])
  {
  }

  /** What the two kinds of diffs add. */
  lemma SteppedAdds<S(!new)>(look: S -> S, r: Registry<S>, step: Step<S>)
    requires LooksThrough(look) && Consistent(look, r) && !step.InitializeAgain?
    ensures var q, d := Stepped(look, r, step), |r.subjects|;
            var p := if step.ComputeDiff? then step.p else Resolve(look, step.p);
            && q.subjects == r.subjects + [p] && d in q.canonical && p in q.diffs && (p !in r.diffs ==> q.diffs[p] == d)
            && (forall p' :: p' in q.diffs && p' !in r.diffs ==>
                  (p' == p && q.diffs[p'] == d) || (step == ComputeClassDiff(p') && q.diffs[p'] == q.diffs[p]))
            && (step.ComputeClassDiff? ==> step.p in q.diffs)
  {
    CreatedConsistent(look, r, if step.ComputeDiff? then step.p else Resolve(look, step.p));
  }

  lemma NodeHistoryStep<S(!new)>(look: S -> S, r: Registry<S>, steps: seq<Step<S>>, k: nat, n: nat)
    requires LooksThrough(look) && |steps| == k + 1 && History(look, r, steps[..k])
    ensures NodeHistory(look, Stepped(look, r, steps[k]), steps, n)
  {
    hide Consistent, Diffed, PairHistory, Aliased;
    var q := Stepped(look, r, steps[k]);
    SteppedDiffs(look, r, steps[k]);
    SteppedConsistent(look, r, steps[k]);
    if n < |q.subjects| {
      HistoryGrows(look, steps, k, q.subjects[n]);
      if n < |r.subjects| {
        assert NodeHistory(look, r, steps[..k], n);
      } else if !steps[k].InitializeAgain? {
        SteppedAdds(look, r, steps[k]);
      }
    }
  }

  /** A node about p was made by a diff of p, unless p is about definitions. */
  lemma NodeMeansRegistered<S(!new)>(look: S -> S, r: Registry<S>, p: Pair<S>)
    requires Consistent(look, r) && HasNode(r, p)
    ensures p in r.diffs
  {
    var n: nat :| n < |r.subjects| && r.subjects[n] == p && n in r.canonical;
    assert NodeConsistent(r, n);
  }

  /** A class pair that is aliased anew has either not been registered, or has been aliased before. */
  lemma AliasedAnew<S(!new)>(look: S -> S, r: Registry<S>, steps: seq<Step<S>>, p: Pair<S>)
    requires History(look, r, steps) && Resolve(look, p) != p && !Diffed(steps, p) && p in r.diffs
    ensures Aliased(look, steps, p)
  {
    hide Consistent, Diffed, Aliased;
    assert NodeHistory(look, r, steps, r.diffs[p]);
    assert PairHistory(look, r, steps, p);
  }

  lemma PairHistoryStep<S(!new)>(look: S -> S, r: Registry<S>, steps: seq<Step<S>>, k: nat, p: Pair<S>)
    requires LooksThrough(look) && |steps| == k + 1 && History(look, r, steps[..k])
    ensures PairHistory(look, Stepped(look, r, steps[k]), steps, p)
  {
    hide Consistent, Diffed, Aliased, HasNode, History, Stepped;
    var before, step := steps[..k], steps[k];
    var q := Stepped(look, r, step);
    HistoryParts(look, r, before, p);
    HistoryGrows(look, steps, k, p);
    SteppedKeeps(look, r, step);
    if step.InitializeAgain? {
      AgainAddsNothing(look, r, step);
    } else {
      SteppedAdds(look, r, step);
      var d := |r.subjects|;
      NewNode(q, d);
      if HasNode(r, p) {
        NodeMeansRegistered(look, r, p);
      }
      if step == ComputeClassDiff(p) && Resolve(look, p) != p && !Diffed(before, p) && p in r.diffs {
        AliasedAnew(look, r, before, p);
      }
    }
  }

  lemma HistoryParts<S(!new)>(look: S -> S, r: Registry<S>, steps: seq<Step<S>>, p: Pair<S>)
    requires History(look, r, steps)
    ensures Consistent(look, r) && PairHistory(look, r, steps, p)
    ensures forall n: nat :: n < |r.subjects| ==> n in r.canonical
  {
    hide Consistent, PairHistory;
    forall n: nat | n < |r.subjects|
      ensures n in r.canonical
    {
      assert NodeHistory(look, r, steps, n);
    }
  }

  lemma NewNode<S>(r: Registry<S>, d: nat)
    requires d < |r.subjects| && d in r.canonical
    ensures HasNode(r, r.subjects[d])
  {
  }

  lemma AgainAddsNothing<S(!new)>(look: S -> S, r: Registry<S>, step: Step<S>)
    requires Consistent(look, r) && step.InitializeAgain?
    requires forall n: nat :: n < |r.subjects| ==> n in r.canonical
    ensures Stepped(look, r, step) == r
  {
  }

  lemma {:induction false} RunHistory<S(!new)>(look: S -> S, steps: seq<Step<S>>)
    requires LooksThrough(look)
    ensures History(look, Run(look, Empty(), steps), steps)
    decreases |steps|
  {
    hide Consistent, Diffed, Aliased, HasNode, Stepped, NodeHistory, PairHistory;
    if steps == [] {
      EmptyHistory(look);
    } else {
      var k := |steps| - 1;
      var r := Run(look, Empty(), steps[..k]);
      RunHistory(look, steps[..k]);
      SteppedConsistent(look, r, steps[k]);
      forall n: nat
        ensures NodeHistory(look, Stepped(look, r, steps[k]), steps, n)
      {
        NodeHistoryStep(look, r, steps, k, n);
      }
      forall p
        ensures PairHistory(look, Stepped(look, r, steps[k]), steps, p)
      {
        PairHistoryStep(look, r, steps, k, p);
      }
    }
  }

  lemma EmptyHistory<S(!new)>(look: S -> S)
    ensures History(look, Empty(), [])
  {
  }

  /** A node about classes that have been aliased was made after that. */
  lemma AliasedNodeClashes<S(!new)>(look: S -> S, r: Registry<S>, steps: seq<Step<S>>, n: nat)
    requires History(look, r, steps) && n < |r.subjects| && Aliased(look, steps, r.subjects[n])
    ensures Clashes(look, steps)
  {
    hide Consistent, PairHistory;
    var p := r.subjects[n];
    assert NodeHistory(look, r, steps, n);
    var j :| 0 <= j < |steps| && steps[j] == ComputeDiff(p);
    var i :| 0 <= i < |steps| && steps[i] == ComputeClassDiff(p) && !Diffed(steps[..i], p);
    assert forall k :: 0 <= k < i ==> steps[..i][k] == steps[k];
    assert steps[..j][i] == ComputeClassDiff(p) && steps[..j][..i] == steps[..i];
    assert Aliased(look, steps[..j], steps[j].p);
  }

  /** After a run without a clash the canonical nodes tell all nodes apart. */
  lemma NoClashTellsApart<S(!new)>(look: S -> S, r: Registry<S>, steps: seq<Step<S>>, m: nat, n: nat)
    requires History(look, r, steps) && !Clashes(look, steps)
    requires m < |r.subjects| && n < |r.subjects|
    ensures m in r.canonical && n in r.canonical
    ensures r.canonical[m] == r.canonical[n] <==> r.subjects[m] == r.subjects[n]
  {
    hide Diffed, Aliased, Clashes, HasNode;
    forall x: nat | x < |r.subjects|
      ensures x in r.canonical && r.canonical[x] < |r.subjects| && r.subjects[r.canonical[x]] == r.subjects[x]
      ensures r.subjects[x] in r.diffs && r.canonical[x] == r.diffs[r.subjects[x]]
    {
      assert NodeHistory(look, r, steps, x) && NodeConsistent(r, x);
      assert PairHistory(look, r, steps, r.subjects[x]);
      if Aliased(look, steps, r.subjects[x]) {
        AliasedNodeClashes(look, r, steps, x);
      }
    }
  }

  /** After a run with a clash they do not. */
  lemma ClashConfuses<S(!new)>(look: S -> S, r: Registry<S>, steps: seq<Step<S>>) returns (m: nat, n: nat)
    requires History(look, r, steps) && Clashes(look, steps)
    ensures m < |r.subjects| && n < |r.subjects| && m in r.canonical && n in r.canonical
    ensures r.canonical[m] == r.canonical[n] && r.subjects[m] != r.subjects[n]
  {
    var j :| 0 <= j < |steps| && steps[j].ComputeDiff? && Aliased(look, steps[..j], steps[j].p);
    var p := steps[j].p;
    var i :| 0 <= i < j && steps[..j][i] == ComputeClassDiff(p) && !Diffed(steps[..j][..i], p);
    assert steps[i] == ComputeClassDiff(p) && steps[..j][..i] == steps[..i];
    assert Aliased(look, steps, p) && Diffed(steps, p);
    assert PairHistory(look, r, steps, p);
    m :| m < |r.subjects| && r.subjects[m] == p && m in r.canonical;
    n :| n < |r.subjects| && r.subjects[n] == Resolve(look, p) && n in r.canonical;
    assert NodeConsistent(r, m) && NodeConsistent(r, n);
  }

  /** After any sequence of operations, the canonical nodes tell all nodes apart if and only if no diff of two
      classes that are not both definitions was followed by a diff of another kind about just these classes,
      without having been preceded by one.  Every canonical node is its own canonical node. */
  lemma RunTellsApart<S(!new)>(look: S -> S, steps: seq<Step<S>>)
    requires LooksThrough(look)
    ensures var r := Run(look, Empty(), steps);
            && (TellsApart(r) <==> !Clashes(look, steps))
            && (forall n :: n in r.canonical ==> IsCanonical(r, r.canonical[n]))
  {
    hide Run, Consistent, Clashes, NodeHistory, PairHistory;
    var r := Run(look, Empty(), steps);
    RunHistory(look, steps);
    forall n | n in r.canonical
      ensures IsCanonical(r, r.canonical[n])
    {
      CanonicalIffSubjects(look, r, n, n);
    }
    if Clashes(look, steps) {
      var m, n := ClashConfuses(look, r, steps);
    } else {
      forall m, n | m in r.canonical && n in r.canonical && m < |r.subjects| && n < |r.subjects|
        ensures r.canonical[m] == r.canonical[n] <==> r.subjects[m] == r.subjects[n]
      {
        NoClashTellsApart(look, r, steps, m, n);
      }
    }
  }

  /** In the program, two classes are only ever compared as classes: the other diffs are about entities of
      other kinds, or of distinct kinds. */
  ghost predicate OfTheProgram<S>(isClass: S -> bool, steps: seq<Step<S>>) {
    forall k :: 0 <= k < |steps| ==>
      && (steps[k].ComputeDiff? ==> !(isClass(steps[k].p.0) && isClass(steps[k].p.1)))
      && (steps[k].ComputeClassDiff? ==> isClass(steps[k].p.0) && isClass(steps[k].p.1))
  }

  /** So in every run of the program two nodes have the same canonical node if and only if they have the same
      two subjects. */
  lemma ProgramTellsApart<S(!new)>(look: S -> S, isClass: S -> bool, steps: seq<Step<S>>)
    requires LooksThrough(look) && OfTheProgram(isClass, steps)
    ensures TellsApart(Run(look, Empty(), steps))
  {
    hide Run, TellsApart;
    RunTellsApart(look, steps);
  }

  // ----- What the diffs of two classes are about

  /** The node that step k makes. */
  ghost function NodeOfStep<S>(look: S -> S, steps: seq<Step<S>>, k: nat): nat
    requires k < |steps| && !steps[k].InitializeAgain?
  {
    |Run(look, Empty(), steps[..k]).subjects|
  }

  lemma {:induction false} RunSubjectsGrow<S(!new)>(look: S -> S, steps: seq<Step<S>>, k: nat)
    requires k <= |steps|
    ensures Run(look, Empty(), steps[..k]).subjects <= Run(look, Empty(), steps).subjects
    decreases |steps|
  {
    hide Stepped;
    if k == |steps| {
      assert steps[..k] == steps;
    } else {
      var n := |steps| - 1;
      RunSubjectsGrow(look, steps[..n], k);
      assert steps[..n][..k] == steps[..k];
      SteppedDiffs(look, Run(look, Empty(), steps[..n]), steps[n]);
    }
  }

  /** Whatever comes before and after it, the diff of two classes makes a node about the two definitions, not
      about classes that are only declared, and that node has a canonical node. */
  lemma ClassNodeOfRun<S(!new)>(look: S -> S, steps: seq<Step<S>>, k: nat)
    requires LooksThrough(look) && k < |steps| && steps[k].ComputeClassDiff?
    ensures var r, n, p := Run(look, Empty(), steps), NodeOfStep(look, steps, k), steps[k].p;
            && n < |r.subjects| && r.subjects[n] == (look(p.0), look(p.1)) && n in r.canonical
            && look(r.subjects[n].0) == r.subjects[n].0 && look(r.subjects[n].1) == r.subjects[n].1
  {
    hide Run, Stepped, Consistent, NodeHistory, PairHistory;
    var q, n := Run(look, Empty(), steps[..k]), NodeOfStep(look, steps, k);
    RunHistory(look, steps[..k]);
    RunHistory(look, steps);
    RunStep(look, steps[..k + 1], k);
    assert steps[..k + 1][..k] == steps[..k];
    SteppedAdds(look, q, steps[k]);
    RunSubjectsGrow(look, steps, k + 1);
    assert NodeHistory(look, Run(look, Empty(), steps), steps, n);
    InitializedInHistory(look, Run(look, Empty(), steps), steps, n);
  }

  lemma RunStep<S(!new)>(look: S -> S, steps: seq<Step<S>>, k: nat)
    requires |steps| == k + 1
    ensures Run(look, Empty(), steps) == Stepped(look, Run(look, Empty(), steps[..k]), steps[k])
  {
  }

  lemma InitializedInHistory<S(!new)>(look: S -> S, r: Registry<S>, steps: seq<Step<S>>, n: nat)
    requires NodeHistory(look, r, steps, n) && n < |r.subjects|
    ensures n in r.canonical
  {
  }

  /** Two diffs of classes with the same definitions, on either side, are one change: their nodes have the same
      canonical node. */
  lemma EqualDefinitionsShareCanonical<S(!new)>(look: S -> S, steps: seq<Step<S>>, k: nat, l: nat)
    requires LooksThrough(look) && k < |steps| && l < |steps|
    requires steps[k].ComputeClassDiff? && steps[l].ComputeClassDiff?
    requires look(steps[k].p.0) == look(steps[l].p.0) && look(steps[k].p.1) == look(steps[l].p.1)
    ensures var r, m, n := Run(look, Empty(), steps), NodeOfStep(look, steps, k), NodeOfStep(look, steps, l);
            m in r.canonical && n in r.canonical && r.canonical[m] == r.canonical[n]
  {
    hide Run, Consistent, NodeHistory, PairHistory, NodeOfStep;
    ClassNodeOfRun(look, steps, k);
    ClassNodeOfRun(look, steps, l);
    RunHistory(look, steps);
    CanonicalIffSubjects(look, Run(look, Empty(), steps), NodeOfStep(look, steps, k), NodeOfStep(look, steps, l));
  }

  // ----- The diff context

  class DiffContext<S(==, !new)> {
    var subjects: seq<Pair<S>>
    var canonical: map<nat, nat>
    var diffs: map<Pair<S>, nat>
    var canonicalDiffs: seq<nat>

    constructor ()
      ensures Value() == Empty()
    {
      subjects, canonical, diffs, canonicalDiffs := [], map[], map[], [];
    }

    ghost function Value(): Registry<S>
      reads this
    {
      Registry(subjects, canonical, diffs, canonicalDiffs)
    }

    /** A new diff node, without a canonical node. */
    method NewDiff(first: S, second: S) returns (d: nat)
      modifies `subjects
      ensures d == |old(subjects)| && Value() == Created(old(Value()), (first, second))
    {
      d := |subjects|;
      subjects := subjects + [(first, second)];
    }

    method GetCanonicalDiffFor(first: S, second: S) returns (d: Option<nat>)
      ensures d == if (first, second) in diffs then Some(diffs[(first, second)]) else None
    {
      if (first, second) in diffs {
        return Some(diffs[(first, second)]);
      }
      return None;
    }

    method SetCanonicalDiffFor(first: S, second: S, d: nat)
      modifies `diffs, `canonicalDiffs
      ensures Value() == Registered(old(Value()), (first, second), d)
    {
      var registered := GetCanonicalDiffFor(first, second);
      if registered.None? {
        diffs := diffs[(first, second) := d];
        canonicalDiffs := canonicalDiffs + [d];
      }
    }

    method SetOrGetCanonicalDiffFor(first: S, second: S, canonicalDiff: nat) returns (d: nat)
      modifies `diffs, `canonicalDiffs
      ensures Value() == Registered(old(Value()), (first, second), canonicalDiff)
      ensures (first, second) in diffs && d == diffs[(first, second)]
    {
      var registered := GetCanonicalDiffFor(first, second);
      if registered.None? {
        SetCanonicalDiffFor(first, second, canonicalDiff);
        d := canonicalDiff;
      } else {
        d := registered.value;
      }
    }

    /** Give a node its canonical node: the one registered for its subjects, or else the node itself.
        Nothing happens to a node that has one already. */
    method InitializeCanonicalDiff(diff: nat)
      requires diff < |subjects|
      modifies `canonical, `diffs, `canonicalDiffs
      ensures Value() == Initialized(old(Value()), diff)
    {
      if diff !in canonical {
        var d := SetOrGetCanonicalDiffFor(subjects[diff].0, subjects[diff].1, diff);
        canonical := canonical[diff := d];
      }
    }

    /** Compute the diff of two classes: their definitions are the subjects of the node, and the classes are
        registered under that node's canonical node too, unless they are already registered. */
    method ComputeClassDiff(first: S, second: S, look: S -> S) returns (changes: nat)
      requires LooksThrough(look) && Consistent(look, Value())
      modifies this
      ensures changes == |old(subjects)| && Value() == ClassesCompared(look, old(Value()), (first, second))
      ensures subjects == old(subjects) + [(look(first), look(second))]
      ensures Consistent(look, Value()) && changes in canonical && (first, second) in diffs
    {
      hide Consistent, LooksThrough;
      ghost var r := Value();
      ClassesComparedConsistent(look, r, (first, second));
      CreatedConsistent(look, r, Resolve(look, (first, second)));
      InitializedConsistent(look, Created(r, Resolve(look, (first, second))), |r.subjects|);
      var f, s := look(first), look(second);
      changes := NewDiff(f, s);
      InitializeCanonicalDiff(changes);
      var registered := GetCanonicalDiffFor(first, second);
      if registered.None? {
        CanonicalIffSubjects(look, Value(), changes, changes);
        RegisteredForItself(look, Value(), changes);
        var canonicalDiff := GetCanonicalDiffFor(subjects[changes].0, subjects[changes].1);
        assert canonicalDiff.Some?;
        SetCanonicalDiffFor(first, second, canonicalDiff.value);
      }
    }
  }

  lemma RegisteredForItself<S(!new)>(look: S -> S, r: Registry<S>, n: nat)
    requires Consistent(look, r) && n in r.canonical
    ensures n < |r.subjects| && r.subjects[n] in r.diffs && r.diffs[r.subjects[n]] == r.canonical[n]
  {
    assert NodeConsistent(r, n);
  }
}
