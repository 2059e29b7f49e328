/** Edit scripts: what applying one means, and why none is shorter than the distance of the graph. */
module EditScripts {
  import opened EditGraph

  // ----- The classes of the program

  /** The elements of the second sequence that go in after one element of the first sequence. */
  datatype Insertion = Insertion(point: int, indexes: seq<nat>)

  class EditScript {
    var insertions: seq<Insertion>
    var deletions: seq<int>

    constructor ()
      ensures insertions == [] && deletions == []
    {
      insertions, deletions := [], [];
    }

    method Append(es: EditScript)
      modifies this
      ensures insertions == old(insertions) + old(es.insertions)
      ensures deletions == old(deletions) + old(es.deletions)
    {
      insertions := insertions + es.insertions;
      deletions := deletions + es.deletions;
    }

    method NumInsertions() returns (l: nat)
      ensures l == |Flat(insertions)|
    {
      l := 0;
      for i := 0 to |insertions|
        invariant l == |Flat(insertions[..i])|
      {
        assert insertions[..i + 1][..i] == insertions[..i];
        l := l + |insertions[i].indexes|;
      }
      assert insertions[..|insertions|] == insertions;
    }

    method Length() returns (l: nat)
      ensures l == |Flat(insertions)| + |deletions|
    {
      var n := NumInsertions();
      l := n + |deletions|;
    }
  }

  /** A single inserted element: the insertion point, and the index in the second sequence. */
  datatype Inserted = Inserted(point: int, index: nat)

  /** The inserted elements one by one, in the order of the vectors. */
  function Flat(insertions: seq<Insertion>): (flat: seq<Inserted>) {
    if insertions == [] then []
    else
      var last := insertions[|insertions| - 1];
      Flat(insertions[..|insertions| - 1]) + seq(|last.indexes|,
          z requires 0 <= z < |last.indexes| => Inserted(last.point, last.indexes[z]))
  }

  lemma {:induction false} FlatConcat(s: seq<Insertion>, t: seq<Insertion>)
    ensures Flat(s + t) == Flat(s) + Flat(t)
  {
    if t == [] {
      assert s + t == s;
    } else {
      var n := |t| - 1;
      assert (s + t)[..|s + t| - 1] == s + t[..n];
      FlatConcat(s, t[..n]);
    }
  }

  // ----- Applying a script

  /** Where an element of the result of a script comes from. */
  datatype Origin = First(i: nat) | Second(j: nat)

  /** The elements that go in after element `point` of the first sequence, in the order of the script. */
  ghost function InsertedAfter(flat: seq<Inserted>, point: int): seq<Origin> {
    if flat == [] then []
    else
      var last := flat[|flat| - 1];
      InsertedAfter(flat[..|flat| - 1], point) + if last.point == point then [Second(last.index)] else []
  }

  /** The result of a script on the first n elements: each element that is not deleted, followed by what
      is inserted after it.  Point -1 is in front of the first element. */
  ghost function Apply(flat: seq<Inserted>, deletions: seq<int>, n: nat): seq<Origin> {
    if n == 0 then InsertedAfter(flat, -1)
    else
      Apply(flat, deletions, n - 1)
      + (if n - 1 in deletions then [] else [First(n - 1)])
      + InsertedAfter(flat, n - 1)
  }

  /** `result` is the second sequence: each inserted element is in its own place, and each element taken
      over from the first sequence is in the place of one that it matches. */
  ghost predicate IsSecond(m: Match, N: nat, result: seq<Origin>) {
    |result| == N && forall p :: 0 <= p < N ==> if result[p].First? then m(result[p].i, p) else result[p].j == p
  }

  /** The same without any demand on the inserted elements. */
  ghost predicate KeptMatch(m: Match, result: seq<Origin>) {
    forall p :: 0 <= p < |result| && result[p].First? ==> m(result[p].i, p)
  }

  // ----- Walks through the edit graph

  datatype Step = Keep(i: nat, j: nat) | Delete(i: nat) | Insert(point: int, j: nat)

  /** `w` walks from the node (i0, j0) to the node (i1, j1), with diagonal steps over match points only. */
  ghost predicate IsWalk(m: Match, w: seq<Step>, i0: nat, j0: nat, i1: nat, j1: nat) {
    if w == [] then i0 == i1 && j0 == j1
    else
      var n := |w| - 1;
      match w[n]
      case Keep(i, j) => i + 1 == i1 && j + 1 == j1 && m(i, j) && IsWalk(m, w[..n], i0, j0, i, j)
      case Delete(i) => i + 1 == i1 && IsWalk(m, w[..n], i0, j0, i, j1)
      case Insert(p, j) => p + 1 == i1 && j + 1 == j1 && IsWalk(m, w[..n], i0, j0, i1, j)
  }

  /** The script that a walk spells out, and the match points it goes through. */
  ghost function Deletions(w: seq<Step>): seq<int> {
    if w == [] then [] else Deletions(w[..|w| - 1]) + StepDeletions(w[|w| - 1])
  }

  ghost function StepDeletions(step: Step): seq<int> {
    if step.Delete? then [step.i] else []
  }

  ghost function Insertions(w: seq<Step>): seq<Inserted> {
    if w == [] then [] else Insertions(w[..|w| - 1]) + StepInsertions(w[|w| - 1])
  }

  ghost function StepInsertions(step: Step): seq<Inserted> {
    if step.Insert? then [Inserted(step.point, step.j)] else []
  }

  ghost function Keeps(w: seq<Step>): seq<(nat, nat)> {
    if w == [] then [] else Keeps(w[..|w| - 1]) + StepKeeps(w[|w| - 1])
  }

  ghost function StepKeeps(step: Step): seq<(nat, nat)> {
    if step.Keep? then [(step.i, step.j)] else []
  }

  lemma EmptyWalk(m: Match, i: nat, j: nat)
    ensures IsWalk(m, [], i, j, i, j)
    ensures Deletions([]) == [] && Insertions([]) == [] && Keeps([]) == []
  {
  }

  lemma WalkStep(m: Match, w: seq<Step>, step: Step, i0: nat, j0: nat, i1: nat, j1: nat)
    requires IsWalk(m, w, i0, j0, i1, j1)
    ensures step == Keep(i1, j1) && m(i1, j1) ==> IsWalk(m, w + [step], i0, j0, i1 + 1, j1 + 1)
    ensures step == Delete(i1) ==> IsWalk(m, w + [step], i0, j0, i1 + 1, j1)
    ensures step == Insert(i1 - 1, j1) ==> IsWalk(m, w + [step], i0, j0, i1, j1 + 1)
  {
  }

  lemma {:induction false} WalkConcat(m: Match, v: seq<Step>, w: seq<Step>, i0: nat, j0: nat, i1: nat, j1: nat,
                                      i2: nat, j2: nat)
    requires IsWalk(m, v, i0, j0, i1, j1) && IsWalk(m, w, i1, j1, i2, j2)
    ensures IsWalk(m, v + w, i0, j0, i2, j2)
    decreases |w|
  {
    if w == [] {
      assert v + w == v;
    } else {
      var n := |w| - 1;
      var i, j := if w[n].Insert? then i2 else i2 - 1, if w[n].Delete? then j2 else j2 - 1;
      WalkConcat(m, v, w[..n], i0, j0, i1, j1, i, j);
      assert v + w == (v + w[..n]) + [w[n]];
      WalkStep(m, v + w[..n], w[n], i0, j0, i, j);
    }
  }

  /** Walking on appends to the script. */
  lemma ScriptStep(w: seq<Step>, step: Step)
    ensures Deletions(w + [step]) == Deletions(w) + StepDeletions(step)
    ensures Insertions(w + [step]) == Insertions(w) + StepInsertions(step)
    ensures Keeps(w + [step]) == Keeps(w) + StepKeeps(step)
  {
  }

  lemma {:induction false} ScriptConcat(v: seq<Step>, w: seq<Step>)
    ensures Deletions(v + w) == Deletions(v) + Deletions(w)
    ensures Insertions(v + w) == Insertions(v) + Insertions(w)
    ensures Keeps(v + w) == Keeps(v) + Keeps(w)
  {
    if w == [] {
      assert v + w == v;
    } else {
      ScriptConcat(v, w[..|w| - 1]);
      ScriptConcatStep(v, w[..|w| - 1], w[|w| - 1]);
      assert w == w[..|w| - 1] + [w[|w| - 1]];
    }
  }

  lemma ScriptConcatStep(v: seq<Step>, w: seq<Step>, step: Step)
    requires Deletions(v + w) == Deletions(v) + Deletions(w)
    requires Insertions(v + w) == Insertions(v) + Insertions(w)
    requires Keeps(v + w) == Keeps(v) + Keeps(w)
    ensures Deletions(v + (w + [step])) == Deletions(v) + Deletions(w + [step])
    ensures Insertions(v + (w + [step])) == Insertions(v) + Insertions(w + [step])
    ensures Keeps(v + (w + [step])) == Keeps(v) + Keeps(w + [step])
  {
    hide Deletions, Insertions, Keeps, StepDeletions, StepInsertions, StepKeeps;
    ScriptStep(w, step);
    ScriptStep(v + w, step);
    assert v + (w + [step]) == (v + w) + [step];
  }

  lemma {:induction false} WalkForward(m: Match, w: seq<Step>, i0: nat, j0: nat, i1: nat, j1: nat)
    requires IsWalk(m, w, i0, j0, i1, j1)
    ensures i0 <= i1 && j0 <= j1
    decreases |w|
  {
    if w != [] {
      var n := |w| - 1;
      WalkForward(m, w[..n], i0, j0, if w[n].Insert? then i1 else i1 - 1, if w[n].Delete? then j1 else j1 - 1);
    }
  }

  /** The script of a walk is in order: deleted indexes increase, insertion points do not decrease, and
      inserted indexes increase; all of them are in the walked rectangle. */
  lemma {:induction false} WalkScriptInOrder(m: Match, w: seq<Step>, i0: nat, j0: nat, i1: nat, j1: nat)
    requires IsWalk(m, w, i0, j0, i1, j1)
    ensures forall x :: 0 <= x < |Deletions(w)| ==> i0 <= Deletions(w)[x] < i1
    ensures forall x, y :: 0 <= x < y < |Deletions(w)| ==> Deletions(w)[x] < Deletions(w)[y]
    ensures forall x :: 0 <= x < |Insertions(w)| ==>
                          i0 - 1 <= Insertions(w)[x].point <= i1 - 1 && j0 <= Insertions(w)[x].index < j1
    ensures forall x, y :: 0 <= x < y < |Insertions(w)| ==>
                             && Insertions(w)[x].point <= Insertions(w)[y].point
                             && Insertions(w)[x].index < Insertions(w)[y].index
    decreases |w|
  {
    WalkForward(m, w, i0, j0, i1, j1);
    if w != [] {
      var n := |w| - 1;
      var i, j := if w[n].Insert? then i1 else i1 - 1, if w[n].Delete? then j1 else j1 - 1;
      WalkScriptInOrder(m, w[..n], i0, j0, i, j);
      WalkForward(m, w[..n], i0, j0, i, j);
    }
  }

  // ----- The script of a walk turns the first sequence into the second one

  lemma {:induction false} InsertedAfterEmpty(flat: seq<Inserted>, point: int)
    requires forall x :: 0 <= x < |flat| ==> flat[x].point < point
    ensures InsertedAfter(flat, point) == []
  {
    if flat != [] {
      InsertedAfterEmpty(flat[..|flat| - 1], point);
    }
  }

  lemma InsertedAfterLast(flat: seq<Inserted>, last: Inserted, point: int)
    ensures InsertedAfter(flat + [last], point)
         == InsertedAfter(flat, point) + (if last.point == point then [Second(last.index)] else [])
  {
  }

  /** What a script does behind the first n elements does not matter for them. */
  lemma {:induction false} ApplyPrefix(flat: seq<Inserted>, deletions: seq<int>, last: Inserted, deletion: int, n: nat)
    requires last.point >= n && deletion >= n
    ensures Apply(flat + [last], deletions, n) == Apply(flat, deletions, n)
    ensures Apply(flat, deletions + [deletion], n) == Apply(flat, deletions, n)
  {
    InsertedAfterLast(flat, last, n - 1);
    if n > 0 {
      ApplyPrefix(flat, deletions, last, deletion, n - 1);
    }
  }

  lemma ApplyKeep(m: Match, flat: seq<Inserted>, deletions: seq<int>, i: nat, j: nat)
    requires IsSecond(m, j, Apply(flat, deletions, i)) && m(i, j)
    requires i !in deletions && InsertedAfter(flat, i) == []
    ensures IsSecond(m, j + 1, Apply(flat, deletions, i + 1))
  {
  }

  lemma ApplyDelete(m: Match, flat: seq<Inserted>, deletions: seq<int>, i: nat, j: nat)
    requires IsSecond(m, j, Apply(flat, deletions, i)) && InsertedAfter(flat, i) == []
    ensures IsSecond(m, j, Apply(flat, deletions + [i], i + 1))
  {
    hide IsSecond;
    ApplyPrefix(flat, deletions, Inserted(i, 0), i, i);
    assert Apply(flat, deletions + [i], i + 1) == Apply(flat, deletions, i);
  }

  lemma ApplyInsert(m: Match, flat: seq<Inserted>, deletions: seq<int>, i: nat, j: nat)
    requires IsSecond(m, j, Apply(flat, deletions, i))
    ensures IsSecond(m, j + 1, Apply(flat + [Inserted(i - 1, j)], deletions, i))
  {
    var last := Inserted(i - 1, j);
    InsertedAfterLast(flat, last, i - 1);
    if i > 0 {
      ApplyPrefix(flat, deletions, last, i, i - 1);
    }
    assert Apply(flat + [last], deletions, i) == Apply(flat, deletions, i) + [Second(j)];
  }

  /** The script of a walk turns the first sequence into the second one. */
  lemma {:induction false} WalkScriptApplies(m: Match, w: seq<Step>, i1: nat, j1: nat)
    requires IsWalk(m, w, 0, 0, i1, j1)
    ensures IsSecond(m, j1, Apply(Insertions(w), Deletions(w), i1))
    decreases |w|
  {
    if w != [] {
      hide Apply, IsSecond;
      var n := |w| - 1;
      var v := w[..n];
      var flat, dels := Insertions(v), Deletions(v);
      var i, j := if w[n].Insert? then i1 else i1 - 1, if w[n].Delete? then j1 else j1 - 1;
      WalkScriptApplies(m, v, i, j);
      WalkScriptInOrder(m, v, 0, 0, i, j);
      InsertedAfterEmpty(flat, i);
      assert flat + [] == flat && dels + [] == dels;
      match w[n]
      case Keep(_, _) => ApplyKeep(m, flat, dels, i, j);
      case Delete(_) => ApplyDelete(m, flat, dels, i, j);
      case Insert(_, _) => ApplyInsert(m, flat, dels, i, j);
    }
  }

  // ----- Where the elements of a result come from

  ghost predicate IsInserted(flat: seq<Inserted>, j: int, point: int) {
    exists x :: 0 <= x < |flat| && flat[x].point == point && flat[x].index == j
  }

  /** The script inserts the element j of the second sequence in front of the element n of the first one. */
  ghost predicate IsInsertedBefore(flat: seq<Inserted>, j: int, n: nat) {
    exists x :: 0 <= x < |flat| && -1 <= flat[x].point < n && flat[x].index == j
  }

  lemma {:induction false} InsertedAfterOrigins(flat: seq<Inserted>, point: int, o: Origin)
    ensures o in InsertedAfter(flat, point) <==> o.Second? && IsInserted(flat, o.j, point)
  {
    if flat != [] {
      var n := |flat| - 1;
      InsertedAfterOrigins(flat[..n], point, o);
      if o.Second? && IsInserted(flat[..n], o.j, point) {
        var x :| 0 <= x < n && flat[..n][x].point == point && flat[..n][x].index == o.j;
        assert flat[x].point == point && flat[x].index == o.j;
      }
      if o.Second? && IsInserted(flat, o.j, point) && !(flat[n].point == point && flat[n].index == o.j) {
        var x :| 0 <= x < |flat| && flat[x].point == point && flat[x].index == o.j;
        assert flat[..n][x].point == point && flat[..n][x].index == o.j;
      }
    }
  }

  lemma InsertedBeforeNext(flat: seq<Inserted>, j: int, n: nat)
    ensures IsInsertedBefore(flat, j, n + 1) <==> IsInsertedBefore(flat, j, n) || IsInserted(flat, j, n)
    ensures IsInsertedBefore(flat, j, 0) <==> IsInserted(flat, j, -1)
  {
  }

  /** The result is made of the elements that are not deleted, and of the inserted ones. */
  lemma {:induction false} ApplyOrigins(flat: seq<Inserted>, deletions: seq<int>, n: nat, o: Origin)
    ensures o in Apply(flat, deletions, n) <==>
              if o.First? then o.i < n && o.i !in deletions else IsInsertedBefore(flat, o.j, n)
  {
    hide InsertedAfter, IsInserted, IsInsertedBefore;
    InsertedAfterOrigins(flat, n - 1, o);
    if o.Second? {
      InsertedBeforeNext(flat, o.j, if n > 0 then n - 1 else 0);
    }
    if n > 0 {
      ApplyOrigins(flat, deletions, n - 1, o);
    }
  }

  // ----- No script is shorter than the distance

  ghost function DeletedBelow(deletions: seq<int>, n: nat): nat {
    if n == 0 then 0 else DeletedBelow(deletions, n - 1) + if n - 1 in deletions then 1 else 0
  }

  ghost function InsertedBelow(flat: seq<Inserted>, n: nat): nat {
    if n == 0 then |InsertedAfter(flat, -1)| else InsertedBelow(flat, n - 1) + |InsertedAfter(flat, n - 1)|
  }

  lemma {:induction false} DeletedBelowTail(deletions: seq<int>, n: nat)
    requires deletions != []
    ensures DeletedBelow(deletions, n) <= DeletedBelow(deletions[1..], n) + if 0 <= deletions[0] < n then 1 else 0
  {
    if n > 0 {
      DeletedBelowTail(deletions, n - 1);
    }
  }

  lemma {:induction false} DeletedBelowAtMost(deletions: seq<int>, n: nat)
    ensures DeletedBelow(deletions, n) <= |deletions|
    decreases |deletions|, n
  {
    if deletions != [] {
      DeletedBelowTail(deletions, n);
      DeletedBelowAtMost(deletions[1..], n);
    } else if n > 0 {
      DeletedBelowAtMost(deletions, n - 1);
    }
  }

  lemma {:induction false} InsertedBelowLast(flat: seq<Inserted>, last: Inserted, n: nat)
    ensures InsertedBelow(flat + [last], n) == InsertedBelow(flat, n) + if -1 <= last.point < n then 1 else 0
  {
    InsertedAfterLast(flat, last, n - 1);
    if n > 0 {
      InsertedBelowLast(flat, last, n - 1);
    }
  }

  lemma {:induction false} InsertedBelowAtMost(flat: seq<Inserted>, n: nat)
    ensures InsertedBelow(flat, n) <= |flat|
    decreases |flat|, n
  {
    if flat != [] {
      var k := |flat| - 1;
      assert flat == flat[..k] + [flat[k]];
      InsertedBelowLast(flat[..k], flat[k], n);
      InsertedBelowAtMost(flat[..k], n);
    } else if n > 0 {
      InsertedBelowAtMost(flat, n - 1);
    }
  }

  /** What the element n - 1 contributes to the result. */
  lemma ResultGrows(m: Match, flat: seq<Inserted>, deletions: seq<int>, n: nat)
    requires n > 0 && KeptMatch(m, Apply(flat, deletions, n))
    ensures var before := Apply(flat, deletions, n - 1);
            && KeptMatch(m, before)
            && |Apply(flat, deletions, n)|
                == |before| + (if n - 1 in deletions then 0 else 1) + |InsertedAfter(flat, n - 1)|
            && (n - 1 in deletions || m(n - 1, |before|))
  {
    hide InsertedAfter;
    var before := Apply(flat, deletions, n - 1);
    var kept := before + if n - 1 in deletions then [] else [First(n - 1)];
    var result := kept + InsertedAfter(flat, n - 1);
    assert result == Apply(flat, deletions, n);
    assert forall p :: 0 <= p < |before| ==> result[p] == before[p];
    if n - 1 !in deletions {
      assert result[|before|] == First(n - 1);
    }
  }

  lemma {:induction false} ScriptCoversDist(m: Match, flat: seq<Inserted>, deletions: seq<int>, n: nat)
    requires KeptMatch(m, Apply(flat, deletions, n))
    ensures Dist(m, n, |Apply(flat, deletions, n)|) <= DeletedBelow(deletions, n) + InsertedBelow(flat, n)
  {
    if n == 0 {
      hide Dist;
      DistBorder(m, |Apply(flat, deletions, n)|);
    } else {
      hide Dist, Apply, KeptMatch, InsertedAfter;
      var before := |Apply(flat, deletions, n - 1)|;
      ResultGrows(m, flat, deletions, n);
      ScriptCoversDist(m, flat, deletions, n - 1);
      if n - 1 in deletions {
        DistNeighbours(m, n - 1, before);
        DistRows(m, n, before, |InsertedAfter(flat, n - 1)|);
      } else {
        DistStep(m, n - 1, before);
        DistRows(m, n, before + 1, |InsertedAfter(flat, n - 1)|);
      }
    }
  }

  /** Any script at all whose result has the length of the second sequence, and takes over only elements
      that match, is at least as long as the distance. */
  lemma NoShorterScript(m: Match, M: nat, N: nat, flat: seq<Inserted>, deletions: seq<int>)
    requires |Apply(flat, deletions, M)| == N && KeptMatch(m, Apply(flat, deletions, M))
    ensures Dist(m, M, N) <= |flat| + |deletions|
  {
    hide Dist;
    ScriptCoversDist(m, flat, deletions, M);
    DeletedBelowAtMost(deletions, M);
    InsertedBelowAtMost(flat, M);
  }

  // ----- Common subsequences

  /** Pairs of matching elements, in the order of both sequences. */
  ghost predicate IsCommonSubsequence(m: Match, cs: seq<(nat, nat)>, M: nat, N: nat) {
    && (forall x :: 0 <= x < |cs| ==> cs[x].0 < M && cs[x].1 < N && m(cs[x].0, cs[x].1))
    && (forall x, y :: 0 <= x < y < |cs| ==> cs[x].0 < cs[y].0 && cs[x].1 < cs[y].1)
  }

  /** A common subsequence leaves at least as many elements over as the distance. */
  lemma {:induction false} NoLongerCommonSubsequence(m: Match, cs: seq<(nat, nat)>, M: nat, N: nat)
    requires IsCommonSubsequence(m, cs, M, N)
    ensures 2 * |cs| + Dist(m, M, N) <= M + N
    decreases |cs|
  {
    hide Dist;
    if cs == [] {
      DistAtLeastDiagonal(m, M, N);
    } else {
      var n := |cs| - 1;
      var (x, y) := cs[n];
      NoLongerCommonSubsequence(m, cs[..n], x, y);
      DistStep(m, x, y);
      DistColumns(m, x + 1, y + 1, M - x - 1);
      DistRows(m, M, y + 1, N - y - 1);
    }
  }

  lemma CommonSubsequenceGrows(m: Match, cs: seq<(nat, nat)>, i: nat, j: nat)
    requires IsCommonSubsequence(m, cs, i, j)
    ensures IsCommonSubsequence(m, cs, i + 1, j) && IsCommonSubsequence(m, cs, i, j + 1)
    ensures m(i, j) ==> IsCommonSubsequence(m, cs + [(i, j)], i + 1, j + 1)
  {
  }

  /** The match points of a walk are a common subsequence, inside of the walked rectangle. */
  lemma {:induction false} WalkKeeps(m: Match, w: seq<Step>, i0: nat, j0: nat, i1: nat, j1: nat)
    requires IsWalk(m, w, i0, j0, i1, j1)
    ensures IsCommonSubsequence(m, Keeps(w), i1, j1)
    ensures forall p :: p in Keeps(w) ==> i0 <= p.0 < i1 && j0 <= p.1 < j1
    decreases |w|
  {
    hide IsCommonSubsequence, Keeps;
    if w == [] {
      KeepsNothing();
      assert IsCommonSubsequence(m, Keeps(w), i1, j1) by { NoCommonSubsequence(m, i1, j1); }
    } else {
      var n := |w| - 1;
      var i, j := if w[n].Insert? then i1 else i1 - 1, if w[n].Delete? then j1 else j1 - 1;
      WalkForward(m, w[..n], i0, j0, i, j);
      WalkKeeps(m, w[..n], i0, j0, i, j);
      CommonSubsequenceGrows(m, Keeps(w[..n]), i, j);
      KeepsLast(w);
    }
  }

  lemma KeepsNothing()
    ensures Keeps([]) == []
  {
  }

  lemma KeepsLast(w: seq<Step>)
    requires w != []
    ensures var last := w[|w| - 1];
            Keeps(w) == if last.Keep? then Keeps(w[..|w| - 1]) + [(last.i, last.j)] else Keeps(w[..|w| - 1])
  {
  }

  lemma NoCommonSubsequence(m: Match, M: nat, N: nat)
    ensures IsCommonSubsequence(m, [], M, N)
  {
  }

  /** A walk is made of its common subsequence and its script. */
  lemma {:induction false} WalkLengths(m: Match, w: seq<Step>, i0: nat, j0: nat, i1: nat, j1: nat)
    requires IsWalk(m, w, i0, j0, i1, j1)
    ensures 2 * |Keeps(w)| + |Deletions(w)| + |Insertions(w)| == i1 - i0 + j1 - j0
    decreases |w|
  {
    if w != [] {
      var n := |w| - 1;
      var i, j := if w[n].Insert? then i1 else i1 - 1, if w[n].Delete? then j1 else j1 - 1;
      WalkForward(m, w[..n], i0, j0, i, j);
      WalkLengths(m, w[..n], i0, j0, i, j);
    }
  }

  /** No element of the first sequence is both kept and deleted. */
  lemma {:induction false} KeptNotDeleted(m: Match, w: seq<Step>, i0: nat, j0: nat, i1: nat, j1: nat, p: (nat, nat))
    requires IsWalk(m, w, i0, j0, i1, j1) && p in Keeps(w)
    ensures p.0 !in Deletions(w)
    decreases |w|
  {
    var n := |w| - 1;
    var i, j := if w[n].Insert? then i1 else i1 - 1, if w[n].Delete? then j1 else j1 - 1;
    if p in Keeps(w[..n]) {
      KeptNotDeleted(m, w[..n], i0, j0, i, j, p);
      WalkKeeps(m, w[..n], i0, j0, i, j);
    } else {
      WalkScriptInOrder(m, w[..n], i0, j0, i, j);
    }
  }

  /** No element of the second sequence is both kept and inserted. */
  lemma {:induction false} KeptNotInserted(m: Match, w: seq<Step>, i0: nat, j0: nat, i1: nat, j1: nat, p: (nat, nat),
                                           x: nat)
    requires IsWalk(m, w, i0, j0, i1, j1) && p in Keeps(w) && x < |Insertions(w)|
    ensures Insertions(w)[x].index != p.1
    decreases |w|
  {
    var n := |w| - 1;
    var i, j := if w[n].Insert? then i1 else i1 - 1, if w[n].Delete? then j1 else j1 - 1;
    if p in Keeps(w[..n]) {
      if x < |Insertions(w[..n])| {
        KeptNotInserted(m, w[..n], i0, j0, i, j, p, x);
      }
      WalkKeeps(m, w[..n], i0, j0, i, j);
    } else {
      WalkScriptInOrder(m, w[..n], i0, j0, i, j);
    }
  }
}
