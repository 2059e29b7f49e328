/** What a user of the diff gets: a script that turns the first sequence into the second one, such that
    no other script is shorter, and a common subsequence. */
module ShortestScript {
  import opened EditGraph
  import opened MiddleSnake
  import opened EditScripts
  import opened ComputeDiff

  /** The script turns the M elements of the first sequence into the N elements of the second one, and
      every script that does so with matching elements only is at least as long. */
  ghost predicate IsShortestScript(m: Match, M: nat, N: nat, flat: seq<Inserted>, deletions: seq<int>) {
    && IsSecond(m, N, Apply(flat, deletions, M))
    && forall f, d :: |Apply(f, d, M)| == N && KeptMatch(m, Apply(f, d, M)) ==> |flat| + |deletions| <= |f| + |d|
  }

  /** Deleted indexes increase, insertion points do not decrease, inserted indexes increase, and all of
      them are in range.  A point of -1 is in front of the first element. */
  ghost predicate InOrder(M: nat, N: nat, flat: seq<Inserted>, deletions: seq<int>) {
    && (forall x :: 0 <= x < |deletions| ==> 0 <= deletions[x] < M)
    && (forall x, y :: 0 <= x < y < |deletions| ==> deletions[x] < deletions[y])
    && (forall x :: 0 <= x < |flat| ==> -1 <= flat[x].point <= M - 1 && 0 <= flat[x].index < N)
    && (forall x, y :: 0 <= x < y < |flat| ==> flat[x].point <= flat[y].point && flat[x].index < flat[y].index)
  }

  /** There is no common subsequence of more than n elements. */
  ghost predicate NoneLonger(m: Match, n: nat, M: nat, N: nat) {
    forall cs :: IsCommonSubsequence(m, cs, M, N) ==> |cs| <= n
  }

  /** The points are a common subsequence of elements that the script neither deletes nor inserts. */
  ghost predicate KeptPoints(m: Match, points: seq<Point>, M: nat, N: nat, flat: seq<Inserted>, deletions: seq<int>) {
    && (forall x :: 0 <= x < |points| ==> 0 <= points[x].x < M && 0 <= points[x].y < N && m(points[x].x, points[x].y))
    && (forall x, y :: 0 <= x < y < |points| ==> points[x].x < points[y].x && points[x].y < points[y].y)
    && (forall x :: 0 <= x < |points| ==> points[x].x !in deletions)
    && (forall x, y :: 0 <= x < |points| && 0 <= y < |flat| ==> points[x].y != flat[y].index)
  }

  /** The script of a walk as long as the distance is a shortest one. */
  lemma WalkIsShortest(m: Match, M: nat, N: nat, w: seq<Step>)
    requires IsWalk(m, w, 0, 0, M, N) && |Deletions(w)| + |Insertions(w)| == Dist(m, M, N)
    ensures IsShortestScript(m, M, N, Insertions(w), Deletions(w))
    ensures InOrder(M, N, Insertions(w), Deletions(w))
  {
    hide Dist, IsWalk, Deletions, Insertions, Apply, IsSecond, KeptMatch;
    WalkScriptApplies(m, w, M, N);
    WalkScriptInOrder(m, w, 0, 0, M, N);
    forall f, d | |Apply(f, d, M)| == N && KeptMatch(m, Apply(f, d, M))
      ensures |Deletions(w)| + |Insertions(w)| <= |f| + |d|
    {
      NoShorterScript(m, M, N, f, d);
    }
  }

  /** The length of a longest common subsequence is what a shortest script leaves over. */
  lemma LongestCommonSubsequence(m: Match, M: nat, N: nat, w: seq<Step>, n: nat)
    requires IsWalk(m, w, 0, 0, M, N) && |Deletions(w)| + |Insertions(w)| == Dist(m, M, N)
    ensures NoneLonger(m, n, M, N) <==> M + N <= 2 * n + Dist(m, M, N)
  {
    hide Dist, IsWalk, Deletions, Insertions, Keeps, IsCommonSubsequence;
    WalkKeeps(m, w, 0, 0, M, N);
    WalkLengths(m, w, 0, 0, M, N);
    forall cs | IsCommonSubsequence(m, cs, M, N)
      ensures 2 * |cs| + Dist(m, M, N) <= M + N
    {
      NoLongerCommonSubsequence(m, cs, M, N);
    }
  }

  lemma TraceIsKept(m: Match, M: nat, N: nat, w: seq<Step>, points: seq<Point>)
    requires IsWalk(m, w, 0, 0, M, N) && IsTrace(points, w)
    ensures KeptPoints(m, points, M, N, Insertions(w), Deletions(w))
  {
    hide IsWalk, Deletions, Insertions, Keeps;
    WalkKeeps(m, w, 0, 0, M, N);
    forall x | 0 <= x < |points|
      ensures 0 <= points[x].x < M && 0 <= points[x].y < N && m(points[x].x, points[x].y)
      ensures points[x].x !in Deletions(w)
      ensures forall y :: 0 <= y < |Insertions(w)| ==> points[x].y != Insertions(w)[y].index
    {
      var p: (nat, nat) := (points[x].x, points[x].y);
      assert p in Keeps(w);
      var z :| 0 <= z < |Keeps(w)| && Keeps(w)[z] == p;
      KeptNotDeleted(m, w, 0, 0, M, N, p);
      forall y | 0 <= y < |Insertions(w)|
        ensures points[x].y != Insertions(w)[y].index
      {
        KeptNotInserted(m, w, 0, 0, M, N, p, y);
      }
    }
  }

  /** Compute the shortest script that turns a into b, starting from an empty one.  Some points of a
      common subsequence are added to lcs: exactly the middle slides of the regions with an odd distance above
      one that the recursion comes to, so none when halving the length of the script never gives one. */
  method DiffSequences<T>(a: seq<T>, b: seq<T>, eq: (T, T) -> bool, lcs: PointVec, ses: EditScript)
    returns (sesLen: nat)
    requires ses.insertions == [] && ses.deletions == []
    modifies lcs, ses
    ensures sesLen == Dist(Matches(a, b, eq), |a|, |b|) == |Flat(ses.insertions)| + |ses.deletions|
    ensures IsShortestScript(Matches(a, b, eq), |a|, |b|, Flat(ses.insertions), ses.deletions)
    ensures InOrder(|a|, |b|, Flat(ses.insertions), ses.deletions)
    ensures forall n: nat :: NoneLonger(Matches(a, b, eq), n, |a|, |b|) <==> |a| + |b| <= 2 * n + sesLen
    ensures old(lcs.points) <= lcs.points
    ensures KeptPoints(Matches(a, b, eq), lcs.points[|old(lcs.points)|..], |a|, |b|, Flat(ses.insertions),
        ses.deletions)
    ensures LeftBehind(a, 0, |a|, b, 0, |b|, eq, sesLen, lcs.points[|old(lcs.points)|..])
    ensures Runs(lcs.points[|old(lcs.points)|..]) <= OddHalvings(sesLen)
    ensures NeverOdd(sesLen) ==> lcs.points == old(lcs.points)
  {
    hide Dist, Matches, IsWalk, Deletions, Insertions, Keeps, IsTrace, IsShortestScript, InOrder, NoneLonger,
         KeptPoints, OddHalvings, NeverOdd, LeftBehind;
    ghost var m := Matches(a, b, eq);
    assert a[0..|a|] == a && b[0..|b|] == b;
    ghost var w, depth;
    sesLen, w, depth := Diff(a, 0, |a|, b, 0, |b|, eq, lcs, ses);
    WalkIsShortest(m, |a|, |b|, w);
    TraceIsKept(m, |a|, |b|, w, lcs.points[|old(lcs.points)|..]);
    forall n: nat
      ensures NoneLonger(m, n, |a|, |b|) <==> |a| + |b| <= 2 * n + sesLen
    {
      LongestCommonSubsequence(m, |a|, |b|, w, n);
    }
    NeverOddHalvings(sesLen);
    LeftBehindRuns(a, 0, |a|, b, 0, |b|, eq, sesLen, lcs.points[|old(lcs.points)|..]);
    SomeRun(lcs.points[|old(lcs.points)|..]);
  }

  lemma SomeRun(points: seq<Point>)
    ensures Runs(points) == 0 <==> points == []
  {
    if |points| > 1 {
      SomeRun(points[..|points| - 1]);
    }
  }

  /** When the script has an odd number of elements above one, the whole slide in its middle is left behind,
      up to the first mismatch. */
  lemma MiddleSlideIsLeft<T>(a: seq<T>, b: seq<T>, eq: (T, T) -> bool, d: nat, points: seq<Point>)
    returns (i: nat, j: nat, t: nat, p: seq<Point>, q: seq<Point>)
    requires LeftBehind(a, 0, |a|, b, 0, |b|, eq, d, points) && a != [] && b != [] && d > 1 && d % 2 == 1
    ensures points == p + SlidePoints(i, j, t) + q && Divides(a, 0, |a|, b, 0, |b|, eq, i, j, t, d)
  {
    hide Divides, SlidePoints;
    i, j, t, p, q :| Divides(a, 0, |a|, b, 0, |b|, eq, i, j, t, d) && InThreeParts(points, d, p, i, j, t, q);
  }

  // ----- Sequences compared with the equality of their elements

  /** The equality functor the program uses unless it is given another one. */
  function DefaultEq<T(==)>(): (T, T) -> bool { (x, y) => x == y }

  /** The elements a result is made of. */
  ghost function Values<T>(result: seq<Origin>, a: seq<T>, b: seq<T>): seq<T>
    requires forall p :: 0 <= p < |result| ==> if result[p].First? then result[p].i < |a| else result[p].j < |b|
  {
    seq(|result|, p requires 0 <= p < |result| => if result[p].First? then a[result[p].i] else b[result[p].j])
  }

  /** With the default equality, a result that is made of the second sequence is the second sequence. */
  lemma ShortestScriptGivesSecond<T>(a: seq<T>, b: seq<T>, result: seq<Origin>)
    requires IsSecond(Matches(a, b, DefaultEq()), |b|, result)
    ensures forall p :: 0 <= p < |result| ==> if result[p].First? then result[p].i < |a| else result[p].j < |b|
    ensures Values(result, a, b) == b
  {
  }

  /** And a script whose result has the elements of the second sequence keeps only matching elements, so
      none is shorter than the distance, however it came about. */
  lemma NoShorterScriptForValues<T>(a: seq<T>, b: seq<T>, flat: seq<Inserted>, deletions: seq<int>)
    requires var result := Apply(flat, deletions, |a|);
             && (forall p :: 0 <= p < |result| ==> if result[p].First? then result[p].i < |a| else result[p].j < |b|)
             && Values(result, a, b) == b
    ensures Dist(Matches(a, b, DefaultEq()), |a|, |b|) <= |flat| + |deletions|
  {
    hide Dist;
    var m, result := Matches(a, b, DefaultEq()), Apply(flat, deletions, |a|);
    forall p | 0 <= p < |result| && result[p].First?
      ensures m(result[p].i, p)
    {
      assert Values(result, a, b)[p] == b[p];
    }
    NoShorterScript(m, |a|, |b|, flat, deletions);
  }

  /** Some longest common subsequence lies on so few diagonal runs that the points the diff adds could be
      one: a condition on the two sequences alone. */
  ghost predicate LongestOnFewRuns(m: Match, M: nat, N: nat) {
    exists points :: KeptPoints(m, points, M, N, [], []) && 2 * |points| + Dist(m, M, N) == M + N
      && Runs(points) <= OddHalvings(Dist(m, M, N))
  }

  /** Whichever middle slides the diff comes upon, a longest common subsequence is left behind. */
  ghost predicate AlwaysLeavesLongest(str1: string, str2: string, d: nat) {
    forall points :: LeftBehind(str1, 0, |str1|, str2, 0, |str2|, DefaultEq(), d, points) ==>
      2 * |points| + d == |str1| + |str2|
  }

  /** For some of them a longest one is left behind. */
  ghost predicate MayLeaveLongest(str1: string, str2: string, d: nat) {
    exists points :: LeftBehind(str1, 0, |str1|, str2, 0, |str2|, DefaultEq(), d, points)
      && 2 * |points| + d == |str1| + |str2|
  }

  /** When the n characters that are left behind are a longest common subsequence. */
  ghost predicate LongestWhen(str1: string, str2: string, sesLen: nat, n: nat) {
    var longest := NoneLonger(Matches(str1, str2, DefaultEq()), n, |str1|, |str2|);
    && (longest <==> |str1| + |str2| == 2 * n + sesLen)
    && (sesLen == |str1| + |str2| ==> longest)
    && (longest && NeverOdd(sesLen) ==> sesLen == |str1| + |str2|)
    && (AlwaysLeavesLongest(str1, str2, sesLen) ==> longest)
    && (longest ==> MayLeaveLongest(str1, str2, sesLen))
    && (longest ==> LongestOnFewRuns(Matches(str1, str2, DefaultEq()), |str1|, |str2|))
  }

  lemma LongestWhenLeft(str1: string, str2: string, sesLen: nat, points: seq<Point>)
    requires var m := Matches(str1, str2, DefaultEq());
             && sesLen == Dist(m, |str1|, |str2|)
             && (NoneLonger(m, |points|, |str1|, |str2|) <==> |str1| + |str2| <= 2 * |points| + sesLen)
             && KeptPoints(m, points, |str1|, |str2|, [], [])
    requires LeftBehind(str1, 0, |str1|, str2, 0, |str2|, DefaultEq(), sesLen, points)
    requires Runs(points) <= OddHalvings(sesLen) && (NeverOdd(sesLen) ==> points == [])
    ensures LongestWhen(str1, str2, sesLen, |points|)
  {
    hide Dist, NoneLonger, Runs, OddHalvings, LeftBehind, NeverOdd, KeptPoints;
    PointsAreCommon(Matches(str1, str2, DefaultEq()), points, |str1|, |str2|);
  }

  /** The common subsequence of two strings that the diff leaves behind, and the length of their shortest
      edit script.  The result is common to both strings, and the program's own assertion about that
      holds, but it is not always a longest one.  It is one when the strings have nothing in common.  When
      halving the length of the script never gives an odd number above one, only then.  In between, it is
      one if all choices of middle slides leave a longest one behind, and only if some do; so then it lies
      on few diagonal runs. */
  method ComputeLcs(str1: string, str2: string) returns (sesLen: nat, lcs: string, ghost points: seq<Point>)
    ensures sesLen == Dist(Matches(str1, str2, DefaultEq()), |str1|, |str2|)
    ensures |points| == |lcs|
    ensures forall x :: 0 <= x < |points| ==>
              0 <= points[x].x < |str1| && 0 <= points[x].y < |str2| && lcs[x] == str1[points[x].x] == str2[points[x].y]
    ensures forall x, y :: 0 <= x < y < |points| ==> points[x].x < points[y].x && points[x].y < points[y].y
    ensures LeftBehind(str1, 0, |str1|, str2, 0, |str2|, DefaultEq(), sesLen, points)
    ensures LongestWhen(str1, str2, sesLen, |lcs|)
    ensures NeverOdd(sesLen) ==> lcs == ""
  {
    hide Dist, NoneLonger, IsShortestScript, InOrder, NeverOdd, OddHalvings, Runs, LeftBehind, LongestWhen;
    ghost var m := Matches(str1, str2, DefaultEq());
    var result := new PointVec();
    var ses := new EditScript();
    var n := DiffSequences(str1, str2, DefaultEq(), result, ses);
    sesLen := ses.Length();
    lcs, points := "", result.points;
    assert points[0..] == points;
    assert forall x :: 0 <= x < |points| ==> m(points[x].x, points[x].y);
    var i := 0;
    while i < |result.points|
      invariant 0 <= i <= |points| && |lcs| == i && result.points == points
      invariant forall x :: 0 <= x < i ==> lcs[x] == str1[points[x].x]
    {
      var x, y := result.points[i].x, result.points[i].y;
      assert m(x, y);
      assert str1[x] == str2[y];
      lcs := lcs + [str1[x]];
      i := i + 1;
    }
    LongestWhenLeft(str1, str2, sesLen, points);
  }

  lemma PointsAreCommon(m: Match, points: seq<Point>, M: nat, N: nat)
    requires KeptPoints(m, points, M, N, [], [])
    ensures 2 * |points| + Dist(m, M, N) <= M + N
  {
    hide Dist;
    var cs: seq<(nat, nat)> := seq(|points|, x requires 0 <= x < |points| => (points[x].x, points[x].y));
    NoLongerCommonSubsequence(m, cs, M, N);
  }

  /** Two strings that share a character have a common subsequence, so when halving the length of their
      shortest script never gives an odd number above one, the empty one that is left behind is not a
      longest one.  In particular so for a string and itself. */
  lemma SharedCharacterIsMissed(str1: string, str2: string, i: nat, j: nat)
    requires i < |str1| && j < |str2| && str1[i] == str2[j]
    ensures var m := Matches(str1, str2, DefaultEq());
            Dist(m, |str1|, |str2|) < |str1| + |str2| && !NoneLonger(m, 0, |str1|, |str2|)
    ensures str1 == str2 ==> Dist(Matches(str1, str2, DefaultEq()), |str1|, |str2|) == 0 && NeverOdd(0)
  {
    hide Dist;
    var m := Matches(str1, str2, DefaultEq());
    var cs: seq<(nat, nat)> := [(i, j)];
    assert IsCommonSubsequence(m, cs, |str1|, |str2|);
    NoLongerCommonSubsequence(m, cs, |str1|, |str2|);
    if str1 == str2 {
      var all: seq<(nat, nat)> := seq(|str1|, x requires 0 <= x < |str1| => (x, x));
      NoLongerCommonSubsequence(m, all, |str1|, |str2|);
    }
  }
}
