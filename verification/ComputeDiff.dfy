/** The divide and conquer that turns middle snakes into a shortest edit script. */
module ComputeDiff {
  import opened EditGraph
  import opened MiddleSnake
  import opened EditScripts

  /** A vector of points that is passed by reference and appended to. */
  class PointVec {
    var points: seq<Point>

    constructor ()
      ensures points == []
    {
      points := [];
    }
  }

  // ----- Sub-regions of the two sequences

  /** The length of a shortest script for a[aBegin..aEnd] and b[bBegin..bEnd]. */
  ghost function Shortest<T>(a: seq<T>, aBegin: nat, aEnd: nat, b: seq<T>, bBegin: nat, bEnd: nat,
                             eq: (T, T) -> bool): nat
    requires aBegin <= aEnd <= |a| && bBegin <= bEnd <= |b|
  {
    Dist(Matches(a[aBegin..aEnd], b[bBegin..bEnd], eq), aEnd - aBegin, bEnd - bBegin)
  }

  /** A slide in a sub-region is a slide in the whole sequences. */
  lemma SlideInBase<T>(a: seq<T>, aBegin: nat, aEnd: nat, b: seq<T>, bBegin: nat, bEnd: nat, eq: (T, T) -> bool,
                       i: nat, j: nat, t: nat)
    requires aBegin <= aEnd <= |a| && bBegin <= bEnd <= |b|
    requires Slide(Matches(a[aBegin..aEnd], b[bBegin..bEnd], eq), i, j, t)
    ensures Slide(Matches(a, b, eq), aBegin + i, bBegin + j, t)
  {
    var m := Matches(a[aBegin..aEnd], b[bBegin..bEnd], eq);
    forall x, y | aBegin + i <= x < aBegin + i + t && y - x == bBegin + j - (aBegin + i)
      ensures Matches(a, b, eq)(x, y)
    {
      assert m(x - aBegin, y - bBegin);
    }
  }

  /** The part in front of a node is a problem of the distance of that node. */
  lemma ShortestBefore<T>(a: seq<T>, aBegin: nat, aEnd: nat, b: seq<T>, bBegin: nat, bEnd: nat, eq: (T, T) -> bool,
                          i: nat, j: nat)
    requires aBegin <= aEnd <= |a| && bBegin <= bEnd <= |b| && i <= aEnd - aBegin && j <= bEnd - bBegin
    ensures Shortest(a, aBegin, aBegin + i, b, bBegin, bBegin + j, eq)
         == Dist(Matches(a[aBegin..aEnd], b[bBegin..bEnd], eq), i, j)
  {
    hide Dist;
    DistCongruence(Matches(a[aBegin..aBegin + i], b[bBegin..bBegin + j], eq),
                   Matches(a[aBegin..aEnd], b[bBegin..bEnd], eq), i, j);
  }

  /** The part behind a node is a problem of the distance from that node to the end. */
  lemma ShortestBehind<T>(a: seq<T>, aBegin: nat, aEnd: nat, b: seq<T>, bBegin: nat, bEnd: nat, eq: (T, T) -> bool,
                          i: nat, j: nat)
    requires aBegin <= aEnd <= |a| && bBegin <= bEnd <= |b| && i <= aEnd - aBegin && j <= bEnd - bBegin
    ensures Shortest(a, aBegin + i, aEnd, b, bBegin + j, bEnd, eq)
         == DistToEnd(Matches(a[aBegin..aEnd], b[bBegin..bEnd], eq), aEnd - aBegin, bEnd - bBegin, i, j)
  {
    hide Dist;
    var M, N := aEnd - aBegin, bEnd - bBegin;
    var behind := Matches(a[aBegin + i..aEnd], b[bBegin + j..bEnd], eq);
    DistRotated(behind, M - i, N - j);
    DistCongruence(Rotated(behind, M - i, N - j), Rotated(Matches(a[aBegin..aEnd], b[bBegin..bEnd], eq), M, N),
                   M - i, N - j);
  }

  // ----- Walks of one kind of step

  ghost function KeepRun(i: nat, j: nat, t: nat): seq<Step> {
    if t == 0 then [] else KeepRun(i, j, t - 1) + [Keep(i + t - 1, j + t - 1)]
  }

  ghost function DeleteRun(i: nat, t: nat): seq<Step> {
    if t == 0 then [] else DeleteRun(i, t - 1) + [Delete(i + t - 1)]
  }

  ghost function InsertRun(point: int, j: nat, t: nat): seq<Step> {
    if t == 0 then [] else InsertRun(point, j, t - 1) + [Insert(point, j + t - 1)]
  }

  lemma {:induction false} KeepRunWalks(m: Match, i: nat, j: nat, t: nat)
    requires Slide(m, i, j, t)
    ensures IsWalk(m, KeepRun(i, j, t), i, j, i + t, j + t)
    ensures Deletions(KeepRun(i, j, t)) == [] && Insertions(KeepRun(i, j, t)) == []
    ensures |Keeps(KeepRun(i, j, t))| == t
    ensures forall z :: 0 <= z < t ==> Keeps(KeepRun(i, j, t))[z] == (i + z, j + z)
  {
    hide IsWalk, Deletions, Insertions, Keeps;
    if t == 0 {
      EmptyWalk(m, i, j);
    } else {
      KeepRunWalks(m, i, j, t - 1);
      WalkStep(m, KeepRun(i, j, t - 1), Keep(i + t - 1, j + t - 1), i, j, i + t - 1, j + t - 1);
      ScriptStep(KeepRun(i, j, t - 1), Keep(i + t - 1, j + t - 1));
    }
  }

  /** Deleting everything walks down one side of the rectangle. */
  lemma {:induction false} DeleteRunWalks(m: Match, i: nat, j: nat, t: nat)
    ensures IsWalk(m, DeleteRun(i, t), i, j, i + t, j)
    ensures Deletions(DeleteRun(i, t)) == seq(t, z => i + z) && Insertions(DeleteRun(i, t)) == []
    ensures Keeps(DeleteRun(i, t)) == []
  {
    hide IsWalk, Deletions, Insertions, Keeps;
    if t == 0 {
      EmptyWalk(m, i, j);
    } else {
      DeleteRunWalks(m, i, j, t - 1);
      WalkStep(m, DeleteRun(i, t - 1), Delete(i + t - 1), i, j, i + t - 1, j);
      ScriptStep(DeleteRun(i, t - 1), Delete(i + t - 1));
    }
  }

  lemma {:induction false} InsertRunWalks(m: Match, i: nat, j: nat, t: nat)
    ensures IsWalk(m, InsertRun(i - 1, j, t), i, j, i, j + t)
    ensures Insertions(InsertRun(i - 1, j, t)) == seq(t, z requires 0 <= z => Inserted(i - 1, j + z))
    ensures Deletions(InsertRun(i - 1, j, t)) == [] && Keeps(InsertRun(i - 1, j, t)) == []
  {
    hide IsWalk, Deletions, Insertions, Keeps;
    if t == 0 {
      EmptyWalk(m, i, j);
    } else {
      InsertRunWalks(m, i, j, t - 1);
      WalkStep(m, InsertRun(i - 1, j, t - 1), Insert(i - 1, j + t - 1), i, j, i, j + t - 1);
      ScriptStep(InsertRun(i - 1, j, t - 1), Insert(i - 1, j + t - 1));
    }
  }

  // ----- Distance zero

  lemma {:induction false} ZeroDistSlides(m: Match, i: nat, j: nat)
    requires Dist(m, i, j) == 0
    ensures i == j && Slide(m, 0, 0, i)
    decreases i
  {
    if i > 0 && j > 0 {
      assert m(i - 1, j - 1);
      ZeroDistSlides(m, i - 1, j - 1);
    }
  }

  lemma ZeroDistToEndSlides(m: Match, M: nat, N: nat, i: nat, j: nat)
    requires i <= M && j <= N && DistToEnd(m, M, N, i, j) == 0
    ensures M - i == N - j && Slide(m, i, j, M - i)
  {
    var rot := Rotated(m, M, N);
    ZeroDistSlides(rot, M - i, N - j);
    forall x, y | i <= x < M && y - x == j - i
      ensures m(x, y)
    {
      assert rot(M - 1 - x, N - 1 - y);
    }
  }

  // ----- What the results mean

  /** The script object holds exactly the script of the walk. */
  ghost predicate Spells(ses: EditScript, w: seq<Step>)
    reads ses
  {
    ses.deletions == Deletions(w) && Flat(ses.insertions) == Insertions(w)
  }

  /** The points are match points of the walk, in its order. */
  ghost predicate IsTrace(points: seq<Point>, w: seq<Step>) {
    && (forall x :: 0 <= x < |points| ==>
          0 <= points[x].x && 0 <= points[x].y && (points[x].x, points[x].y) in Keeps(w))
    && (forall x, y :: 0 <= x < y < |points| ==> points[x].x < points[y].x && points[x].y < points[y].y)
  }

  lemma TraceConcat(m: Match, p: seq<Point>, v: seq<Step>, q: seq<Point>, w: seq<Step>, i0: nat, j0: nat, i1: nat,
                    j1: nat, i2: nat, j2: nat)
    requires IsWalk(m, v, i0, j0, i1, j1) && IsWalk(m, w, i1, j1, i2, j2)
    requires IsTrace(p, v) && IsTrace(q, w)
    ensures IsTrace(p + q, v + w)
  {
    ScriptConcat(v, w);
    WalkKeeps(m, v, i0, j0, i1, j1);
    WalkKeeps(m, w, i1, j1, i2, j2);
    var r := p + q;
    forall x | 0 <= x < |r|
      ensures 0 <= r[x].x && 0 <= r[x].y && (r[x].x, r[x].y) in Keeps(v + w)
    {
      if x < |p| {
        assert (p[x].x, p[x].y) in Keeps(v);
      } else {
        assert (q[x - |p|].x, q[x - |p|].y) in Keeps(w);
      }
    }
    forall x, y | 0 <= x < y < |r|
      ensures r[x].x < r[y].x && r[x].y < r[y].y
    {
      if x < |p| <= y {
        assert (p[x].x, p[x].y) in Keeps(v);
        assert (q[y - |p|].x, q[y - |p|].y) in Keeps(w);
      }
    }
  }

  function CeilLog2(n: nat): nat {
    if n <= 1 then 0 else 1 + CeilLog2((n + 1) / 2)
  }

  lemma {:induction false} CeilLog2Monotone(p: nat, q: nat)
    requires p <= q
    ensures CeilLog2(p) <= CeilLog2(q)
    decreases q
  {
    if q > 1 && p > 1 {
      CeilLog2Monotone((p + 1) / 2, (q + 1) / 2);
    }
  }

  /** Halving n, rounding either way, never gives an odd number other than 1.  The powers of two are
      such numbers. */
  predicate NeverOdd(n: nat) {
    n <= 1 || (n % 2 == 0 && NeverOdd(n / 2))
  }

  /** How many regions with an odd distance greater than 1 the recursion comes to. */
  function OddHalvings(n: nat): nat {
    if n <= 1 then 0 else n % 2 + OddHalvings((n + 1) / 2) + OddHalvings(n / 2)
  }

  lemma {:induction false} NeverOddHalvings(n: nat)
    ensures OddHalvings(n) == 0 <==> NeverOdd(n)
  {
    if n > 1 {
      NeverOddHalvings((n + 1) / 2);
      NeverOddHalvings(n / 2);
    }
  }

  /** The number of unbroken diagonals that the points are made of. */
  function Runs(points: seq<Point>): (r: nat)
    ensures r == 0 <==> points == []
  {
    if points == [] then 0
    else
      var n := |points| - 1;
      var joined := n > 0 && points[n].x == points[n - 1].x + 1 && points[n].y == points[n - 1].y + 1;
      Runs(points[..n]) + if joined then 0 else 1
  }

  lemma {:induction false} RunsConcat(p: seq<Point>, q: seq<Point>)
    ensures Runs(p + q) <= Runs(p) + Runs(q)
  {
    if q == [] {
      assert p + q == p;
    } else {
      var n := |q| - 1;
      RunsConcat(p, q[..n]);
      assert (p + q)[..|p| + n] == p + q[..n];
    }
  }

  lemma {:induction false} SlideIsOneRun(i: int, j: int, t: nat)
    ensures Runs(SlidePoints(i, j, t)) <= 1
  {
    if t > 0 {
      SlideIsOneRun(i, j, t - 1);
      var points := SlidePoints(i, j, t);
      assert points[..t - 1] == SlidePoints(i, j, t - 1);
      assert points[t - 1] == At(i + (t - 1), j + (t - 1));
      assert t > 1 ==> points[t - 2] == At(i + (t - 2), j + (t - 2));
    }
  }

  // ----- The middle snake in terms of the whole sequences

  /** The points the program reads off a snake: from the start of its diagonal edges up to its end. */
  function DiagonalPoints(s: Snake): seq<Point> {
    if !s.HasDiagonalEdge() || s.diagonalStart.x > s.end.x || s.diagonalStart.y > s.end.y then []
    else
      var dx, dy := s.end.x - s.diagonalStart.x, s.end.y - s.diagonalStart.y;
      seq((if dx <= dy then dx else dy) + 1, z => At(s.diagonalStart.x + z, s.diagonalStart.y + z))
  }

  method BuildTrace(s: Snake) returns (trace: seq<Point>)
    ensures trace == DiagonalPoints(s)
  {
    trace := [];
    if s.HasDiagonalEdge() {
      var x, y := s.diagonalStart.x, s.diagonalStart.y;
      while x <= s.end.x && y <= s.end.y
        invariant x - s.diagonalStart.x == y - s.diagonalStart.y == |trace|
        invariant trace == seq(|trace|, z => At(s.diagonalStart.x + z, s.diagonalStart.y + z))
        invariant trace == [] || (x <= s.end.x + 1 && y <= s.end.y + 1)
      {
        trace := trace + [At(x, y)];
        x := x + 1;
        y := y + 1;
      }
    }
  }

  /** A region of the two sequences. */
  ghost predicate Region<T>(a: seq<T>, aBegin: nat, aEnd: nat, b: seq<T>, bBegin: nat, bEnd: nat) {
    aBegin <= aEnd <= |a| && bBegin <= bEnd <= |b|
  }

  /** The slide of t matches from the node (i, j), which divides a region whose shortest script has d elements:
      half of them, rounded up, are in front of it, and the others are behind it.  When d is odd, the node is
      where an edit leads, and the slide goes on until the first mismatch, or the end of a sequence. */
  ghost predicate Divides<T>(a: seq<T>, aBegin: nat, aEnd: nat, b: seq<T>, bBegin: nat, bEnd: nat,
                             eq: (T, T) -> bool,
                             i: nat, j: nat, t: nat, d: nat) {
    && aEnd <= |a| && bEnd <= |b|
    && aBegin <= i <= i + t <= aEnd && bBegin <= j <= j + t <= bEnd
    && Slide(Matches(a, b, eq), i, j, t)
    && Shortest(a, aBegin, i, b, bBegin, j, eq) == (d + 1) / 2
    && Shortest(a, i + t, aEnd, b, j + t, bEnd, eq) == d / 2
    && (d % 2 == 1 ==>
          && ((i > aBegin && Shortest(a, aBegin, i - 1, b, bBegin, j, eq) == d / 2)
              || (j > bBegin && Shortest(a, aBegin, i, b, bBegin, j - 1, eq) == d / 2))
          && (i + t == aEnd || j + t == bEnd || !eq(a[i + t], b[j + t])))
  }

  /** The points in front of the slide, those of the slide itself when d is odd, and those behind it. */
  ghost predicate InThreeParts(points: seq<Point>, d: nat, p: seq<Point>, i: nat, j: nat, t: nat, q: seq<Point>) {
    points == p + (if d % 2 == 1 then SlidePoints(i, j, t) else []) + q
  }

  /** What the diff of a region with d edits leaves behind: nothing when there is at most one, or nothing to
      compare; and else what the part in front of a slide leaves behind, the slide itself when d is odd, and
      what the part behind it leaves. */
  ghost predicate LeftBehind<T>(a: seq<T>, aBegin: nat, aEnd: nat, b: seq<T>, bBegin: nat, bEnd: nat,
                                eq: (T, T) -> bool, d: nat, points: seq<Point>)
    decreases d
  {
    if d <= 1 || aBegin == aEnd || bBegin == bEnd then points == []
    else exists i: nat, j: nat, t: nat, p, q ::
      && Divides(a, aBegin, aEnd, b, bBegin, bEnd, eq, i, j, t, d)
      && InThreeParts(points, d, p, i, j, t, q)
      && LeftBehind(a, aBegin, i, b, bBegin, j, eq, (d + 1) / 2, p)
      && LeftBehind(a, i + t, aEnd, b, j + t, bEnd, eq, d / 2, q)
  }

  /** The points have been added that the diff of the region leaves behind. */
  ghost predicate LeavesBehind<T>(a: seq<T>, aBegin: nat, aEnd: nat, b: seq<T>, bBegin: nat, bEnd: nat,
                                  eq: (T, T) -> bool, d: nat, before: seq<Point>, after: seq<Point>) {
    before <= after && LeftBehind(a, aBegin, aEnd, b, bBegin, bEnd, eq, d, after[|before|..])
  }

  lemma LeavesNothing<T>(a: seq<T>, aBegin: nat, aEnd: nat, b: seq<T>, bBegin: nat, bEnd: nat, eq: (T, T) -> bool,
                         d: nat, points: seq<Point>)
    requires d <= 1 || aBegin == aEnd || bBegin == bEnd
    ensures LeavesBehind(a, aBegin, aEnd, b, bBegin, bEnd, eq, d, points, points)
  {
    assert points[|points|..] == [];
  }

  /** The two parts and the slide in between leave behind what the region does. */
  lemma LeavesHalves<T>(a: seq<T>, aBegin: nat, aEnd: nat, b: seq<T>, bBegin: nat, bEnd: nat, eq: (T, T) -> bool,
                        i: nat, j: nat, t: nat, d: nat, p0: seq<Point>, p1: seq<Point>, p2: seq<Point>,
                        p3: seq<Point>)
    requires d > 1 && aBegin < aEnd && bBegin < bEnd
    requires Divides(a, aBegin, aEnd, b, bBegin, bEnd, eq, i, j, t, d)
    requires LeavesBehind(a, aBegin, i, b, bBegin, j, eq, (d + 1) / 2, p0, p1)
    requires p2 == p1 + if d % 2 == 1 then SlidePoints(i, j, t) else []
    requires LeavesBehind(a, i + t, aEnd, b, j + t, bEnd, eq, d / 2, p2, p3)
    ensures LeavesBehind(a, aBegin, aEnd, b, bBegin, bEnd, eq, d, p0, p3)
  {
    hide SlidePoints, Divides;
    var p, q := p1[|p0|..], p3[|p2|..];
    assert InThreeParts(p3[|p0|..], d, p, i, j, t, q);
  }

  /** So few diagonals are left behind. */
  lemma {:induction false} LeftBehindRuns<T>(a: seq<T>, aBegin: nat, aEnd: nat, b: seq<T>, bBegin: nat, bEnd: nat,
                                             eq: (T, T) -> bool,
                                             d: nat, points: seq<Point>)
    requires LeftBehind(a, aBegin, aEnd, b, bBegin, bEnd, eq, d, points)
    ensures Runs(points) <= OddHalvings(d)
    decreases d
  {
    hide Divides, SlidePoints, Runs;
    if d > 1 && aBegin != aEnd && bBegin != bEnd {
      var i: nat, j: nat, t: nat, p, q :|
        && Divides(a, aBegin, aEnd, b, bBegin, bEnd, eq, i, j, t, d) && InThreeParts(points, d, p, i, j, t, q)
        && LeftBehind(a, aBegin, i, b, bBegin, j, eq, (d + 1) / 2, p)
        && LeftBehind(a, i + t, aEnd, b, j + t, bEnd, eq, d / 2, q);
      LeftBehindRuns(a, aBegin, i, b, bBegin, j, eq, (d + 1) / 2, p);
      LeftBehindRuns(a, i + t, aEnd, b, j + t, bEnd, eq, d / 2, q);
      var slide := if d % 2 == 1 then SlidePoints(i, j, t) else [];
      SlideIsOneRun(i, j, t);
      RunsConcat(p, slide);
      RunsConcat(p + slide, q);
    }
  }

  /** The ends of the snake cut a region into two halves, with nothing but matches between them, and a
      shortest script of d elements into two halves as well. */
  ghost predicate SplitsRegion<T>(a: seq<T>, aBegin: nat, aEnd: nat, b: seq<T>, bBegin: nat, bEnd: nat,
                                  eq: (T, T) -> bool,
                                  s: Snake, d: nat)
    requires Region(a, aBegin, aEnd, b, bBegin, bEnd)
  {
    var ends := SnakeEndPoints(s);
    && ends.EndPoints?
    && aBegin <= ends.x.x + 1 <= ends.u.x + 1 <= aEnd && bBegin <= ends.x.y + 1 <= ends.u.y + 1 <= bEnd
    && ends.u.x - ends.x.x == ends.u.y - ends.x.y
    && Divides(a, aBegin, aEnd, b, bBegin, bEnd, eq, ends.x.x + 1, ends.x.y + 1, ends.u.x - ends.x.x, d)
    && DiagonalPoints(s) == if d % 2 == 0 then [] else SlidePoints(ends.x.x + 1, ends.x.y + 1, ends.u.x - ends.x.x)
  }

  /** The middle snake of a region splits it. */
  lemma MiddleOfRegion<T>(a: seq<T>, aBegin: nat, aEnd: nat, b: seq<T>, bBegin: nat, bEnd: nat, eq: (T, T) -> bool,
                          s: Snake, d: nat)
    requires Region(a, aBegin, aEnd, b, bBegin, bEnd)
    requires IsMiddleSnake(Matches(a[aBegin..aEnd], b[bBegin..bEnd], eq), aEnd - aBegin, bEnd - bBegin, s, d)
    ensures SplitsRegion(a, aBegin, aEnd, b, bBegin, bEnd, eq, s.Add(aBegin, bBegin), d)
  {
    hide Dist, Slide, Matches, Shortest;
    var ends := SnakeEndPoints(s);
    var i, j, u, v := ends.x.x + 1, ends.x.y + 1, ends.u.x + 1, ends.u.y + 1;
    SlideInBase(a, aBegin, aEnd, b, bBegin, bEnd, eq, i, j, u - i);
    ShortestBefore(a, aBegin, aEnd, b, bBegin, bEnd, eq, i, j);
    ShortestBehind(a, aBegin, aEnd, b, bBegin, bEnd, eq, u, v);
    if d % 2 == 1 {
      EntersByEdit(a, aBegin, aEnd, b, bBegin, bEnd, eq, s, d);
    }
  }

  /** A forward snake starts with an edit, and slides as far as it gets. */
  lemma EntersByEdit<T>(a: seq<T>, aBegin: nat, aEnd: nat, b: seq<T>, bBegin: nat, bEnd: nat, eq: (T, T) -> bool,
                        s: Snake, d: nat)
    requires Region(a, aBegin, aEnd, b, bBegin, bEnd) && d % 2 == 1
    requires IsMiddleSnake(Matches(a[aBegin..aEnd], b[bBegin..bEnd], eq), aEnd - aBegin, bEnd - bBegin, s, d)
    ensures var i, j, u, v :=
              aBegin + s.intermediate.x + 1, bBegin + s.intermediate.y + 1, aBegin + s.end.x + 1, bBegin + s.end.y + 1;
            && ((i > aBegin && Shortest(a, aBegin, i - 1, b, bBegin, j, eq) == d / 2)
                || (j > bBegin && Shortest(a, aBegin, i, b, bBegin, j - 1, eq) == d / 2))
            && (u == aEnd || v == bEnd || !eq(a[u], b[v]))
  {
    hide Dist, Slide, Shortest;
    var m := Matches(a[aBegin..aEnd], b[bBegin..bEnd], eq);
    var i, j := s.begin.x + 1, s.begin.y + 1;
    ShortestBefore(a, aBegin, aEnd, b, bBegin, bEnd, eq, i, j);
    DistNeighbours(m, i, j);
  }

  /** The points of t diagonal edges from the node (i, j). */
  function SlidePoints(i: int, j: int, t: nat): seq<Point> {
    seq(t, z => At(i + z, j + z))
  }

  lemma SlidePointsAreTrace(m: Match, i: nat, j: nat, t: nat)
    requires Slide(m, i, j, t)
    ensures IsTrace(SlidePoints(i, j, t), KeepRun(i, j, t)) && IsTrace([], KeepRun(i, j, t))
  {
    hide KeepRun, Keeps, IsWalk, Slide;
    KeepRunWalks(m, i, j, t);
    var points, keeps := SlidePoints(i, j, t), Keeps(KeepRun(i, j, t));
    forall x | 0 <= x < t
      ensures points[x].x == i + x && points[x].y == j + x && (points[x].x, points[x].y) in keeps
    {
      assert points[x] == At(i + x, j + x);
      assert keeps[x] == (i + x, j + x);
    }
  }

  /** A forward snake at distance 1 has the one edit in front, and nothing but matches around it. */
  lemma OneEdit<T>(a: seq<T>, aBegin: nat, aEnd: nat, b: seq<T>, bBegin: nat, bEnd: nat, eq: (T, T) -> bool, s: Snake)
    requires Region(a, aBegin, aEnd, b, bBegin, bEnd)
    requires IsMiddleSnake(Matches(a[aBegin..aEnd], b[bBegin..bEnd], eq), aEnd - aBegin, bEnd - bBegin, s, 1)
    ensures var g := s.Add(aBegin, bBegin);
            && g.forward && Adjacent(g.begin, g.intermediate)
            && aBegin <= g.begin.x + 1 && g.intermediate.x + 1 <= aEnd
            && g.begin.x + 1 - aBegin == g.begin.y + 1 - bBegin
            && aEnd - g.intermediate.x == bEnd - g.intermediate.y
            && Slide(Matches(a, b, eq), aBegin, bBegin, g.begin.x + 1 - aBegin)
            && Slide(Matches(a, b, eq), g.intermediate.x + 1, g.intermediate.y + 1, aEnd - (g.intermediate.x + 1))
  {
    hide Dist, Matches;
    var m := Matches(a[aBegin..aEnd], b[bBegin..bEnd], eq);
    var M, N := aEnd - aBegin, bEnd - bBegin;
    ZeroDistSlides(m, s.begin.x + 1, s.begin.y + 1);
    ZeroDistToEndSlides(m, M, N, s.end.x + 1, s.end.y + 1);
    SlideInBase(a, aBegin, aEnd, b, bBegin, bEnd, eq, 0, 0, s.begin.x + 1);
    SlideInBase(a, aBegin, aEnd, b, bBegin, bEnd, eq, s.intermediate.x + 1, s.intermediate.y + 1,
                M - (s.intermediate.x + 1));
  }

  // ----- The branches of the recursion

  /** One of the two regions is empty: delete, or insert, everything there is in the other one. */
  method DiffWithEmpty(aBegin: nat, aEnd: nat, bBegin: nat, bEnd: nat, ses: EditScript, ghost m: Match)
    returns (ghost w: seq<Step>)
    requires aBegin <= aEnd && bBegin <= bEnd && (aBegin == aEnd || bBegin == bEnd)
    requires ses.insertions == [] && ses.deletions == []
    modifies ses
    ensures IsWalk(m, w, aBegin, bBegin, aEnd, bEnd) && Spells(ses, w)
    ensures |Deletions(w)| + |Insertions(w)| == aEnd - aBegin + bEnd - bBegin
  {
    hide IsWalk, Deletions, Insertions;
    w := [];
    EmptyWalk(m, aBegin, bBegin);
    if aEnd > aBegin && bBegin == bEnd {
      var i := aBegin;
      while i < aEnd
        invariant aBegin <= i <= aEnd && ses.insertions == []
        invariant ses.deletions == seq(i - aBegin, z => aBegin + z)
      {
        ses.deletions := ses.deletions + [i];
        i := i + 1;
      }
      w := DeleteRun(aBegin, aEnd - aBegin);
      DeleteRunWalks(m, aBegin, bBegin, aEnd - aBegin);
    }
    if bEnd > bBegin && aBegin == aEnd {
      var insertionIndex := if aEnd != 0 then aEnd - 1 else -1;
      var indexes: seq<nat> := [];
      var j := bBegin;
      while j < bEnd
        invariant bBegin <= j <= bEnd
        invariant indexes == seq(j - bBegin, z requires 0 <= z => bBegin + z)
      {
        indexes := indexes + [j];
        j := j + 1;
      }
      var ins := Insertion(insertionIndex, indexes);
      ses.insertions := ses.insertions + [ins];
      w := InsertRun(aBegin - 1, bBegin, bEnd - bBegin);
      InsertRunWalks(m, aBegin, bBegin, bEnd - bBegin);
      FlatOne(ins);
      assert Flat(ses.insertions) == Insertions(w);
    }
  }

  lemma FlatOne(ins: Insertion)
    ensures Flat([ins]) == seq(|ins.indexes|, z requires 0 <= z < |ins.indexes| => Inserted(ins.point, ins.indexes[z]))
  {
  }

  /** The script of a region at distance 1. */
  method DiffOfOneEdit<T>(a: seq<T>, aBegin: nat, aEnd: nat, b: seq<T>, bBegin: nat, bEnd: nat, eq: (T, T) -> bool,
                          snak: Snake, ses: EditScript, ghost local: Snake)
    returns (ghost w: seq<Step>)
    requires Region(a, aBegin, aEnd, b, bBegin, bEnd)
    requires IsMiddleSnake(Matches(a[aBegin..aEnd], b[bBegin..bEnd], eq), aEnd - aBegin, bEnd - bBegin, local, 1)
    requires snak == local.Add(aBegin, bBegin)
    requires ses.insertions == [] && ses.deletions == []
    modifies ses
    ensures IsWalk(Matches(a, b, eq), w, aBegin, bBegin, aEnd, bEnd) && Spells(ses, w)
    ensures |Deletions(w)| + |Insertions(w)| == 1
  {
    hide Dist, Matches, Slide, IsWalk, Deletions, Insertions, IsMiddleSnake;
    OneEdit(a, aBegin, aEnd, b, bBegin, bEnd, eq, local);
    ghost var m := Matches(a, b, eq);
    ghost var i, j := snak.begin.x + 1, snak.begin.y + 1;
    ghost var u, v := snak.intermediate.x + 1, snak.intermediate.y + 1;
    ghost var step;
    if snak.HasVerticalEdge() {
      var p := snak.intermediate;
      var ins := Insertion(p.x, [p.y]);
      ses.insertions := ses.insertions + [ins];
      step := Insert(p.x, p.y);
      FlatOne(ins);
    } else if snak.HasHorizontalEdge() {
      var index := if snak.forward then snak.intermediate.x else snak.begin.x;
      ses.deletions := ses.deletions + [index];
      step := Delete(index);
    }
    w := JoinAround(m, aBegin, bBegin, i, j, step, u, v, aEnd, bEnd);
  }

  /** Matches, one edit, and matches again. */
  lemma JoinAround(m: Match, i0: nat, j0: nat, i: nat, j: nat, step: Step, u: nat, v: nat, i1: nat, j1: nat)
    returns (w: seq<Step>)
    requires i0 <= i && i - i0 == j - j0 && Slide(m, i0, j0, i - i0)
    requires u <= i1 && i1 - u == j1 - v && Slide(m, u, v, i1 - u)
    requires (step == Delete(i) && u == i + 1 && v == j) || (step == Insert(i - 1, j) && u == i && v == j + 1)
    ensures IsWalk(m, w, i0, j0, i1, j1)
    ensures Deletions(w) == StepDeletions(step) && Insertions(w) == StepInsertions(step)
  {
    hide Slide, IsWalk, Deletions, Insertions, Keeps, KeepRun, StepDeletions, StepInsertions, StepKeeps;
    var before, after := KeepRun(i0, j0, i - i0), KeepRun(u, v, i1 - u);
    KeepRunWalks(m, i0, j0, i - i0);
    KeepRunWalks(m, u, v, i1 - u);
    WalkStep(m, before, step, i0, j0, i, j);
    ScriptStep(before, step);
    WalkConcat(m, before + [step], after, i0, j0, u, v, i1, j1);
    ScriptConcat(before + [step], after);
    w := before + [step] + after;
    assert [] + StepDeletions(step) + [] == StepDeletions(step);
    assert [] + StepInsertions(step) + [] == StepInsertions(step);
  }

  // ----- The recursion

  /** The points added to the result belong to the walk. */
  ghost predicate TraceAdded(before: seq<Point>, after: seq<Point>, w: seq<Step>) {
    before <= after && IsTrace(after[|before|..], w)
  }

  /** The two halves of a region and the slide between them make up the walk of the region. */
  lemma JoinHalves(m: Match, w0: seq<Step>, w1: seq<Step>, i0: nat, j0: nat, i: nat, j: nat, t: nat, i1: nat, j1: nat,
                   p0: seq<Point>, p1: seq<Point>, p2: seq<Point>, p3: seq<Point>)
    returns (w: seq<Step>)
    requires IsWalk(m, w0, i0, j0, i, j) && Slide(m, i, j, t) && IsWalk(m, w1, i + t, j + t, i1, j1)
    requires TraceAdded(p0, p1, w0) && (p2 == p1 || p2 == p1 + SlidePoints(i, j, t)) && TraceAdded(p2, p3, w1)
    ensures IsWalk(m, w, i0, j0, i1, j1)
    ensures Deletions(w) == Deletions(w0) + Deletions(w1) && Insertions(w) == Insertions(w0) + Insertions(w1)
    ensures TraceAdded(p0, p3, w)
  {
    hide Slide, IsWalk, Deletions, Insertions, Keeps, KeepRun, IsTrace, SlidePoints;
    var run := KeepRun(i, j, t);
    KeepRunWalks(m, i, j, t);
    WalkConcat(m, w0, run, i0, j0, i, j, i + t, j + t);
    ScriptConcat(w0, run);
    WalkConcat(m, w0 + run, w1, i0, j0, i + t, j + t, i1, j1);
    ScriptConcat(w0 + run, w1);
    w := w0 + run + w1;
    SlidePointsAreTrace(m, i, j, t);
    var q0, q1, q2 := p1[|p0|..], p2[|p1|..], p3[|p2|..];
    TraceConcat(m, q0, w0, q1, run, i0, j0, i, j, i + t, j + t);
    TraceConcat(m, q0 + q1, w0 + run, q2, w1, i0, j0, i + t, j + t, i1, j1);
    assert p3[|p0|..] == q0 + q1 + q2;
  }

  /** Turn a[aBegin..aEnd] into b[bBegin..bEnd].  The ghost results are the walk that the script spells
      out and the depth of the recursion. */
  method Diff<T>(a: seq<T>, aBegin: nat, aEnd: nat, b: seq<T>, bBegin: nat, bEnd: nat, eq: (T, T) -> bool,
                 lcs: PointVec, ses: EditScript)
    returns (sesLen: nat, ghost w: seq<Step>, ghost depth: nat)
    requires Region(a, aBegin, aEnd, b, bBegin, bEnd)
    requires ses.insertions == [] && ses.deletions == []
    modifies lcs, ses
    ensures sesLen == Shortest(a, aBegin, aEnd, b, bBegin, bEnd, eq) == |Deletions(w)| + |Insertions(w)|
    ensures IsWalk(Matches(a, b, eq), w, aBegin, bBegin, aEnd, bEnd) && Spells(ses, w)
    ensures TraceAdded(old(lcs.points), lcs.points, w)
    ensures LeavesBehind(a, aBegin, aEnd, b, bBegin, bEnd, eq, sesLen, old(lcs.points), lcs.points)
    ensures depth <= 1 + CeilLog2(sesLen)
    decreases Shortest(a, aBegin, aEnd, b, bBegin, bEnd, eq), 1
  {
    hide Dist, Matches, Slide, IsWalk, Deletions, Insertions, Keeps, IsTrace, IsMiddleSnake, DiagonalPoints,
         SlidePoints, Divides, LeavesBehind;
    var aSize, bSize := aEnd - aBegin, bEnd - bBegin;
    ghost var m := Matches(a, b, eq);
    depth := 1;
    if aSize == 0 || bSize == 0 {
      w := DiffWithEmpty(aBegin, aEnd, bBegin, bEnd, ses, m);
      DistBorder(Matches(a[aBegin..aEnd], b[bBegin..bEnd], eq), aSize + bSize);
      NothingTraced(lcs.points, w);
      LeavesNothing(a, aBegin, aEnd, b, bBegin, bEnd, eq, aSize + bSize, lcs.points);
      return aSize + bSize, w, depth;
    }
    var hasSnake, local, d := ComputeMiddleSnake(a[aBegin..aEnd], b[bBegin..bEnd], eq);
    MiddleOfRegion(a, aBegin, aEnd, b, bBegin, bEnd, eq, local, d);
    // The program also has a branch for the case that there is no middle snake.
    assert hasSnake;
    var snak := local.Add(aBegin, bBegin);
    sesLen := d;
    var trace := BuildTrace(snak);
    if d > 1 {
      w, depth := DiffHalves(a, aBegin, aEnd, b, bBegin, bEnd, eq, lcs, ses, snak, d, trace);
    } else if d == 1 {
      trace := trace + trace;
      w := DiffOfOneEdit(a, aBegin, aEnd, b, bBegin, bEnd, eq, snak, ses, local);
      NothingTraced(lcs.points, w);
      LeavesNothing(a, aBegin, aEnd, b, bBegin, bEnd, eq, d, lcs.points);
    } else {
      assert lcs.points + [] == lcs.points;
      lcs.points := lcs.points + trace;
      w := KeepRun(aBegin, bBegin, aSize);
      NoEdit(a, aBegin, aEnd, b, bBegin, bEnd, eq);
      NothingTraced(lcs.points, w);
      LeavesNothing(a, aBegin, aEnd, b, bBegin, bEnd, eq, d, lcs.points);
    }
    var length := ses.Length();
    assert sesLen == length;
  }

  lemma DepthOfHalves(d: nat, depth0: nat, depth1: nat)
    requires d > 1 && depth0 <= 1 + CeilLog2((d + 1) / 2) && depth1 <= 1 + CeilLog2(d / 2)
    ensures depth0 <= CeilLog2(d) && depth1 <= CeilLog2(d)
  {
    CeilLog2Monotone(d / 2, (d + 1) / 2);
  }

  /** Collect the scripts of the two halves, which together have d elements. */
  method AppendHalves(d: nat, ses: EditScript, ses0: EditScript, ses1: EditScript,
                      ghost w0: seq<Step>, ghost w1: seq<Step>, ghost w: seq<Step>)
    requires ses.insertions == [] && ses.deletions == [] && ses != ses0 && ses != ses1
    requires Spells(ses0, w0) && Spells(ses1, w1)
    requires Deletions(w) == Deletions(w0) + Deletions(w1) && Insertions(w) == Insertions(w0) + Insertions(w1)
    requires |Deletions(w)| + |Insertions(w)| == d
    modifies ses
    ensures Spells(ses, w)
  {
    hide Deletions, Insertions, Flat;
    FlatConcat(ses0.insertions, ses1.insertions);
    var l0 := ses0.Length();
    var l1 := ses1.Length();
    assert l0 + l1 == d;
    ses.Append(ses0);
    ses.Append(ses1);
    assert ses.insertions == ses0.insertions + ses1.insertions;
  }

  /** The two halves of a region whose shortest script has d > 1 elements, split at the ends of its middle
      snake.  Each half needs half of the elements, so the recursion ends. */
  method DiffHalves<T>(a: seq<T>, aBegin: nat, aEnd: nat, b: seq<T>, bBegin: nat, bEnd: nat, eq: (T, T) -> bool,
                       lcs: PointVec, ses: EditScript, snak: Snake, d: nat, trace: seq<Point>)
    returns (ghost w: seq<Step>, ghost depth: nat)
    requires Region(a, aBegin, aEnd, b, bBegin, bEnd)
    requires ses.insertions == [] && ses.deletions == []
    requires Shortest(a, aBegin, aEnd, b, bBegin, bEnd, eq) == d > 1 && aBegin < aEnd && bBegin < bEnd
    requires SplitsRegion(a, aBegin, aEnd, b, bBegin, bEnd, eq, snak, d) && trace == DiagonalPoints(snak)
    modifies lcs, ses
    ensures d == |Deletions(w)| + |Insertions(w)|
    ensures IsWalk(Matches(a, b, eq), w, aBegin, bBegin, aEnd, bEnd) && Spells(ses, w)
    ensures TraceAdded(old(lcs.points), lcs.points, w)
    ensures LeavesBehind(a, aBegin, aEnd, b, bBegin, bEnd, eq, d, old(lcs.points), lcs.points)
    ensures depth <= 1 + CeilLog2(d)
    decreases d, 0
  {
    hide Dist, Matches, Slide, IsWalk, Deletions, Insertions, Keeps, TraceAdded, DiagonalPoints, SlidePoints,
         Shortest, CeilLog2, LeavesBehind, Spells;
    var ends := SnakeEndPoints(snak);
    var px, pu := ends.x, ends.u;
    var ses0 := new EditScript();
    var len0, w0, depth0 := Diff(a, aBegin, px.x + 1, b, bBegin, px.y + 1, eq, lcs, ses0);
    ghost var p1 := lcs.points;
    lcs.points := lcs.points + trace;
    ghost var p2 := lcs.points;
    var ses1 := new EditScript();
    var len1, w1, depth1 := Diff(a, pu.x + 1, aEnd, b, pu.y + 1, bEnd, eq, lcs, ses1);
    w := JoinHalves(Matches(a, b, eq), w0, w1, aBegin, bBegin, px.x + 1, px.y + 1, pu.x - px.x, aEnd, bEnd,
                    old(lcs.points), p1, p2, lcs.points);
    LeavesHalves(a, aBegin, aEnd, b, bBegin, bEnd, eq, px.x + 1, px.y + 1, pu.x - px.x, d, old(lcs.points), p1, p2,
                 lcs.points);
    AppendHalves(d, ses, ses0, ses1, w0, w1, w);
    assert len0 + len1 == d;
    DepthOfHalves(d, depth0, depth1);
    depth := 1 + if depth0 >= depth1 then depth0 else depth1;
  }

  lemma NothingTraced(points: seq<Point>, w: seq<Step>)
    ensures TraceAdded(points, points, w)
  {
  }

  /** Regions at distance 0 match element by element. */
  lemma NoEdit<T>(a: seq<T>, aBegin: nat, aEnd: nat, b: seq<T>, bBegin: nat, bEnd: nat, eq: (T, T) -> bool)
    requires Region(a, aBegin, aEnd, b, bBegin, bEnd) && Shortest(a, aBegin, aEnd, b, bBegin, bEnd, eq) == 0
    ensures aEnd - aBegin == bEnd - bBegin
    ensures var w := KeepRun(aBegin, bBegin, aEnd - aBegin);
            && IsWalk(Matches(a, b, eq), w, aBegin, bBegin, aEnd, bEnd)
            && Deletions(w) == [] && Insertions(w) == []
  {
    hide Dist, Matches;
    ZeroDistSlides(Matches(a[aBegin..aEnd], b[bBegin..bEnd], eq), aEnd - aBegin, bEnd - bBegin);
    SlideInBase(a, aBegin, aEnd, b, bBegin, bEnd, eq, 0, 0, aEnd - aBegin);
    KeepRunWalks(Matches(a, b, eq), aBegin, bBegin, aEnd - aBegin);
  }
}
