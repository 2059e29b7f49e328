/** The edit graph of two sequences, as an abstract grid of match points.

  A node (i, j) stands for "i elements of the first sequence and j elements of the second one
  have been consumed"; the program writes the same node as the point (i - 1, j - 1).  The grid
  is not bounded: search paths may leave the rectangle of the two sequences, where there is no
  match point.  */
module EditGraph {

  /** m(i, j) says that element i of the first sequence matches element j of the second one. */
  type Match = (int, int) -> bool

  function Min(x: nat, y: nat): nat { if x <= y then x else y }

  function Abs(x: int): nat { if x < 0 then -x else x }

  /** The least number of non-diagonal edges on a path from (0, 0) to (i, j). */
  ghost function Dist(m: Match, i: nat, j: nat): nat {
    if i == 0 then j
    else if j == 0 then i
    else if m(i - 1, j - 1) then Dist(m, i - 1, j - 1)
    else 1 + Min(Dist(m, i - 1, j), Dist(m, i, j - 1))
  }

  lemma DistStep(m: Match, i: nat, j: nat)
    ensures m(i, j) ==> Dist(m, i + 1, j + 1) == Dist(m, i, j)
    ensures !m(i, j) ==> Dist(m, i + 1, j + 1) == 1 + Min(Dist(m, i, j + 1), Dist(m, i + 1, j))
  {
  }

  lemma DistBorder(m: Match, i: nat)
    ensures Dist(m, i, 0) == i && Dist(m, 0, i) == i
  {
  }

  // ----- Neighbouring nodes

  lemma {:induction false} DistNeighboursWeak(m: Match, i: nat, j: nat)
    ensures -1 <= Dist(m, i + 1, j) - Dist(m, i, j) <= 1
    ensures -1 <= Dist(m, i, j + 1) - Dist(m, i, j) <= 1
    decreases i + j
  {
    if i > 0 {
      DistNeighboursWeak(m, i - 1, j);
      DistStep(m, i - 1, j);
    }
    if j > 0 {
      DistNeighboursWeak(m, i, j - 1);
      DistStep(m, i, j - 1);
    }
  }

  lemma {:induction false} DistParity(m: Match, i: nat, j: nat)
    ensures (Dist(m, i, j) + i + j) % 2 == 0
    decreases i + j
  {
    if i > 0 && j > 0 {
      if m(i - 1, j - 1) {
        DistParity(m, i - 1, j - 1);
      } else {
        DistParity(m, i - 1, j);
        DistParity(m, i, j - 1);
      }
    }
  }

  /** Moving right or down by one changes the distance by exactly one. */
  lemma DistNeighbours(m: Match, i: nat, j: nat)
    ensures Abs(Dist(m, i + 1, j) - Dist(m, i, j)) == 1
    ensures Abs(Dist(m, i, j + 1) - Dist(m, i, j)) == 1
  {
    DistNeighboursWeak(m, i, j);
    DistParity(m, i, j);
    DistParity(m, i + 1, j);
    DistParity(m, i, j + 1);
  }

  /** Along a diagonal the distance grows by 0 or 2, and by 0 over a match point. */
  lemma DistDiagonal(m: Match, i: nat, j: nat)
    ensures Dist(m, i, j) <= Dist(m, i + 1, j + 1) <= Dist(m, i, j) + 2
    ensures m(i, j) ==> Dist(m, i + 1, j + 1) == Dist(m, i, j)
  {
    DistNeighbours(m, i, j);
    DistNeighbours(m, i + 1, j);
  }

  lemma {:induction false} DistDiagonalMonotone(m: Match, i: nat, j: nat, t: nat)
    ensures Dist(m, i, j) <= Dist(m, i + t, j + t)
    decreases t
  {
    if t > 0 {
      DistDiagonalMonotone(m, i, j, t - 1);
      DistDiagonal(m, i + t - 1, j + t - 1);
    }
  }

  lemma {:induction false} DistAtLeastDiagonal(m: Match, i: nat, j: nat)
    ensures Abs(i - j) <= Dist(m, i, j) <= i + j
    decreases i + j
  {
    if i > 0 && j > 0 {
      DistAtLeastDiagonal(m, i - 1, j - 1);
      DistAtLeastDiagonal(m, i - 1, j);
      DistAtLeastDiagonal(m, i, j - 1);
    }
  }

  /** Walking n rows down costs at most n. */
  lemma {:induction false} DistRows(m: Match, i: nat, j: nat, n: nat)
    ensures Abs(Dist(m, i, j + n) - Dist(m, i, j)) <= n
    decreases n
  {
    if n > 0 {
      DistRows(m, i, j, n - 1);
      DistNeighbours(m, i, j + n - 1);
    }
  }

  lemma {:induction false} DistColumns(m: Match, i: nat, j: nat, n: nat)
    ensures Abs(Dist(m, i + n, j) - Dist(m, i, j)) <= n
    decreases n
  {
    if n > 0 {
      DistColumns(m, i, j, n - 1);
      DistNeighbours(m, i + n - 1, j);
    }
  }

  /** The distance to (i, j) only depends on the match points above and on the left of it. */
  lemma {:induction false} DistCongruence(m: Match, n: Match, i: nat, j: nat)
    requires forall x, y :: 0 <= x < i && 0 <= y < j ==> m(x, y) == n(x, y)
    ensures Dist(m, i, j) == Dist(n, i, j)
    decreases i + j
  {
    if i > 0 && j > 0 {
      DistCongruence(m, n, i - 1, j - 1);
      DistCongruence(m, n, i - 1, j);
      DistCongruence(m, n, i, j - 1);
    }
  }

  // ----- Furthest reaching paths

  /** (i, i - k) is the node of diagonal k that is furthest from the origin among those reachable
      with at most d non-diagonal edges. */
  ghost predicate Furthest(m: Match, d: int, k: int, i: int) {
    && 0 <= i && 0 <= i - k
    && Dist(m, i, i - k) <= d < Dist(m, i + 1, i + 1 - k)
  }

  /** Furthest is what its name says: exactly the nodes up to i are within d. */
  lemma FurthestIsGreatest(m: Match, d: int, k: int, i: int, x: int)
    requires Furthest(m, d, k, i)
    requires 0 <= x && 0 <= x - k
    ensures Dist(m, x, x - k) <= d <==> x <= i
  {
    if x <= i {
      DistDiagonalMonotone(m, x, x - k, i - x);
    } else {
      DistDiagonalMonotone(m, i + 1, i + 1 - k, x - i - 1);
    }
  }

  /** `below` and `above` are the furthest reaching (d-1)-paths of diagonals k - 1 and k + 1, as far
      as there are any, and i is where the further one touches diagonal k. */
  ghost predicate GreedyChoice(m: Match, d: int, k: int, below: int, above: int, i: int) {
    && -d <= k <= d
    && (d > 0 && k > -d ==> Furthest(m, d - 1, k - 1, below))
    && (d > 0 && k < d ==> Furthest(m, d - 1, k + 1, above))
    && i == if d == 0 then 0 else if k == -d || (k != d && below < above) then above else below + 1
  }

  /** The greedy choice touches diagonal k on a d-path, coming from a (d-1)-path. */
  lemma GreedyStart(m: Match, d: int, k: int, below: int, above: int, i: int)
    requires GreedyChoice(m, d, k, below, above, i)
    ensures 0 <= i && 0 <= i - k && Dist(m, i, i - k) <= d
    ensures d > 0 && (k == -d || (k != d && below < above)) ==> i > k && Dist(m, i, i - k - 1) <= d - 1
    ensures d > 0 && !(k == -d || (k != d && below < above)) ==> i > 0 && Dist(m, i - 1, i - k) <= d - 1
  {
    hide Dist;
    if d == 0 {
      DistBorder(m, 0);
    } else if k == -d || (k != d && below < above) {
      DistNeighbours(m, i, i - k - 1);
    } else {
      DistNeighbours(m, i - 1, i - k);
    }
  }

  /** The greedy choice loses nothing: sliding from it as far as the match points go ends where the
      furthest reaching d-path of diagonal k ends. */
  lemma GreedyStop(m: Match, d: int, k: int, below: int, above: int, i: int, x: int)
    requires GreedyChoice(m, d, k, below, above, i)
    requires i <= x && 0 <= i - k && 0 <= i && Dist(m, x, x - k) == Dist(m, i, i - k) && !m(x, x - k)
    ensures Furthest(m, d, k, x)
  {
    hide Dist;
    GreedyStart(m, d, k, below, above, i);
    DistStep(m, x, x - k);
    // The node (x, x - k + 1) is on diagonal k - 1, and (x + 1, x - k) on diagonal k + 1.
    DistAtLeastDiagonal(m, x, x - k + 1);
    DistAtLeastDiagonal(m, x + 1, x - k);
    if d > 0 && k > -d {
      FurthestIsGreatest(m, d - 1, k - 1, below, x);
    }
    if d > 0 && k < d {
      FurthestIsGreatest(m, d - 1, k + 1, above, x + 1);
    }
  }

  // ----- Leaving the rectangle of the two sequences

  /** There is no match point outside of the rectangle of width M and height N. */
  ghost predicate Bounded(m: Match, M: nat, N: nat) {
    forall x, y :: m(x, y) ==> 0 <= x < M && 0 <= y < N
  }

  lemma {:induction false} DistRightOfGrid(m: Match, M: nat, N: nat, i: nat, j: nat)
    requires Bounded(m, M, N) && i >= M
    ensures Dist(m, i, j) == Dist(m, M, j) + (i - M)
    decreases i + j
  {
    if i > M && j > 0 {
      DistRightOfGrid(m, M, N, i - 1, j);
      DistRightOfGrid(m, M, N, i, j - 1);
      DistNeighbours(m, M, j - 1);
    }
  }

  lemma {:induction false} DistBelowGrid(m: Match, M: nat, N: nat, i: nat, j: nat)
    requires Bounded(m, M, N) && j >= N
    ensures Dist(m, i, j) == Dist(m, i, N) + (j - N)
    decreases i + j
  {
    if j > N && i > 0 {
      DistBelowGrid(m, M, N, i - 1, j);
      DistBelowGrid(m, M, N, i, j - 1);
      DistNeighbours(m, i - 1, N);
    }
  }

  /** If a path has left the rectangle on a diagonal that is at most d2 away from the one of the
      bottom-right corner, then the corner is strictly closer than the two lengths together. */
  lemma OffGridIsShort(m: Match, M: nat, N: nat, i: nat, j: nat, d2: int)
    requires Bounded(m, M, N) && (i > M || j > N)
    requires Abs((i - j) - (M - N)) <= d2
    ensures Dist(m, M, N) < Dist(m, i, j) + d2
  {
    hide Dist;
    if i > M {
      DistRightOfGrid(m, M, N, i, j);
      if j > N {
        DistBelowGrid(m, M, N, M, j);
      } else {
        DistRows(m, M, j, N - j);
      }
    } else {
      DistBelowGrid(m, M, N, i, j);
      DistColumns(m, i, N, M - i);
    }
  }

  // ----- The reverse search is the forward search of the rotated grid

  /** The grid of width M and height N, rotated by 180 degrees. */
  function Rotated(m: Match, M: int, N: int): Match {
    (x, y) => m(M - 1 - x, N - 1 - y)
  }

  /** The least number of non-diagonal edges on a path from (i, j) to (M, N). */
  ghost function DistToEnd(m: Match, M: nat, N: nat, i: int, j: int): nat
    requires i <= M && j <= N
  {
    Dist(Rotated(m, M, N), M - i, N - j)
  }

  /** No detour through (i, j) is shorter than the direct distance. */
  lemma {:induction false} DistThrough(m: Match, M: nat, N: nat, i: nat, j: nat)
    requires i <= M && j <= N
    ensures Dist(m, M, N) <= Dist(m, i, j) + DistToEnd(m, M, N, i, j)
    decreases M - i + N - j
  {
    var r := Rotated(m, M, N);
    if i == M {
      DistRows(m, M, j, N - j);
    } else if j == N {
      DistColumns(m, i, N, M - i);
    } else if m(i, j) {
      assert r(M - i - 1, N - j - 1);
      DistDiagonal(m, i, j);
      DistThrough(m, M, N, i + 1, j + 1);
    } else {
      assert !r(M - i - 1, N - j - 1);
      DistNeighbours(m, i, j);
      DistThrough(m, M, N, i + 1, j);
      DistThrough(m, M, N, i, j + 1);
    }
  }

  /** Both searches measure the same thing: rotating the grid keeps the distance of its corners. */
  lemma DistRotated(m: Match, M: nat, N: nat)
    ensures Dist(Rotated(m, M, N), M, N) == Dist(m, M, N)
  {
    var r := Rotated(m, M, N);
    var rr := Rotated(r, M, N);
    DistThrough(m, M, N, 0, 0);
    DistThrough(r, M, N, 0, 0);
    DistCongruence(m, rr, M, N);
  }

  lemma RotatedBounded(m: Match, M: nat, N: nat)
    requires Bounded(m, M, N)
    ensures Bounded(Rotated(m, M, N), M, N)
  {
  }

  /** A shortest path meets every distance: for every split of the total distance there is a node
      of the rectangle that splits a shortest path that way. */
  lemma {:induction false} SplitFrom(m: Match, M: nat, N: nat, d: nat, i: nat, j: nat)
    returns (si: nat, sj: nat)
    requires i <= M && j <= N && d <= Dist(m, i, j)
    requires Dist(m, i, j) + DistToEnd(m, M, N, i, j) == Dist(m, M, N)
    ensures si <= M && sj <= N && Dist(m, si, sj) == d
    ensures d + DistToEnd(m, M, N, si, sj) == Dist(m, M, N)
    decreases i + j
  {
    hide Dist;
    var r := Rotated(m, M, N);
    if Dist(m, i, j) == d {
      si, sj := i, j;
    } else if i > 0 && j > 0 && m(i - 1, j - 1) {
      assert r(M - i, N - j);
      DistStep(m, i - 1, j - 1);
      DistStep(r, M - i, N - j);
      si, sj := SplitFrom(m, M, N, d, i - 1, j - 1);
    } else {
      DistBorder(m, i + j);
      var left := j == 0 || (i > 0 && Dist(m, i - 1, j) <= Dist(m, i, j - 1));
      var pi, pj := if left then i - 1 else i, if left then j else j - 1;
      if i > 0 && j > 0 {
        DistStep(m, i - 1, j - 1);
      } else {
        DistBorder(m, i + j - 1);
      }
      DistNeighbours(r, M - i, N - j);
      DistThrough(m, M, N, pi, pj);
      si, sj := SplitFrom(m, M, N, d, pi, pj);
    }
  }

  lemma Split(m: Match, M: nat, N: nat, d: nat) returns (i: nat, j: nat)
    requires d <= Dist(m, M, N)
    ensures i <= M && j <= N && Dist(m, i, j) == d
    ensures d + DistToEnd(m, M, N, i, j) == Dist(m, M, N)
  {
    i, j := SplitFrom(m, M, N, d, M, N);
  }

  // ----- The overlap test

  /** On diagonal k, the furthest reaching forward d1-path ends after f elements of the first
      sequence, and the furthest reaching reverse d2-path ends after r of them. */
  ghost predicate PathEnds(m: Match, M: nat, N: nat, d1: int, d2: int, k: int, f: int, r: int) {
    && Furthest(m, d1, k, f)
    && Furthest(Rotated(m, M, N), d2, (M - N) - k, M - r)
  }

  /** Soundness: two path ends that overlap on a diagonal bound the distance of the corners, even
      when one of them is off the grid. */
  lemma OverlapIsSound(m: Match, M: nat, N: nat, k: int, f: int, r: int, d1: int, d2: int)
    requires PathEnds(m, M, N, d1, d2, k, f, r)
    requires r <= f && ((f <= M && f - k <= N) || (0 <= r && 0 <= r - k))
    ensures Dist(m, M, N) <= d1 + d2
    ensures 0 <= f && 0 <= f - k && r <= M && r - k <= N
    ensures f <= M && f - k <= N ==> Dist(m, f, f - k) <= d1 && DistToEnd(m, M, N, f, f - k) <= d2
    ensures 0 <= r && 0 <= r - k ==> Dist(m, r, r - k) <= d1 && DistToEnd(m, M, N, r, r - k) <= d2
  {
    hide Dist;
    if f <= M && f - k <= N {
      DistDiagonalMonotone(Rotated(m, M, N), M - f, N - (f - k), f - r);
      DistThrough(m, M, N, f, f - k);
    }
    if 0 <= r && 0 <= r - k {
      DistDiagonalMonotone(m, r, r - k, f - r);
      DistThrough(m, M, N, r, r - k);
    }
  }

  /** Completeness: when the two lengths add up to the distance of the corners, then on some
      diagonal of both searches the two ends overlap, and both ends are in the rectangle. */
  lemma OverlapIsComplete(m: Match, M: nat, N: nat, d1: int, d2: int) returns (k: int)
    requires 0 <= d1 && 0 <= d2
    requires Bounded(m, M, N) && Dist(m, M, N) == d1 + d2
    ensures -d1 <= k <= d1 && (k + d1) % 2 == 0
    ensures -d2 <= k - (M - N) <= d2 && (k - (M - N) + d2) % 2 == 0
    ensures forall f, r :: PathEnds(m, M, N, d1, d2, k, f, r) ==>
                             r <= f && f <= M && f - k <= N && 0 <= r && 0 <= r - k
  {
    hide Dist;
    var rot := Rotated(m, M, N);
    var i, j := Split(m, M, N, d1);
    k := i as int - j as int;
    DistParity(m, i, j);
    DistAtLeastDiagonal(m, i, j);
    DistParity(rot, M - i, N - j);
    DistAtLeastDiagonal(rot, M - i, N - j);
    forall f, r | PathEnds(m, M, N, d1, d2, k, f, r)
      ensures r <= f && f <= M && f - k <= N && 0 <= r && 0 <= r - k
    {
      FurthestIsGreatest(m, d1, k, f, i);
      FurthestIsGreatest(rot, d2, (M - N) - k, M - r, M - i);
      if f > M || f - k > N {
        OffGridIsShort(m, M, N, f, f - k, d2);
        assert false;
      }
      if r < 0 || r - k < 0 {
        RotatedBounded(m, M, N);
        DistRotated(m, M, N);
        OffGridIsShort(rot, M, N, M - r, N - (r - k), d1);
        assert false;
      }
    }
  }
}
