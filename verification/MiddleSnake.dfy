/** The forward and reverse searches, the middle snake, and the length of the shortest script. */
module MiddleSnake {
  import opened EditGraph
  import opened DPaths

  // ----- Points and snakes, which the program copies as values

  datatype Point = Point(x: int, y: int, empty: bool) {
    function Add(ax: int, ay: int): Point { Point(x + ax, y + ay, false) }
  }

  const NO_POINT := Point(-1, -1, true)

  function At(x: int, y: int): Point { Point(x, y, false) }

  /** A non-diagonal edge from `begin` to `intermediate`, and the diagonal edges that prolong it to
      `end`.  `diagonalStart` is the far end of the first diagonal edge, if there is one. */
  datatype Snake = Snake(begin: Point, intermediate: Point, diagonalStart: Point, end: Point, forward: bool) {
    predicate IsEmpty() { begin.empty && intermediate.empty && end.empty }

    predicate HasDiagonalEdge() { !diagonalStart.empty }

    predicate HasHorizontalEdge() { begin.y == intermediate.y }

    predicate HasVerticalEdge() { begin.x == intermediate.x }

    function Add(ax: int, ay: int): Snake {
      if IsEmpty() then this
      else Snake(begin.Add(ax, ay), intermediate.Add(ax, ay),
                 if diagonalStart.empty then diagonalStart else diagonalStart.Add(ax, ay),
                 end.Add(ax, ay), forward)
    }
  }

  const NO_SNAKE := Snake(NO_POINT, NO_POINT, NO_POINT, NO_POINT, false)

  // ----- The edit graph of two sequences

  /** The match points of two sequences under the equality functor the search is given. */
  function Matches<T>(a: seq<T>, b: seq<T>, eq: (T, T) -> bool): Match {
    (x, y) => 0 <= x < |a| && 0 <= y < |b| && eq(a[x], b[y])
  }

  lemma MatchesBounded<T>(a: seq<T>, b: seq<T>, eq: (T, T) -> bool)
    ensures Bounded(Matches(a, b, eq), |a|, |b|)
  {
  }

  /** The t diagonal edges that start at the node (i, j) are all over match points. */
  ghost predicate Slide(m: Match, i: int, j: int, t: int) {
    0 <= t && forall x, y :: i <= x < i + t && y - x == j - i ==> m(x, y)
  }

  lemma {:induction false} SlideKeepsDist(m: Match, i: nat, j: nat, t: nat)
    requires Slide(m, i, j, t)
    ensures Dist(m, i + t, j + t) == Dist(m, i, j)
    decreases t
  {
    hide Dist;
    if t > 0 {
      SlideKeepsDist(m, i, j, t - 1);
      DistStep(m, i + t - 1, j + t - 1);
    }
  }

  // ----- What the cells of the two arrays mean

  predicate Even(n: int) { n % 2 == 0 }

  /** The forward array after step d, as far as diagonal `bound`: each cell of the parity of d holds the
      end of the furthest reaching d-path of its diagonal. */
  ghost predicate ForwardRow(m: Match, d: int, ends: map<int, End>, bound: int) {
    forall k :: -d <= k <= d && k < bound && Even(k + d) ==>
      k in ends && ends[k].step == d && Furthest(m, d, k, ends[k].x + 1)
  }

  /** The reverse array after step d, as far as diagonal `bound` + delta. */
  ghost predicate ReverseRow(m: Match, M: nat, N: nat, d: int, ends: map<int, End>, bound: int) {
    forall c :: -d <= c - (M - N) <= d && c - (M - N) < bound && Even(c - (M - N) + d) ==>
                  c in ends && ends[c].step == d && Furthest(Rotated(m, M, N), d, (M - N) - c, M - (ends[c].x + 1))
  }

  lemma ForwardRowAt(m: Match, d: int, ends: map<int, End>, bound: int, k: int)
    requires ForwardRow(m, d, ends, bound) && -d <= k <= d && k < bound && Even(k + d)
    ensures k in ends && ends[k].step == d && Furthest(m, d, k, ends[k].x + 1)
  {
  }

  lemma ReverseRowAt(m: Match, M: nat, N: nat, d: int, ends: map<int, End>, bound: int, c: int)
    requires ReverseRow(m, M, N, d, ends, bound)
    requires -d <= c - (M - N) <= d && c - (M - N) < bound && Even(c - (M - N) + d)
    ensures c in ends && ends[c].step == d && Furthest(Rotated(m, M, N), d, (M - N) - c, M - (ends[c].x + 1))
  {
  }

  /** A row is empty before its first diagonal, and complete behind its last one. */
  lemma ForwardRowBounds(m: Match, d: int, ends: map<int, End>, bound: int)
    ensures bound <= -d ==> ForwardRow(m, d, ends, bound)
    ensures d < bound && ForwardRow(m, d, ends, bound) ==> ForwardRow(m, d, ends, d + 1)
  {
  }

  lemma ReverseRowBounds(m: Match, M: nat, N: nat, d: int, ends: map<int, End>, bound: int)
    ensures bound <= -d ==> ReverseRow(m, M, N, d, ends, bound)
    ensures d < bound && ReverseRow(m, M, N, d, ends, bound) ==> ReverseRow(m, M, N, d, ends, d + 1)
  {
  }

  /** Step 0 of a search has no previous step, so it starts from a fictitious end next to a corner. */
  ghost predicate ForwardSeed(d: int, ends: map<int, End>) {
    d == 0 ==> 1 in ends && ends[1] == End(-1, -1)
  }

  ghost predicate ReverseSeed(M: nat, N: nat, d: int, ends: map<int, End>) {
    d == 0 ==> M - N + 1 in ends && ends[M - N + 1] == End(M, -1)
  }

  /** Writing the cell of diagonal k completes the row of step d up to k, and keeps the row of the
      previous step, which has the other parity. */
  lemma ForwardRowExtended(m: Match, d: int, ends: map<int, End>, k: int, x: int)
    requires ForwardRow(m, d - 1, ends, d) && ForwardRow(m, d, ends, k) && Even(k + d)
    requires Furthest(m, d, k, x + 1)
    ensures ForwardRow(m, d - 1, ends[k := End(x, d)], d) && ForwardRow(m, d, ends[k := End(x, d)], k + 2)
  {
    hide Furthest;
  }

  lemma ReverseRowExtended(m: Match, M: nat, N: nat, d: int, ends: map<int, End>, k: int, x: int)
    requires ReverseRow(m, M, N, d - 1, ends, d) && ReverseRow(m, M, N, d, ends, k) && Even(k + d)
    requires Furthest(Rotated(m, M, N), d, -k, M - (x + 1))
    ensures ReverseRow(m, M, N, d - 1, ends[k + (M - N) := End(x, d)], d)
    ensures ReverseRow(m, M, N, d, ends[k + (M - N) := End(x, d)], k + 2)
  {
    hide Furthest;
  }

  // ----- What the two searches find

  /** `q` is one to the right of `p`, or one below it. */
  ghost predicate Adjacent(p: Point, q: Point) {
    !p.empty && !q.empty && ((q.x == p.x + 1 && q.y == p.y) || (q.x == p.x && q.y == p.y + 1))
  }

  /** The shape both kinds of snake share: `from` and `to` are the two ends of its diagonal edges. */
  ghost predicate DiagonalRun(m: Match, from: Point, to: Point) {
    && !from.empty && !to.empty && -1 <= from.x && -1 <= from.y
    && from.x <= to.x && to.x - from.x == to.y - from.y
    && Slide(m, from.x + 1, from.y + 1, to.x - from.x)
  }

  ghost predicate ForwardSnake(m: Match, s: Snake) {
    && s.forward
    && DiagonalRun(m, s.intermediate, s.end)
    && s.diagonalStart == (if s.intermediate == s.end then NO_POINT else s.intermediate.Add(1, 1))
    && Adjacent(s.begin, s.intermediate) && !m(s.end.x + 1, s.end.y + 1)
  }

  ghost predicate ReverseSnake(m: Match, s: Snake) {
    && !s.forward
    && DiagonalRun(m, s.end, s.intermediate)
    && s.diagonalStart == (if s.intermediate == s.end then NO_POINT else s.intermediate)
    && Adjacent(s.intermediate, s.begin) && !m(s.end.x, s.end.y)
  }

  /** There is a path of at most d - 1 non-diagonal edges to `p`. */
  ghost predicate ProlongsPath(m: Match, p: Point, d: int) {
    -1 <= p.x && -1 <= p.y && Dist(m, p.x + 1, p.y + 1) <= d - 1
  }

  // ----- One step of the searches

  /** The greedy choice, followed by a slide as far as the match points go, reaches the furthest
      d-path of diagonal k. */
  lemma GreedySlide(m: Match, d: int, k: int, below: int, above: int, i: int, t: int)
    requires GreedyChoice(m, d, k, below, above, i)
    requires Slide(m, i, i - k, t) && !m(i + t, i + t - k)
    ensures Furthest(m, d, k, i + t)
  {
    hide Dist, Furthest, GreedyChoice;
    GreedyStart(m, d, k, below, above, i);
    SlideKeepsDist(m, i, i - k, t);
    GreedyStop(m, d, k, below, above, i, i + t);
  }

  /** The same for the rotated grid, where a slide goes backwards. */
  lemma GreedySlideBack(m: Match, M: nat, N: nat, d: int, c: int, k: int, below: int, above: int, i: int, t: int)
    requires k == (M - N) - c
    requires GreedyChoice(Rotated(m, M, N), d, k, below, above, M - (i + t))
    requires Slide(m, i, i - c, t) && !m(i - 1, i - c - 1)
    ensures Furthest(Rotated(m, M, N), d, k, M - i)
  {
    hide Dist, Furthest, GreedyChoice;
    var rot := Rotated(m, M, N);
    assert Slide(rot, M - (i + t), M - (i + t) - k, t);
    assert rot(M - i, M - i - k) == m(i - 1, i - c - 1);
    GreedySlide(rot, d, k, below, above, M - (i + t), t);
  }

  /** Follow the diagonal edges that start at (x0, y0), as far as there are match points. */
  method FollowForward<T>(x0: int, y0: int, a: seq<T>, b: seq<T>, eq: (T, T) -> bool)
    returns (x: int, y: int, diagStart: Point)
    requires -1 <= x0 && -1 <= y0
    ensures x - x0 == y - y0 && Slide(Matches(a, b, eq), x0 + 1, y0 + 1, x - x0)
    ensures !Matches(a, b, eq)(x + 1, y + 1)
    ensures diagStart == if x == x0 then NO_POINT else At(x0 + 1, y0 + 1)
  {
    x, y, diagStart := x0, y0, NO_POINT;
    var lastX, lastY := |a| - 1, |b| - 1;
    while x < lastX && y < lastY
      invariant x - x0 == y - y0 && Slide(Matches(a, b, eq), x0 + 1, y0 + 1, x - x0)
      invariant diagStart == if x == x0 then NO_POINT else At(x0 + 1, y0 + 1)
    {
      if eq(a[x + 1], b[y + 1]) {
        x := x + 1;
        y := y + 1;
        if diagStart.empty {
          diagStart := At(x, y);
        }
      } else {
        break;
      }
    }
  }

  /** Follow the diagonal edges that end at (x0, y0), backwards. */
  method FollowBackward<T>(x0: int, y0: int, a: seq<T>, b: seq<T>, eq: (T, T) -> bool)
    returns (x: int, y: int, diagStart: Point)
    requires x0 < |a| && y0 < |b|
    ensures x0 - x == y0 - y && Slide(Matches(a, b, eq), x + 1, y + 1, x0 - x)
    ensures x < x0 ==> -1 <= x && -1 <= y
    ensures !Matches(a, b, eq)(x, y)
    ensures diagStart == if x == x0 then NO_POINT else At(x0, y0)
  {
    x, y, diagStart := x0, y0, NO_POINT;
    while x >= 0 && y >= 0
      invariant x0 - x == y0 - y && Slide(Matches(a, b, eq), x + 1, y + 1, x0 - x)
      invariant x < x0 ==> -1 <= x && -1 <= y
      invariant diagStart == if x == x0 then NO_POINT else At(x0, y0)
    {
      if eq(a[x], b[y]) {
        if diagStart.empty {
          diagStart := At(x, y);
        }
        x := x - 1;
        y := y - 1;
      } else {
        break;
      }
    }
  }

  /** Move from the further one of the two neighbouring (d-1)-paths onto diagonal k. */
  method TouchForward(k: int, d: int, v: DPathVec, ghost m: Match)
    returns (begin: Point, intermediate: Point, ghost below: int, ghost above: int)
    requires -d <= k <= d && Even(k + d)
    requires ForwardSeed(d, v.Ends())
    requires ForwardRow(m, d - 1, v.Ends(), d)
    ensures intermediate == At(intermediate.x, intermediate.x - k)
    ensures Adjacent(begin, intermediate)
    ensures d > 0 ==> ProlongsPath(m, begin, d)
    ensures GreedyChoice(m, d, k, below, above, intermediate.x + 1)
  {
    hide Dist, Furthest, DPathVec.Ends;
    below := if d > 0 && k > -d then v.Ends()[k - 1].x + 1 else 0;
    above := if d > 0 && k < d then v.Ends()[k + 1].x + 1 else 0;
    var down := k == -d;
    if !down && k != d {
      var left := v.At(k - 1, d - 1);
      var right := v.At(k + 1, d - 1);
      down := left < right;
    }
    var x;
    if down {
      x := v.At(k + 1, d - 1);
      begin := At(x, x - (k + 1));
    } else {
      x := v.At(k - 1, d - 1);
      begin := At(x, x - (k - 1));
      x := x + 1;
    }
    intermediate := At(x, x - k);
    GreedyStart(m, d, k, below, above, x + 1);
  }

  /** Move from the further one of the two neighbouring reverse (d-1)-paths onto diagonal k + delta.
      The rotated grid numbers the diagonals the other way round. */
  method TouchReverse(k: int, d: int, delta: int, v: DPathVec, ghost m: Match)
    returns (begin: Point, intermediate: Point, ghost below: int, ghost above: int)
    requires -d <= k <= d && Even(k + d) && delta == v.aSize - v.bSize
    requires ReverseSeed(v.aSize, v.bSize, d, v.Ends())
    requires ReverseRow(m, v.aSize, v.bSize, d - 1, v.Ends(), d)
    ensures intermediate == At(intermediate.x, intermediate.x - (k + delta))
    ensures Adjacent(intermediate, begin)
    ensures GreedyChoice(Rotated(m, v.aSize, v.bSize), d, -k, below, above, v.aSize - (intermediate.x + 1))
  {
    hide Dist, Furthest, Rotated, DPathVec.Ends;
    var kPlusDelta := k + delta;
    below := if d > 0 && k < d then v.aSize - (v.Ends()[kPlusDelta + 1].x + 1) else 0;
    above := if d > 0 && k > -d then v.aSize - (v.Ends()[kPlusDelta - 1].x + 1) else 0;
    var leftwards := kPlusDelta == -d + delta;
    if !leftwards && kPlusDelta != d + delta {
      var right := v.At(kPlusDelta + 1, d - 1);
      var left := v.At(kPlusDelta - 1, d - 1);
      leftwards := right <= left;
    }
    var x, y;
    if leftwards {
      x := v.At(kPlusDelta + 1, d - 1);
      y := x - (kPlusDelta + 1);
      begin := At(x, y);
      x := x - 1;
    } else {
      x := v.At(kPlusDelta - 1, d - 1);
      begin := At(x, x - (kPlusDelta - 1));
      y := x - (kPlusDelta - 1) - 1;
    }
    intermediate := At(x, y);
  }

  /** Prolong the furthest reaching (d-1)-paths onto diagonal k. */
  method EndOfFrDPathInK<T>(k: int, d: int, a: seq<T>, b: seq<T>, eq: (T, T) -> bool, v: DPathVec, prev: Snake)
    returns (found: bool, snak: Snake)
    requires -d <= k <= d && Even(k + d) && v.InBounds(k)
    requires ForwardSeed(d, v.Ends())
    requires ForwardRow(Matches(a, b, eq), d - 1, v.Ends(), d) && ForwardRow(Matches(a, b, eq), d, v.Ends(), k)
    modifies v.data, v`steps
    ensures k in v.Ends() && v.Ends() == old(v.Ends())[k := End(v.Ends()[k].x, d)] && ForwardSeed(d, v.Ends())
    ensures ForwardRow(Matches(a, b, eq), d - 1, v.Ends(), d) && ForwardRow(Matches(a, b, eq), d, v.Ends(), k + 2)
    ensures found <==> v.Ends()[k].x < v.aSize && v.Ends()[k].x - k < v.bSize
    ensures found ==> ForwardSnake(Matches(a, b, eq), snak) && snak.end == At(v.Ends()[k].x, v.Ends()[k].x - k)
    ensures found && d > 0 ==> ProlongsPath(Matches(a, b, eq), snak.begin, d)
    ensures !found ==> snak == prev
  {
    hide Dist, Furthest, Matches, Slide, GreedyChoice, ForwardRow, Even, ProlongsPath, DPathVec.Ends;
    ghost var m := Matches(a, b, eq);
    ghost var ends := v.Ends();
    var begin, intermediate, below, above := TouchForward(k, d, v, m);
    GreedyStart(m, d, k, below, above, intermediate.x + 1);
    var x, y, diagStart := FollowForward(intermediate.x, intermediate.y, a, b, eq);
    GreedySlide(m, d, k, below, above, intermediate.x + 1, x - intermediate.x);
    ForwardRowExtended(m, d, ends, k, x);
    v.Set(k, x, d);
    found := !(x >= v.aSize || y >= v.bSize || x < -1 || y < -1);
    snak := if found then Snake(begin, intermediate, diagStart, At(x, y), true) else prev;
  }

  /** Prolong the furthest reaching reverse (d-1)-paths onto diagonal k + delta. */
  method EndOfFrrDPathInKPlusDelta<T>(k: int, d: int, a: seq<T>, b: seq<T>, eq: (T, T) -> bool, v: DPathVec,
                                      prev: Snake)
    returns (found: bool, snak: Snake)
    requires v.aSize == |a| && v.bSize == |b|
    requires -d <= k <= d && Even(k + d) && v.InBounds(k + (|a| - |b|))
    requires ReverseSeed(|a|, |b|, d, v.Ends())
    requires ReverseRow(Matches(a, b, eq), |a|, |b|, d - 1, v.Ends(), d)
    requires ReverseRow(Matches(a, b, eq), |a|, |b|, d, v.Ends(), k)
    modifies v.data, v`steps
    ensures var c := k + (|a| - |b|); c in v.Ends() && v.Ends() == old(v.Ends())[c := End(v.Ends()[c].x, d)]
    ensures ReverseSeed(|a|, |b|, d, v.Ends())
    ensures ReverseRow(Matches(a, b, eq), |a|, |b|, d - 1, v.Ends(), d)
    ensures ReverseRow(Matches(a, b, eq), |a|, |b|, d, v.Ends(), k + 2)
    ensures var c := k + (|a| - |b|);
            && (found <==> -1 <= v.Ends()[c].x && -1 <= v.Ends()[c].x - c)
            && (found ==> snak.end == At(v.Ends()[c].x, v.Ends()[c].x - c))
    ensures found ==> ReverseSnake(Matches(a, b, eq), snak) && snak.intermediate.x < |a| && snak.intermediate.y < |b|
    ensures !found ==> snak == prev
  {
    hide Dist, Furthest, Matches, Rotated, Slide, GreedyChoice, ReverseRow, Even, DPathVec.Ends;
    ghost var m := Matches(a, b, eq);
    ghost var ends := v.Ends();
    var delta := |a| - |b|;
    var kPlusDelta := k + delta;
    var begin, intermediate, below, above := TouchReverse(k, d, delta, v, m);
    GreedyStart(Rotated(m, |a|, |b|), d, -k, below, above, |a| - (intermediate.x + 1));
    var x, y, diagStart := FollowBackward(intermediate.x, intermediate.y, a, b, eq);
    GreedySlideBack(m, |a|, |b|, d, kPlusDelta, -k, below, above, x + 1, intermediate.x - x);
    ReverseRowExtended(m, |a|, |b|, d, ends, k, x);
    v.Set(kPlusDelta, x, d);
    found := (x == -1 && y == -1) || !(x < -1 || y < -1);
    snak := if found then Snake(begin, intermediate, diagStart, At(x, y), false) else prev;
  }

  /** A slide keeps the distance to the end as well. */
  lemma RotatedSlide(m: Match, M: nat, N: nat, i: int, j: int, t: nat)
    requires i + t <= M && j + t <= N && Slide(m, i, j, t)
    ensures DistToEnd(m, M, N, i, j) == DistToEnd(m, M, N, i + t, j + t)
  {
    hide Dist;
    var rot := Rotated(m, M, N);
    assert Slide(rot, M - (i + t), N - (j + t), t);
    SlideKeepsDist(rot, M - (i + t), N - (j + t), t);
  }

  // ----- The middle snake

  datatype EndPoints = NoEndPoints | EndPoints(x: Point, u: Point)

  /** The two ends of the diagonal edges of a snake, the one nearer to the origin first. */
  function SnakeEndPoints(s: Snake): EndPoints {
    if s.IsEmpty() then NoEndPoints
    else if s.forward then EndPoints(s.intermediate, s.end)
    else EndPoints(s.end, s.intermediate)
  }

  /** Whether the ends of a forward path and of a reverse path overlap. */
  predicate EndsOfFurthestDPathsOverlap(forwardEnd: Point, reverseEnd: Point) {
    forwardEnd.x - forwardEnd.y == reverseEnd.x - reverseEnd.y && forwardEnd.x >= reverseEnd.x
  }

  /** `s` lies on a shortest path of a rectangle whose corners are `total` edges apart, and splits that
      path into halves of ceil(total / 2) and floor(total / 2) non-diagonal edges. */
  ghost predicate IsMiddleSnake(m: Match, M: nat, N: nat, s: Snake, total: nat) {
    && total == Dist(m, M, N)
    && s.forward == (total % 2 == 1)
    && (if s.forward then ForwardSnake(m, s) else ReverseSnake(m, s))
    && var ends := SnakeEndPoints(s);
    && ends.EndPoints? && ends.u.x < M && ends.u.y < N
    && Dist(m, ends.x.x + 1, ends.x.y + 1) == (total + 1) / 2
    && DistToEnd(m, M, N, ends.u.x + 1, ends.u.y + 1) == total / 2
    && (s.forward ==> ProlongsPath(m, s.begin, (total + 1) / 2))
  }

  /** On diagonal k, neither end is off the grid and they overlap. */
  ghost predicate Meet(M: nat, N: nat, fwd: map<int, End>, rev: map<int, End>, k: int) {
    && k in fwd && fwd[k].x < M && fwd[k].x - k < N
    && k in rev && -1 <= rev[k].x && -1 <= rev[k].x - k
    && rev[k].x <= fwd[k].x
  }

  /** The ends of d1 forward and d2 reverse steps do not meet on any diagonal below `bound`. */
  ghost predicate NoMeeting(M: nat, N: nat, fwd: map<int, End>, rev: map<int, End>, d1: int, d2: int, bound: int) {
    forall k :: BothReach(M, N, d1, d2, k) && k < bound ==> !Meet(M, N, fwd, rev, k)
  }

  /** The diagonals that have ends both after d1 forward steps and after d2 reverse steps. */
  ghost predicate BothReach(M: nat, N: nat, d1: int, d2: int, k: int) {
    -d1 <= k <= d1 && Even(k + d1) && -d2 <= k - (M - N) <= d2
  }

  lemma NoMeetingBounds(M: nat, N: nat, fwd: map<int, End>, rev: map<int, End>, d1: int, d2: int, bound: int)
    ensures bound <= -d1 || bound <= (M - N) - d2 ==> NoMeeting(M, N, fwd, rev, d1, d2, bound)
  {
  }

  /** Moving the forward end of diagonal k leaves only that diagonal to look at. */
  lemma NoMeetingForward(M: nat, N: nat, fwd: map<int, End>, rev: map<int, End>, d1: int, d2: int, k: int, x: int)
    requires NoMeeting(M, N, fwd, rev, d1, d2, k) && Even(k + d1)
    requires BothReach(M, N, d1, d2, k) ==> !Meet(M, N, fwd[k := End(x, d1)], rev, k)
    ensures NoMeeting(M, N, fwd[k := End(x, d1)], rev, d1, d2, k + 2)
  {
  }

  lemma NoMeetingReverse(M: nat, N: nat, fwd: map<int, End>, rev: map<int, End>, d1: int, d2: int, c: int, x: int)
    requires NoMeeting(M, N, fwd, rev, d1, d2, c) && Even(c + d1)
    requires BothReach(M, N, d1, d2, c) ==> !Meet(M, N, fwd, rev[c := End(x, d2)], c)
    ensures NoMeeting(M, N, fwd, rev[c := End(x, d2)], d1, d2, c + 2)
  {
  }

  /** When the shortest script has d1 + d2 elements, the ends of d1 forward and d2 reverse steps meet. */
  lemma EndsMeet(m: Match, M: nat, N: nat, fwd: map<int, End>, rev: map<int, End>, d1: int, d2: int, bound: int)
    requires Bounded(m, M, N) && 0 <= d1 && 0 <= d2 && (d1 < bound || d2 + (M - N) < bound)
    requires Dist(m, M, N) == d1 + d2
    requires ForwardRow(m, d1, fwd, d1 + 1) && ReverseRow(m, M, N, d2, rev, d2 + 1)
    ensures !NoMeeting(M, N, fwd, rev, d1, d2, bound)
  {
    hide Dist, Furthest;
    var k := OverlapIsComplete(m, M, N, d1, d2);
    assert k in fwd && k in rev;
    assert PathEnds(m, M, N, d1, d2, k, fwd[k].x + 1, rev[k].x + 1);
    assert Meet(M, N, fwd, rev, k);
  }

  /** An overlap found while extending a forward path to `s.end` gives the middle snake. */
  lemma ForwardOverlap(m: Match, M: nat, N: nat, d: int, k: int, s: Snake, r: int)
    requires 0 < d && 2 * d - 2 < Dist(m, M, N) && Even(M - N + 1)
    requires ForwardSnake(m, s) && s.end == At(s.end.x, s.end.x - k) && s.end.x < M && s.end.y < N
    requires ProlongsPath(m, s.begin, d)
    requires PathEnds(m, M, N, d, d - 1, k, s.end.x + 1, r) && r <= s.end.x + 1
    ensures IsMiddleSnake(m, M, N, s, 2 * d - 1) && Dist(m, M, N) == 2 * d - 1
  {
    hide Dist, PathEnds, Slide, Rotated, Adjacent;
    OverlapIsSound(m, M, N, k, s.end.x + 1, r, d, d - 1);
    DistThrough(m, M, N, s.end.x + 1, s.end.y + 1);
    DistParity(m, M, N);
    SlideKeepsDist(m, s.intermediate.x + 1, s.intermediate.y + 1, s.end.x - s.intermediate.x);
  }

  /** An overlap found while extending a reverse path to `s.end` gives the middle snake. */
  lemma ReverseOverlap(m: Match, M: nat, N: nat, d: int, k: int, s: Snake, f: int)
    requires 0 <= d && 2 * d - 1 < Dist(m, M, N) && Even(M - N)
    requires ReverseSnake(m, s) && s.end == At(s.end.x, s.end.x - k) && s.intermediate.x < M && s.intermediate.y < N
    requires PathEnds(m, M, N, d, d, k, f, s.end.x + 1) && s.end.x + 1 <= f
    ensures IsMiddleSnake(m, M, N, s, 2 * d) && Dist(m, M, N) == 2 * d
  {
    hide Dist, PathEnds, Slide, Rotated, Adjacent;
    OverlapIsSound(m, M, N, k, f, s.end.x + 1, d, d);
    DistThrough(m, M, N, s.end.x + 1, s.end.y + 1);
    DistParity(m, M, N);
    RotatedSlide(m, M, N, s.end.x + 1, s.end.y + 1, s.intermediate.x - s.end.x);
  }

  /** The cells of a diagonal that both searches have reached were written by their last steps, and hold the
      ends of their paths. */
  lemma RowsGivePathEnds(m: Match, M: nat, N: nat, d1: int, d2: int, fwd: map<int, End>, rev: map<int, End>,
                         bound1: int, bound2: int, k: int)
    requires ForwardRow(m, d1, fwd, bound1) && ReverseRow(m, M, N, d2, rev, bound2)
    requires -d1 <= k <= d1 && k < bound1 && Even(k + d1)
    requires -d2 <= k - (M - N) <= d2 && k - (M - N) < bound2 && Even(k - (M - N) + d2)
    ensures k in fwd && fwd[k].step == d1 && k in rev && rev[k].step == d2
    ensures PathEnds(m, M, N, d1, d2, k, fwd[k].x + 1, rev[k].x + 1)
  {
    hide Furthest;
    ForwardRowAt(m, d1, fwd, bound1, k);
    ReverseRowAt(m, M, N, d2, rev, bound2, k);
  }

  /** Extend the forward paths to diagonal k at step d, and look for an overlap there. */
  method ExtendForward<T>(k: int, d: int, a: seq<T>, b: seq<T>, eq: (T, T) -> bool, fwd: DPathVec, rev: DPathVec)
    returns (done: bool, snak: Snake, sesLen: nat)
    requires -d <= k <= d && Even(k + d) && d <= |a| + |b| && fwd.data != rev.data
    requires fwd.Valid() && fwd.aSize == |a| && fwd.bSize == |b|
    requires rev.Valid() && rev.aSize == |a| && rev.bSize == |b|
    requires ForwardSeed(d, fwd.Ends())
    requires ForwardRow(Matches(a, b, eq), d - 1, fwd.Ends(), d) && ForwardRow(Matches(a, b, eq), d, fwd.Ends(), k)
    requires ReverseRow(Matches(a, b, eq), |a|, |b|, d - 1, rev.Ends(), d)
    requires 2 * d - 2 < Dist(Matches(a, b, eq), |a|, |b|)
    requires Even(|a| - |b|) || NoMeeting(|a|, |b|, fwd.Ends(), rev.Ends(), d, d - 1, k)
    modifies fwd.data, fwd`steps
    ensures ForwardSeed(d, fwd.Ends())
    ensures ForwardRow(Matches(a, b, eq), d - 1, fwd.Ends(), d) && ForwardRow(Matches(a, b, eq), d, fwd.Ends(), k + 2)
    ensures done ==> IsMiddleSnake(Matches(a, b, eq), |a|, |b|, snak, sesLen)
    ensures done ==> Dist(Matches(a, b, eq), |a|, |b|) == 2 * d - 1
    ensures done || Even(|a| - |b|) || NoMeeting(|a|, |b|, fwd.Ends(), rev.Ends(), d, d - 1, k + 2)
  {
    hide Dist, Furthest, Matches, Rotated, ForwardSnake, ProlongsPath, IsMiddleSnake, ForwardRow, ReverseRow, NoMeeting,
         PathEnds;
    hide DPathVec.InBounds, DPathVec.Valid, DPathVec.Ends;
    fwd.DiagonalsInBounds(k);
    ghost var m, fwd0 := Matches(a, b, eq), fwd.Ends();
    var delta := |a| - |b|;
    done, sesLen := false, 0;
    var found;
    found, snak := EndOfFrDPathInK(k, d, a, b, eq, fwd, NO_SNAKE);
    if found && delta % 2 != 0 && k >= delta - (d - 1) && k <= delta + (d - 1) {
      RowsGivePathEnds(m, |a|, |b|, d, d - 1, fwd.Ends(), rev.Ends(), k + 2, d, k);
      var x := rev.At(k, d - 1);
      var reverseEnd := At(x, x - k);
      if EndsOfFurthestDPathsOverlap(snak.end, reverseEnd) {
        ForwardOverlap(m, |a|, |b|, d, k, snak, x + 1);
        done, sesLen := true, 2 * d - 1;
        return;
      }
    }
    if !Even(delta) {
      NoMeetingForward(|a|, |b|, fwd0, rev.Ends(), d, d - 1, k, fwd.Ends()[k].x);
    }
  }

  /** Extend the reverse paths to diagonal k + delta at step d, and look for an overlap there. */
  method ExtendReverse<T>(k: int, d: int, a: seq<T>, b: seq<T>, eq: (T, T) -> bool, fwd: DPathVec, rev: DPathVec)
    returns (done: bool, snak: Snake, sesLen: nat)
    requires -d <= k <= d && Even(k + d) && d <= |a| + |b| && fwd.data != rev.data
    requires fwd.Valid() && fwd.aSize == |a| && fwd.bSize == |b|
    requires rev.Valid() && rev.aSize == |a| && rev.bSize == |b|
    requires ReverseSeed(|a|, |b|, d, rev.Ends())
    requires ForwardRow(Matches(a, b, eq), d, fwd.Ends(), d + 1)
    requires ReverseRow(Matches(a, b, eq), |a|, |b|, d - 1, rev.Ends(), d)
    requires ReverseRow(Matches(a, b, eq), |a|, |b|, d, rev.Ends(), k)
    requires 2 * d - 1 < Dist(Matches(a, b, eq), |a|, |b|)
    requires !Even(|a| - |b|) || NoMeeting(|a|, |b|, fwd.Ends(), rev.Ends(), d, d, k + (|a| - |b|))
    modifies rev.data, rev`steps
    ensures ReverseSeed(|a|, |b|, d, rev.Ends())
    ensures ReverseRow(Matches(a, b, eq), |a|, |b|, d - 1, rev.Ends(), d)
    ensures ReverseRow(Matches(a, b, eq), |a|, |b|, d, rev.Ends(), k + 2)
    ensures done ==> IsMiddleSnake(Matches(a, b, eq), |a|, |b|, snak, sesLen)
    ensures done ==> Dist(Matches(a, b, eq), |a|, |b|) == 2 * d
    ensures done || !Even(|a| - |b|) || NoMeeting(|a|, |b|, fwd.Ends(), rev.Ends(), d, d, k + 2 + (|a| - |b|))
  {
    hide Dist, Furthest, Matches, Rotated, ReverseSnake, IsMiddleSnake, ForwardRow, ReverseRow, NoMeeting, PathEnds;
    hide DPathVec.InBounds, DPathVec.Valid, DPathVec.Ends;
    rev.DiagonalsInBounds(k);
    ghost var m, rev0 := Matches(a, b, eq), rev.Ends();
    var delta := |a| - |b|;
    var kPlusDelta := k + delta;
    done, sesLen := false, 0;
    var found;
    found, snak := EndOfFrrDPathInKPlusDelta(k, d, a, b, eq, rev, NO_SNAKE);
    if found && delta % 2 == 0 && kPlusDelta >= -d && kPlusDelta <= d {
      RowsGivePathEnds(m, |a|, |b|, d, d, fwd.Ends(), rev.Ends(), d + 1, k + 2, kPlusDelta);
      var x := fwd.At(kPlusDelta, d);
      var forwardEnd := At(x, x - kPlusDelta);
      if EndsOfFurthestDPathsOverlap(forwardEnd, snak.end) {
        ReverseOverlap(m, |a|, |b|, d, kPlusDelta, snak, x + 1);
        done, sesLen := true, 2 * d;
        return;
      }
    }
    if Even(delta) {
      NoMeetingReverse(|a|, |b|, fwd.Ends(), rev0, d, d, kPlusDelta, rev.Ends()[kPlusDelta].x);
    }
  }

  /** Step d of the forward search.  It finds the middle snake exactly when the shortest script has
      2d - 1 elements. */
  method ForwardPhase<T>(d: nat, a: seq<T>, b: seq<T>, eq: (T, T) -> bool, fwd: DPathVec, rev: DPathVec)
    returns (done: bool, snak: Snake, sesLen: nat)
    requires d <= |a| + |b| && fwd.data != rev.data
    requires fwd.Valid() && fwd.aSize == |a| && fwd.bSize == |b|
    requires rev.Valid() && rev.aSize == |a| && rev.bSize == |b|
    requires ForwardSeed(d, fwd.Ends())
    requires ForwardRow(Matches(a, b, eq), d - 1, fwd.Ends(), d)
    requires ReverseRow(Matches(a, b, eq), |a|, |b|, d - 1, rev.Ends(), d)
    requires 2 * d - 2 < Dist(Matches(a, b, eq), |a|, |b|)
    modifies fwd.data, fwd`steps
    ensures done <==> Dist(Matches(a, b, eq), |a|, |b|) == 2 * d - 1
    ensures done ==> IsMiddleSnake(Matches(a, b, eq), |a|, |b|, snak, sesLen)
    ensures !done ==> ForwardRow(Matches(a, b, eq), d, fwd.Ends(), d + 1)
  {
    hide Dist, Furthest, Matches, Rotated, ForwardRow, ReverseRow, NoMeeting, IsMiddleSnake, DPathVec.InBounds,
         DPathVec.Ends;
    ghost var m := Matches(a, b, eq);
    done, snak, sesLen := false, NO_SNAKE, 0;
    var k := 0 - d;
    ForwardRowBounds(m, d, fwd.Ends(), k);
    NoMeetingBounds(|a|, |b|, fwd.Ends(), rev.Ends(), d, d - 1, k);
    while k <= d
      invariant 0 - d <= k <= d + 2 && Even(k + d)
      invariant ForwardSeed(d, fwd.Ends())
      invariant ForwardRow(m, d - 1, fwd.Ends(), d) && ForwardRow(m, d, fwd.Ends(), k)
      invariant Even(|a| - |b|) || NoMeeting(|a|, |b|, fwd.Ends(), rev.Ends(), d, d - 1, k)
    {
      done, snak, sesLen := ExtendForward(k, d, a, b, eq, fwd, rev);
      if done {
        return;
      }
      k := k + 2;
    }
    ForwardRowBounds(m, d, fwd.Ends(), k);
    MatchesBounded(a, b, eq);
    DistParity(m, |a|, |b|);
    if Dist(m, |a|, |b|) == 2 * d - 1 {
      EndsMeet(m, |a|, |b|, fwd.Ends(), rev.Ends(), d, d - 1, k);
      assert false;
    }
  }

  /** Step d of the reverse search.  It finds the middle snake exactly when the shortest script has
      2d elements. */
  method ReversePhase<T>(d: nat, a: seq<T>, b: seq<T>, eq: (T, T) -> bool, fwd: DPathVec, rev: DPathVec)
    returns (done: bool, snak: Snake, sesLen: nat)
    requires d <= |a| + |b| && fwd.data != rev.data
    requires fwd.Valid() && fwd.aSize == |a| && fwd.bSize == |b|
    requires rev.Valid() && rev.aSize == |a| && rev.bSize == |b|
    requires ReverseSeed(|a|, |b|, d, rev.Ends())
    requires ForwardRow(Matches(a, b, eq), d, fwd.Ends(), d + 1)
    requires ReverseRow(Matches(a, b, eq), |a|, |b|, d - 1, rev.Ends(), d)
    requires 2 * d - 1 < Dist(Matches(a, b, eq), |a|, |b|)
    modifies rev.data, rev`steps
    ensures done <==> Dist(Matches(a, b, eq), |a|, |b|) == 2 * d
    ensures done ==> IsMiddleSnake(Matches(a, b, eq), |a|, |b|, snak, sesLen)
    ensures !done ==> ReverseRow(Matches(a, b, eq), |a|, |b|, d, rev.Ends(), d + 1)
  {
    hide Dist, Furthest, Matches, Rotated, ForwardRow, ReverseRow, NoMeeting, IsMiddleSnake, DPathVec.InBounds,
         DPathVec.Ends;
    ghost var m := Matches(a, b, eq);
    done, snak, sesLen := false, NO_SNAKE, 0;
    var k := 0 - d;
    ReverseRowBounds(m, |a|, |b|, d, rev.Ends(), k);
    NoMeetingBounds(|a|, |b|, fwd.Ends(), rev.Ends(), d, d, k + (|a| - |b|));
    while k <= d
      invariant 0 - d <= k <= d + 2 && Even(k + d)
      invariant ReverseSeed(|a|, |b|, d, rev.Ends())
      invariant ReverseRow(m, |a|, |b|, d - 1, rev.Ends(), d) && ReverseRow(m, |a|, |b|, d, rev.Ends(), k)
      invariant !Even(|a| - |b|) || NoMeeting(|a|, |b|, fwd.Ends(), rev.Ends(), d, d, k + (|a| - |b|))
    {
      done, snak, sesLen := ExtendReverse(k, d, a, b, eq, fwd, rev);
      if done {
        return;
      }
      k := k + 2;
    }
    ReverseRowBounds(m, |a|, |b|, d, rev.Ends(), k);
    MatchesBounded(a, b, eq);
    DistParity(m, |a|, |b|);
    if Dist(m, |a|, |b|) == 2 * d {
      EndsMeet(m, |a|, |b|, fwd.Ends(), rev.Ends(), d, d, k + (|a| - |b|));
      assert false;
    }
  }

  /** The middle snake of two sequences, and the length of their shortest edit script.  There always is
      one: the program's answer that there is none is never given. */
  method ComputeMiddleSnake<T>(a: seq<T>, b: seq<T>, eq: (T, T) -> bool)
    returns (found: bool, snak: Snake, sesLen: nat)
    ensures found && sesLen == Dist(Matches(a, b, eq), |a|, |b|)
    ensures IsMiddleSnake(Matches(a, b, eq), |a|, |b|, snak, sesLen)
  {
    hide Dist, Furthest, Matches, Rotated, ForwardSnake, ReverseSnake, DPathVec.Ends;
    found, snak, sesLen := false, NO_SNAKE, 0;
    ghost var m := Matches(a, b, eq);
    var aSize, bSize := |a|, |b|;
    var delta := aSize - bSize;
    var fwd := new DPathVec(aSize, bSize);
    var rev := new DPathVec(aSize, bSize);
    fwd.DiagonalsInBounds(1);
    rev.DiagonalsInBounds(1);
    fwd.Set(1, -1, -1);
    rev.Set(delta + 1, aSize, -1);
    DistAtLeastDiagonal(m, aSize, bSize);
    var dMax := (bSize + aSize) / 2 + 1;
    var d := 0;
    while d <= dMax
      invariant 2 * d - 2 < Dist(m, aSize, bSize)
      invariant ForwardSeed(d, fwd.Ends()) && ReverseSeed(aSize, bSize, d, rev.Ends())
      invariant ForwardRow(m, d - 1, fwd.Ends(), d) && ReverseRow(m, aSize, bSize, d - 1, rev.Ends(), d)
    {
      found, snak, sesLen := ForwardPhase(d, a, b, eq, fwd, rev);
      if found {
        return;
      }
      found, snak, sesLen := ReversePhase(d, a, b, eq, fwd, rev);
      if found {
        return;
      }
      d := d + 1;
    }
    assert false;
  }

  /** Step d of the forward search, looking for a path that reaches the bottom-right corner.  A snake
      that left the grid does not replace the previous one. */
  method SesLenStep<T>(d: nat, a: seq<T>, b: seq<T>, eq: (T, T) -> bool, v: DPathVec, prev: Snake)
    returns (done: bool, snak: Snake)
    requires v.Valid() && v.MaxD() == |a| + |b| && d <= v.MaxD()
    requires v.aSize == |a| ==> d <= Dist(Matches(a, b, eq), |a|, |b|)
    requires ForwardSeed(d, v.Ends()) && ForwardRow(Matches(a, b, eq), d - 1, v.Ends(), d)
    requires prev == NO_SNAKE || !AtCorner(prev.end, |a|, |b|)
    modifies v.data, v`steps
    ensures done <==> v.aSize == |a| && d == Dist(Matches(a, b, eq), |a|, |b|)
    ensures !done ==> ForwardRow(Matches(a, b, eq), d, v.Ends(), d + 1)
    ensures !done ==> snak == NO_SNAKE || !AtCorner(snak.end, |a|, |b|)
  {
    hide Dist, Furthest, Matches, ForwardSnake, ForwardRow, DPathVec.InBounds, DPathVec.Ends;
    ghost var m := Matches(a, b, eq);
    snak := prev;
    MatchesBounded(a, b, eq);
    DistAtLeastDiagonal(m, |a|, |b|);
    DistParity(m, |a|, |b|);
    var k := 0 - d;
    ForwardRowBounds(m, d, v.Ends(), k);
    while k <= d
      invariant 0 - d <= k <= d + 2 && Even(k + d)
      invariant ForwardSeed(d, v.Ends())
      invariant ForwardRow(m, d - 1, v.Ends(), d) && ForwardRow(m, d, v.Ends(), k)
      invariant snak == NO_SNAKE || !AtCorner(snak.end, |a|, |b|)
      invariant v.aSize == |a| && d == Dist(m, |a|, |b|) ==> k <= |a| - |b|
    {
      v.DiagonalsInBounds(k);
      var found;
      found, snak := EndOfFrDPathInK(k, d, a, b, eq, v, snak);
      ForwardRowAt(m, d, v.Ends(), k + 2, k);
      if v.aSize == |a| {
        CornerReached(m, |a|, |b|, d, k, v.Ends()[k].x + 1);
      }
      if AtCorner(snak.end, |a|, |b|) {
        return true, snak;
      }
      k := k + 2;
    }
    ForwardRowBounds(m, d, v.Ends(), k);
    done := false;
  }

  /** The length of the shortest edit script, by the forward search alone.  The program only asks for a vector
      of the right total size.  One that was made for sequences of other lengths takes the corner to be off
      the grid, so that the search ends without an answer. */
  method SesLen<T>(a: seq<T>, b: seq<T>, eq: (T, T) -> bool, v: DPathVec) returns (sesLen: nat)
    requires v.Valid() && v.MaxD() == |a| + |b|
    modifies v.data, v`steps
    ensures sesLen == if v.aSize == |a| then Dist(Matches(a, b, eq), |a|, |b|) else 0
  {
    hide Dist, Furthest, Matches, ForwardSnake, ForwardRow, DPathVec.InBounds, DPathVec.Ends;
    ghost var m := Matches(a, b, eq);
    sesLen := 0;
    var snak := NO_SNAKE;
    v.DiagonalsInBounds(1);
    v.Set(1, -1, -1);
    DistAtLeastDiagonal(m, |a|, |b|);
    var d := 0;
    ForwardRowBounds(m, d - 1, v.Ends(), d);
    while d <= v.MaxD()
      invariant v.aSize == |a| ==> d <= Dist(m, |a|, |b|)
      invariant ForwardSeed(d, v.Ends()) && ForwardRow(m, d - 1, v.Ends(), d)
      invariant snak == NO_SNAKE || !AtCorner(snak.end, |a|, |b|)
    {
      var done;
      done, snak := SesLenStep(d, a, b, eq, v, snak);
      if done {
        return d;
      }
      d := d + 1;
    }
  }

  predicate AtCorner(p: Point, aSize: nat, bSize: nat) {
    p.x == aSize - 1 && p.y == bSize - 1
  }

  /** While the corner is at least d edges away, a furthest reaching d-path ends in it exactly when the
      corner is on its diagonal and d edges away. */
  lemma CornerReached(m: Match, M: nat, N: nat, d: int, k: int, i: int)
    requires Bounded(m, M, N) && Furthest(m, d, k, i) && d <= Dist(m, M, N)
    ensures i == M && i - k == N <==> d == Dist(m, M, N) && k == M - N
  {
    hide Dist;
    if d == Dist(m, M, N) && k == M - N {
      FurthestIsGreatest(m, d, k, i, M);
      if i > M {
        OffGridIsShort(m, M, N, i, i - k, 0);
      }
    }
  }
}
