/** Bresenham lines: `Point::line_to`. */
module Line {
  import opened Geometry
  import B = Bits

  function Dist(a: int, b: int): nat { if b > a then b - a else a - b }

  function Max(a: nat, b: nat): nat { if a < b then b else a }

  /** `d`: the extent of the line along each axis. */
  function Extent(c0: Point, c1: Point): (nat, nat) { (Dist(c0.x, c1.x), Dist(c0.y, c1.y)) }

  /** After `i` steps along x and `j` along y: how far the point is from the line along the
      shorter axis, times the larger extent. Half a pixel is half that extent. */
  function Deviation(dx: nat, dy: nat, i: nat, j: nat): int { dx * j - dy * i }

  function Sign(from: int, to: int): int { if to > from then 1 else -1 }

  /** The point `i` and `j` steps from `c0` towards `c1`. */
  function Along(c0: Point, c1: Point, i: nat, j: nat): Point {
    Point(c0.x + Sign(c0.x, c1.x) * i, c0.y + Sign(c0.y, c1.y) * j)
  }

  /** Within half a pixel of the line; of two points exactly half a pixel off, the one that is
      fewer steps along the shorter axis. */
  predicate Close(dx: nat, dy: nat, i: nat, j: nat) {
    var m := Max(dx, dy);
    && i <= dx && j <= dy && 2 * Deviation(dx, dy, i, j) <= m && -2 * Deviation(dx, dy, i, j) <= m
    && (dx > dy ==> 2 * Deviation(dx, dy, i, j) < m) && (dy > dx ==> -2 * Deviation(dx, dy, i, j) < m)
  }

  /** There is one such point in every column or row of the longer axis. */
  lemma ClosestIsUnique(dx: nat, dy: nat, i: nat, j: nat, i': nat, j': nat)
    requires Close(dx, dy, i, j) && Close(dx, dy, i', j')
    requires (dx >= dy ==> i == i') && (dy >= dx ==> j == j')
    ensures i == i' && j == j'
  {
    assert Deviation(dx, dy, i, j) - Deviation(dx, dy, i', j') == dx * (j - j') - dy * (i - i');
    if i == i' && j != j' { B.MulAtLeast(dx, j - j'); }
    if j == j' && i != i' { B.MulAtLeast(dy, i - i'); }
  }

  lemma DeviationStep(dx: nat, dy: nat, i: nat, j: nat)
    ensures Deviation(dx, dy, i + 1, j) == Deviation(dx, dy, i, j) - dy
    ensures Deviation(dx, dy, i, j + 1) == Deviation(dx, dy, i, j) + dx
    ensures Deviation(dx, dy, i + 1, j + 1) == Deviation(dx, dy, i, j) + dx - dy
  {
  }

  /** On the longer axis's last column the line has arrived; before it, it has not passed. */
  lemma ArrivalMajor(m: nat, n: nat, i: nat, j: nat)
    requires m > 0 && i <= m && 2 * (m * j - n * i) <= m && -2 * (m * j - n * i) <= m
    ensures j <= n && (i == m ==> j == n)
  {
    var p, q := m * (j - n), n * (m - i);
    assert m * j - n * i == p + q by { assert p == m * j - m * n && q == n * m - n * i; }
    assert q >= 0 && (i == m ==> q == 0);
    if j != n { B.MulAtLeast(m, j - n); }
  }

  lemma Arrival(dx: nat, dy: nat, i: nat, j: nat)
    requires 2 * Deviation(dx, dy, i, j) <= Max(dx, dy) && -2 * Deviation(dx, dy, i, j) <= Max(dx, dy)
    ensures dx >= dy && i <= dx && dx > 0 ==> j <= dy && (i == dx ==> j == dy)
    ensures dy >= dx && j <= dy && dy > 0 ==> i <= dx && (j == dy ==> i == dx)
  {
    if dx >= dy && i <= dx && dx > 0 { ArrivalMajor(dx, dy, i, j); }
    if dy >= dx && j <= dy && dy > 0 { ArrivalMajor(dy, dx, j, i); }
  }

  /** What one turn of the loop does to the step counts, from the error term alone. */
  function Turn(dx: nat, dy: nat, i: nat, j: nat): (nat, nat) {
    var e2 := 2 * (dx - dy + Deviation(dx, dy, i, j));
    (if e2 > 0 - dy then i + 1 else i, if e2 < dx then j + 1 else j)
  }

  /** The longer axis moves in every turn, and the point stays within half a pixel. */
  lemma TurnKeepsClose(dx: nat, dy: nat, i: nat, j: nat)
    requires Close(dx, dy, i, j) && (i != dx || j != dy)
    ensures var (i', j') := Turn(dx, dy, i, j);
      && Close(dx, dy, i', j') && i <= i' <= i + 1 && j <= j' <= j + 1
      && (dx >= dy ==> i' == i + 1) && (dy >= dx ==> j' == j + 1)
  {
    var (i', j') := Turn(dx, dy, i, j);
    Arrival(dx, dy, i, j);
    DeviationStep(dx, dy, i, j);
    if dx == dy { DiagonalIsExact(dx, i, j); }
    assert 2 * Deviation(dx, dy, i', j') <= Max(dx, dy) && -2 * Deviation(dx, dy, i', j') <= Max(dx, dy);
    Arrival(dx, dy, i', j');
    hide Deviation;
  }

  lemma DiagonalIsExact(d: nat, i: nat, j: nat)
    requires Close(d, d, i, j)
    ensures Deviation(d, d, i, j) == 0 && (d > 0 ==> i == j)
  {
    assert Deviation(d, d, i, j) == d * (j - i);
    if i != j && d > 0 { B.MulAtLeast(d, j - i); }
  }

  /** Point number `k`: so many steps along each axis, `k` of them along the longer, and no
      more than half a pixel off. */
  predicate Plotted(c0: Point, c1: Point, p: Point, i: nat, j: nat, k: nat) {
    var (dx, dy) := Extent(c0, c1);
    && p == Along(c0, c1, i, j) && Close(dx, dy, i, j)
    && k == Max(i, j) && (dx >= dy ==> i == k) && (dy >= dx ==> j == k)
  }

  /** From the point before to point number `k` at most one step along each axis. */
  predicate Stepped(xs: seq<nat>, ys: seq<nat>, k: nat)
    requires 0 < k < |xs| == |ys|
  {
    xs[k - 1] <= xs[k] <= xs[k - 1] + 1 && ys[k - 1] <= ys[k] <= ys[k - 1] + 1
  }

  /** The points at which the line passes, in order: it starts and ends where it should, moves
      one column or row of its longer axis at a time, and is never more than half a pixel off. */
  ghost predicate IsLine(c0: Point, c1: Point, ps: seq<Point>, xs: seq<nat>, ys: seq<nat>) {
    && |ps| == |xs| == |ys| >= 1 && ps[0] == c0
    && (forall k :: 0 <= k < |ps| ==> Plotted(c0, c1, ps[k], xs[k], ys[k], k))
    && (forall k :: 0 < k < |ps| ==> Stepped(xs, ys, k))
  }

  /** There is one such line. */
  lemma LineIsUnique(c0: Point, c1: Point, ps: seq<Point>, xs: seq<nat>, ys: seq<nat>,
                     ps': seq<Point>, xs': seq<nat>, ys': seq<nat>)
    requires IsLine(c0, c1, ps, xs, ys) && IsLine(c0, c1, ps', xs', ys') && |ps| == |ps'|
    ensures ps == ps'
  {
    hide Close, Along, Stepped;
    forall k | 0 <= k < |ps| ensures ps[k] == ps'[k] {
      assert Plotted(c0, c1, ps[k], xs[k], ys[k], k) && Plotted(c0, c1, ps'[k], xs'[k], ys'[k], k);
      ClosestIsUnique(Extent(c0, c1).0, Extent(c0, c1).1, xs[k], ys[k], xs'[k], ys'[k]);
    }
  }

  /** `f` is called on the returned points, in order. */
  method LineTo(c0: Point, c1: Point) returns (ps: seq<Point>, ghost xs: seq<nat>, ghost ys: seq<nat>)
    ensures IsLine(c0, c1, ps, xs, ys)
    ensures |ps| == Max(Extent(c0, c1).0, Extent(c0, c1).1) + 1
    ensures ps[|ps| - 1] == c1
  {
    hide Deviation, IsLine, Along, Close, Sign;
    var (dx, dy) := Extent(c0, c1);
    var sx, sy := Sign(c0.x, c1.x), Sign(c0.y, c1.y);
    var c, e := c0, dx - dy;
    ghost var i: nat, j: nat := 0, 0;
    LineStarts(c0, c1);
    NoStepYet(dx, dy);
    ps, xs, ys := [c], [0], [0];
    while c != c1
      invariant c == Along(c0, c1, i, j) && e == dx - dy + Deviation(dx, dy, i, j) && Close(dx, dy, i, j)
      invariant IsLine(c0, c1, ps, xs, ys) && |ps| == |xs| == |ys| >= 1 && xs[|ps| - 1] == i && ys[|ps| - 1] == j
      invariant i <= dx && j <= dy
      decreases (dx - i) + (dy - j)
    {
      NotThere(c0, c1, i, j);
      TurnKeepsClose(dx, dy, i, j);
      DeviationStep(dx, dy, i, j);
      AlongStep(c0, c1, i, j);
      var e2 := e + e;
      ghost var i', j' := i, j;
      if e2 > 0 - dy {
        e := e - dy;
        c := c.(x := c.x + sx);
        i' := i + 1;
      }
      if e2 < dx {
        e := e + dx;
        c := c.(y := c.y + sy);
        j' := j + 1;
      }
      assert Turn(dx, dy, i, j) == (i', j');
      i, j := i', j';
      CloseInside(dx, dy, i, j);
      LineGrows(c0, c1, ps, xs, ys, i, j);
      ps, xs, ys := ps + [c], xs + [i], ys + [j];
    }
    There(c0, c1, i, j);
    LineLength(c0, c1, ps, xs, ys);
  }

  lemma LineGrows(c0: Point, c1: Point, ps: seq<Point>, xs: seq<nat>, ys: seq<nat>, i: nat, j: nat)
    requires IsLine(c0, c1, ps, xs, ys) && Close(Extent(c0, c1).0, Extent(c0, c1).1, i, j)
    requires var (dx, dy), n := Extent(c0, c1), |ps|;
      && xs[n - 1] <= i <= xs[n - 1] + 1 && ys[n - 1] <= j <= ys[n - 1] + 1
      && (dx >= dy ==> i == xs[n - 1] + 1) && (dy >= dx ==> j == ys[n - 1] + 1)
    ensures IsLine(c0, c1, ps + [Along(c0, c1, i, j)], xs + [i], ys + [j])
  {
    hide Close, Along, Plotted, Stepped;
    var n := |ps|;
    var ps', xs', ys' := ps + [Along(c0, c1, i, j)], xs + [i], ys + [j];
    NextPlotted(c0, c1, ps[n - 1], xs[n - 1], ys[n - 1], n - 1, i, j);
    forall k | 0 < k < n + 1 ensures Stepped(xs', ys', k) {
      if k < n { StepKept(xs, ys, i, j, k); } else { StepAdded(xs, ys, i, j); }
    }
  }

  lemma NextPlotted(c0: Point, c1: Point, p: Point, i: nat, j: nat, k: nat, i': nat, j': nat)
    requires Plotted(c0, c1, p, i, j, k) && Close(Extent(c0, c1).0, Extent(c0, c1).1, i', j')
    requires i <= i' <= i + 1 && j <= j' <= j + 1
    requires var (dx, dy) := Extent(c0, c1); (dx >= dy ==> i' == i + 1) && (dy >= dx ==> j' == j + 1)
    ensures Plotted(c0, c1, Along(c0, c1, i', j'), i', j', k + 1)
  {
    hide Close, Along;
  }

  lemma StepKept(xs: seq<nat>, ys: seq<nat>, i: nat, j: nat, k: nat)
    requires 0 < k < |xs| == |ys| && Stepped(xs, ys, k)
    ensures Stepped(xs + [i], ys + [j], k)
  {
  }

  lemma StepAdded(xs: seq<nat>, ys: seq<nat>, i: nat, j: nat)
    requires |xs| == |ys| > 0 && xs[|xs| - 1] <= i <= xs[|xs| - 1] + 1 && ys[|ys| - 1] <= j <= ys[|ys| - 1] + 1
    ensures Stepped(xs + [i], ys + [j], |xs|)
  {
  }

  lemma LineStarts(c0: Point, c1: Point)
    ensures IsLine(c0, c1, [c0], [0], [0]) && Along(c0, c1, 0, 0) == c0
  {
    assert Along(c0, c1, 0, 0) == c0;
  }

  lemma CloseInside(dx: nat, dy: nat, i: nat, j: nat)
    requires Close(dx, dy, i, j)
    ensures i <= dx && j <= dy
  {
  }

  lemma NoStepYet(dx: nat, dy: nat)
    ensures Close(dx, dy, 0, 0) && Deviation(dx, dy, 0, 0) == 0
  {
  }

  lemma LineLength(c0: Point, c1: Point, ps: seq<Point>, xs: seq<nat>, ys: seq<nat>)
    requires IsLine(c0, c1, ps, xs, ys)
    ensures |ps| == |xs| == |ys| >= 1 && |ps| - 1 == Max(xs[|ps| - 1], ys[|ps| - 1])
    ensures ps[|ps| - 1] == Along(c0, c1, xs[|ps| - 1], ys[|ps| - 1])
  {
  }

  lemma AlongStep(c0: Point, c1: Point, i: nat, j: nat)
    ensures var p, sx, sy := Along(c0, c1, i, j), Sign(c0.x, c1.x), Sign(c0.y, c1.y);
      && Along(c0, c1, i + 1, j) == p.(x := p.x + sx) && Along(c0, c1, i, j + 1) == p.(y := p.y + sy)
      && Along(c0, c1, i + 1, j + 1) == Point(p.x + sx, p.y + sy)
  {
  }

  lemma NotThere(c0: Point, c1: Point, i: nat, j: nat)
    requires Along(c0, c1, i, j) != c1
    ensures i != Extent(c0, c1).0 || j != Extent(c0, c1).1
  {
  }

  lemma There(c0: Point, c1: Point, i: nat, j: nat)
    requires Along(c0, c1, i, j) == c1
    ensures i == Extent(c0, c1).0 && j == Extent(c0, c1).1
  {
  }
}
