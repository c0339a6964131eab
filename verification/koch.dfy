/** The list structure of `koch_curve_recursive` in
    fractais_py/Exercicio04.py: each refinement replaces every segment
    `p1 -> p2` by `p1` and three new points, then keeps the last point. The
    coordinates of the three new points are a function `inserted` of
    `(p1, p2)` that the model leaves abstract. */
module KochCurve {
  import opened Wrappers
  import opened Ternary

  /** What `new_points` holds after the loop has handled its first `n`
      segments: for each of them, its start point and the three points
      inserted on it. */
  function Segments<P>(points: seq<P>, inserted: (P, P) -> (P, P, P), n: nat): (r: seq<P>)
    requires n < |points|
    ensures |r| == 4 * n
  {
    if n == 0 then []
    else
      var (a, b, c) := inserted(points[n - 1], points[n]);
      Segments(points, inserted, n - 1) + [points[n - 1], a, b, c]
  }

  /** One refinement of a non-empty point list: all its segments, then the
      last point. */
  function Refined<P>(points: seq<P>, inserted: (P, P) -> (P, P, P)): (r: seq<P>)
    requires |points| >= 1
    ensures |r| == 4 * (|points| - 1) + 1
  {
    Segments(points, inserted, |points| - 1) + [points[|points| - 1]]
  }

  /** Inside the first `n` segments, point `i` sits at index `4 * i`
      followed by the three points inserted between it and point `i + 1`. */
  lemma {:induction false} SegmentsAt<P>(points: seq<P>, inserted: (P, P) -> (P, P, P), n: nat, i: nat)
    requires n < |points| && i < n
    ensures var s := Segments(points, inserted, n);
            var (a, b, c) := inserted(points[i], points[i + 1]);
            s[4 * i] == points[i] && s[4 * i + 1] == a && s[4 * i + 2] == b && s[4 * i + 3] == c
  {
    if i < n - 1 {
      SegmentsAt(points, inserted, n - 1, i);
      var s := Segments(points, inserted, n);
      var s' := Segments(points, inserted, n - 1);
      assert s[..4 * (n - 1)] == s';
      assert s[4 * i] == s'[4 * i] && s[4 * i + 1] == s'[4 * i + 1];
      assert s[4 * i + 2] == s'[4 * i + 2] && s[4 * i + 3] == s'[4 * i + 3];
    }
  }

  /** One refinement keeps `points[i]` at index `4 * i`, puts the three
      inserted points right after it, and so keeps the first and the last
      point at both ends. */
  lemma RefinedAt<P>(points: seq<P>, inserted: (P, P) -> (P, P, P), i: nat)
    requires i < |points|
    ensures var r := Refined(points, inserted);
            && r[4 * i] == points[i]
            && (i + 1 < |points| ==>
                  var (a, b, c) := inserted(points[i], points[i + 1]);
                  r[4 * i + 1] == a && r[4 * i + 2] == b && r[4 * i + 3] == c)
  {
    var r := Refined(points, inserted);
    var s := Segments(points, inserted, |points| - 1);
    if i + 1 < |points| {
      SegmentsAt(points, inserted, |points| - 1, i);
      assert r[4 * i] == s[4 * i] && r[4 * i + 1] == s[4 * i + 1];
      assert r[4 * i + 2] == s[4 * i + 2] && r[4 * i + 3] == s[4 * i + 3];
    }
  }

  /** `order` refinements of a non-empty list. */
  function Koch<P>(points: seq<P>, order: nat, inserted: (P, P) -> (P, P, P)): (r: seq<P>)
    requires |points| >= 1
    ensures |r| == Pow(4, order) * (|points| - 1) + 1
    decreases order
  {
    if order == 0 then points
    else
      var next := Refined(points, inserted);
      assert Pow(4, order - 1) * (|next| - 1) == Pow(4, order) * (|points| - 1) by {
        assert |next| - 1 == 4 * (|points| - 1);
        Reassociate(Pow(4, order - 1), 4, |points| - 1);
      }
      Koch(next, order - 1, inserted)
  }

  lemma Reassociate(a: int, b: int, c: int)
    ensures a * (b * c) == (b * a) * c
  {
  }

  /** After `order` refinements `points[i]` sits at index `4 ** order * i`. */
  lemma {:induction false} KochAt<P>(points: seq<P>, order: nat, inserted: (P, P) -> (P, P, P), i: nat)
    requires i < |points|
    ensures Pow(4, order) * i < |Koch(points, order, inserted)|
    ensures Koch(points, order, inserted)[Pow(4, order) * i] == points[i]
    decreases order
  {
    if order > 0 {
      var next := Refined(points, inserted);
      RefinedAt(points, inserted, i);
      KochAt(next, order - 1, inserted, 4 * i);
      Reassociate(Pow(4, order - 1), 4, i);
    } else {
      assert Pow(4, 0) * i == i;
    }
  }

  /** The curve drawn from one segment: `4 ** order + 1` points that start
      and end at the segment's two ends. */
  lemma KochOfSegment<P>(p1: P, p2: P, order: nat, inserted: (P, P) -> (P, P, P))
    ensures var r := Koch([p1, p2], order, inserted);
            && |r| == Pow(4, order) + 1
            && r[0] == p1 && r[|r| - 1] == p2
  {
    KochAt([p1, p2], order, inserted, 0);
    KochAt([p1, p2], order, inserted, 1);
  }

  /** One pass of the loop of `koch_curve_recursive`: for every segment,
      extend `new_points` by its start and the three inserted points, then
      append `points[-1]`. An empty list has no `points[-1]` and gives None. */
  method RefineStep<P>(points: seq<P>, inserted: (P, P) -> (P, P, P)) returns (r: Option<seq<P>>)
    ensures r.None? <==> points == []
    ensures r.Some? ==> r.value == Refined(points, inserted)
  {
    var newPoints := [];
    var i := 0;
    // `range(len(points) - 1)` is empty for an empty list
    while i < |points| - 1
      invariant points != [] ==> i <= |points| - 1 && newPoints == Segments(points, inserted, i)
      invariant points == [] ==> i == 0
    {
      var p1, p2 := points[i], points[i + 1];
      var (a, b, c) := inserted(p1, p2);
      newPoints := newPoints + [p1, a, b, c];
      i := i + 1;
    }
    if points == [] {
      return None;
    }
    newPoints := newPoints + [points[|points| - 1]];
    r := Some(newPoints);
  }

  /** `koch_curve_recursive(points, order)`: order 0 returns the list as it
      is; otherwise one refinement and a recursive call with `order - 1`. */
  method KochCurveRecursive<P>(points: seq<P>, order: nat, inserted: (P, P) -> (P, P, P))
    returns (r: Option<seq<P>>)
    ensures order == 0 ==> r == Some(points)
    ensures order > 0 ==> (r.None? <==> points == [])
    ensures order > 0 && points != [] ==> r == Some(Koch(points, order, inserted))
    decreases order
  {
    if order == 0 {
      return Some(points);
    }
    var step := RefineStep(points, inserted);
    if step.None? {
      return None;
    }
    r := KochCurveRecursive(step.value, order - 1, inserted);
  }

  /** A point of the plane. */
  type Point = (real, real)

  /** The three points `koch_curve_recursive` puts between `p1` and `p2`:
      one third of the way, the apex of the bump, two thirds of the way.
      `sqrt3` stands for `np.sqrt(3)`. The apex lies on the perpendicular
      bisector of the segment. */
  function Inserted(sqrt3: real, p1: Point, p2: Point): (r: (Point, Point, Point))
    ensures 3.0 * (r.0.0 - p1.0) == p2.0 - p1.0 && 3.0 * (r.0.1 - p1.1) == p2.1 - p1.1
    ensures 3.0 * (p2.0 - r.2.0) == p2.0 - p1.0 && 3.0 * (p2.1 - r.2.1) == p2.1 - p1.1
    ensures (2.0 * r.1.0 - p1.0 - p2.0) * (p2.0 - p1.0) + (2.0 * r.1.1 - p1.1 - p2.1) * (p2.1 - p1.1) == 0.0
  {
    var dx, dy := p2.0 - p1.0, p2.1 - p1.1;
    ((p1.0 + dx / 3.0, p1.1 + dy / 3.0),
     (p1.0 + dx / 2.0 - dy * sqrt3 / 6.0, p1.1 + dy / 2.0 + dx * sqrt3 / 6.0),
     (p1.0 + 2.0 * dx / 3.0, p1.1 + 2.0 * dy / 3.0))
  }

  /** Squared distance between two points. */
  function Dist2(p: Point, q: Point): real {
    (q.0 - p.0) * (q.0 - p.0) + (q.1 - p.1) * (q.1 - p.1)
  }

  /** The squared length of a step `(k * u, k * v)`. */
  lemma ScaledDist2(p: Point, q: Point, k: real, u: real, v: real)
    requires q.0 - p.0 == k * u && q.1 - p.1 == k * v
    ensures Dist2(p, q) == k * k * (u * u + v * v)
  {
  }

  /** The squared length of a side of the bump, `(u -+ s v, v +- s u)`. */
  lemma TurnedDist2(p: Point, q: Point, s: real, u: real, v: real, sign: real)
    requires sign == 1.0 || sign == -1.0
    requires q.0 - p.0 == u - sign * s * v && q.1 - p.1 == v + sign * s * u
    ensures Dist2(p, q) == (1.0 + s * s) * (u * u + v * v)
  {
    var du, dv := q.0 - p.0, q.1 - p.1;
    assert du * du == u * u - 2.0 * sign * s * u * v + s * s * v * v;
    assert dv * dv == v * v + 2.0 * sign * s * u * v + s * s * u * u;
  }

  /** With `sqrt3 * sqrt3 == 3`, the inserted points cut the segment into
      thirds and raise an equilateral bump on the middle third: all three
      sides of the triangle `a, b, c` are a third of the segment. */
  lemma InsertedIsEquilateral(sqrt3: real, p1: Point, p2: Point, a: Point, b: Point, c: Point)
    requires sqrt3 * sqrt3 == 3.0 && (a, b, c) == Inserted(sqrt3, p1, p2)
    ensures 9.0 * Dist2(p1, a) == Dist2(p1, p2)
    ensures Dist2(a, c) == Dist2(p1, a) && Dist2(c, p2) == Dist2(p1, a)
    ensures Dist2(a, b) == Dist2(a, c) && Dist2(b, c) == Dist2(a, c)
  {
    var u, v := (p2.0 - p1.0) / 6.0, (p2.1 - p1.1) / 6.0;
    ScaledDist2(p1, p2, 6.0, u, v);
    ScaledDist2(p1, a, 2.0, u, v);
    ScaledDist2(a, c, 2.0, u, v);
    ScaledDist2(c, p2, 2.0, u, v);
    TurnedDist2(a, b, sqrt3, u, v, 1.0);
    TurnedDist2(b, c, sqrt3, u, v, -1.0);
  }

  /** `koch_curve(order, size)` without the plotting: the curve refined
      from the segment `(0, 0) -> (size, 0)` with the bump of `Inserted`,
      `4 ** order + 1` points from one end to the other. */
  method KochCurvePoints(order: nat, size: real, sqrt3: real) returns (points: seq<Point>)
    ensures points == Koch([(0.0, 0.0), (size, 0.0)], order, (p1, p2) => Inserted(sqrt3, p1, p2))
    ensures |points| == Pow(4, order) + 1
    ensures points[0] == (0.0, 0.0) && points[|points| - 1] == (size, 0.0)
  {
    var inserted := (p1, p2) => Inserted(sqrt3, p1, p2);
    var r := KochCurveRecursive([(0.0, 0.0), (size, 0.0)], order, inserted);
    KochOfSegment((0.0, 0.0), (size, 0.0), order, inserted);
    points := r.value;
  }
}
