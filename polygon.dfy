/** Even-odd (ray-casting) rasterisation of a closed polygon onto a square-celled grid
    anchored at the world origin (HeatMapSolver._rasterize_geometry). */
module Polygon {

  import opened Arith

  /** A polygon vertex in world coordinates (metres). */
  datatype Point = Point(x: real, y: real)

  /** A directed polygon edge from p1 to p2. */
  datatype Edge = Edge(p1: Point, p2: Point)

  /** The x coordinates of the vertices (the column poly[:, 0]). */
  function Xs(poly: seq<Point>): (xs: seq<real>)
    ensures |xs| == |poly|
  {
    seq(|poly|, i requires 0 <= i < |poly| => poly[i].x)
  }

  /** The y coordinates of the vertices (the column poly[:, 1]). */
  function Ys(poly: seq<Point>): (ys: seq<real>)
    ensures |ys| == |poly|
  {
    seq(|poly|, i requires 0 <= i < |poly| => poly[i].y)
  }

  /** The largest value of a non-empty list. */
  function MaxOf(vals: seq<real>): (m: real)
    requires |vals| > 0
    ensures forall i :: 0 <= i < |vals| ==> vals[i] <= m
    ensures exists i :: 0 <= i < |vals| && vals[i] == m
  {
    if |vals| == 1 then vals[0]
    else
      var rest := MaxOf(vals[1..]);
      assert forall i :: 1 <= i < |vals| ==> vals[i] == vals[1..][i - 1];
      if vals[0] >= rest then vals[0] else rest
  }

  /** The smallest value of a non-empty list. */
  function MinOf(vals: seq<real>): (m: real)
    requires |vals| > 0
    ensures forall i :: 0 <= i < |vals| ==> m <= vals[i]
    ensures exists i :: 0 <= i < |vals| && vals[i] == m
  {
    if |vals| == 1 then vals[0]
    else
      var rest := MinOf(vals[1..]);
      assert forall i :: 1 <= i < |vals| ==> vals[i] == vals[1..][i - 1];
      if vals[0] <= rest then vals[0] else rest
  }

  /** Index of the vertex that follows vertex i on a closed polygon of n vertices. */
  function Succ(i: nat, n: nat): nat
  {
    if i + 1 < n then i + 1 else 0
  }

  /** The closed edge list: edge i runs from vertex i to the next vertex, and the last
      edge closes the polygon back to the first vertex. */
  function Edges(poly: seq<Point>): (es: seq<Edge>)
    ensures |es| == |poly|
    ensures forall i :: 0 <= i < |poly| - 1 ==> es[i] == Edge(poly[i], poly[i + 1])
    ensures |poly| > 0 ==> es[|poly| - 1] == Edge(poly[|poly| - 1], poly[0])
  {
    seq(|poly|, i requires 0 <= i < |poly| => Edge(poly[i], poly[Succ(i, |poly|)]))
  }

  /** The successor index on a closed polygon is i + 1 taken modulo n. */
  lemma SuccIsModulo(i: nat, n: nat)
    requires i < n
    ensures (i + 1) % n == Succ(i, n)
  {
    if i + 1 == n {
      assert (i + 1) % n == 0;
    }
  }

  /** Builds the edge list one vertex at a time, taking the successor index modulo n. */
  method BuildEdges(poly: seq<Point>) returns (edges: seq<Edge>)
    ensures edges == Edges(poly)
  {
    var n := |poly|;
    edges := [];
    for i := 0 to n
      invariant |edges| == i
      invariant forall j :: 0 <= j < i ==> edges[j] == Edge(poly[j], poly[Succ(j, n)])
    {
      var next := (i + 1) % n;
      SuccIsModulo(i, n);
      edges := edges + [Edge(poly[i], poly[next])];
    }
  }

  /** The coordinate of the centre of cell i along one axis, for cell size dx. */
  function Center(i: int, dx: real): (x: real)
    ensures dx > 0.0 ==> i as real * dx < x < (i + 1) as real * dx
  {
    i as real * dx + dx / 2.0
  }

  /** The edge spans the horizontal line at height y: exactly one endpoint lies above it.
      A horizontal edge never spans, so an edge that does has y1 != y2. */
  predicate Straddles(e: Edge, y: real)
    ensures Straddles(e, y) ==> e.p1.y != e.p2.y
  {
    (e.p1.y > y) != (e.p2.y > y)
  }

  /** The x coordinate where the edge's line meets height y; defined only for a
      non-horizontal edge, which rules out a division by zero. */
  function XIntersect(e: Edge, y: real): (x: real)
    requires e.p1.y != e.p2.y
    ensures y == e.p1.y ==> x == e.p1.x
    ensures y == e.p2.y ==> x == e.p2.x
  {
    (e.p2.x - e.p1.x) * (y - e.p1.y) / (e.p2.y - e.p1.y) + e.p1.x
  }

  /** The ray from (x, y) towards +x crosses the edge. */
  predicate Crosses(e: Edge, x: real, y: real)
  {
    Straddles(e, y) && x < XIntersect(e, y)
  }

  /** Number of edges the rightward ray from (x, y) crosses. */
  function CrossingCount(edges: seq<Edge>, x: real, y: real): (n: nat)
    ensures n <= |edges|
  {
    if edges == [] then 0
    else CrossingCount(edges[..|edges| - 1], x, y) + (if Crosses(edges[|edges| - 1], x, y) then 1 else 0)
  }

  /** Even-odd rule: (x, y) is inside when the ray crosses an odd number of edges. */
  predicate Inside(poly: seq<Point>, x: real, y: real)
  {
    CrossingCount(Edges(poly), x, y) % 2 == 1
  }

  /** Cell (r, c) is inside when its centre (c·dx + dx/2, r·dx + dx/2) is. */
  predicate InsideCell(poly: seq<Point>, dx: real, r: int, c: int)
  {
    Inside(poly, Center(c, dx), Center(r, dx))
  }

  /** The per-point edge loop with its intersections counter. */
  method CountCrossings(edges: seq<Edge>, x: real, y: real) returns (intersections: nat)
    ensures intersections == CrossingCount(edges, x, y)
  {
    intersections := 0;
    for i := 0 to |edges|
      invariant intersections == CrossingCount(edges[..i], x, y)
    {
      var e := edges[i];
      if Straddles(e, y) {
        var xIntersect := XIntersect(e, y);
        if x < xIntersect {
          intersections := intersections + 1;
        }
      }
      assert edges[..i + 1][..i] == edges[..i];
    }
    assert edges[..|edges|] == edges;
  }

  /** Builds a rows × cols mask whose cell (r, c) is true exactly when the cell centre
      is inside the polygon by the even-odd rule. */
  method Rasterize(poly: seq<Point>, rows: nat, cols: nat, dx: real) returns (mask: array2<bool>)
    ensures fresh(mask)
    ensures mask.Length0 == rows && mask.Length1 == cols
    ensures forall r, c :: 0 <= r < rows && 0 <= c < cols ==> (mask[r, c] <==> InsideCell(poly, dx, r, c))
  {
    mask := new bool[rows, cols]((r, c) => false);
    var edges := BuildEdges(poly);
    for r := 0 to rows
      invariant forall i, j :: 0 <= i < rows && 0 <= j < cols ==>
        (mask[i, j] <==> i < r && InsideCell(poly, dx, i, j))
    {
      var y := Center(r, dx);
      for c := 0 to cols
        invariant forall i, j :: 0 <= i < rows && 0 <= j < cols ==>
          (mask[i, j] <==> (i < r || (i == r && j < c)) && InsideCell(poly, dx, i, j))
      {
        var x := Center(c, dx);
        var intersections := CountCrossings(edges, x, y);
        assert InsideCell(poly, dx, r, c) <==> intersections % 2 == 1;
        if intersections % 2 == 1 {
          mask[r, c] := true;
        }
      }
    }
  }

  // ---------------------------------------------------------------------------
  // Properties of the even-odd test

  /** A spanning edge meets height y between its endpoints' x coordinates. */
  lemma XIntersectBetween(e: Edge, y: real)
    requires Straddles(e, y)
    ensures Min(e.p1.x, e.p2.x) <= XIntersect(e, y) <= Max(e.p1.x, e.p2.x)
  {
    var x1, y1, x2, y2 := e.p1.x, e.p1.y, e.p2.x, e.p2.y;
    var t := (y - y1) / (y2 - y1);
    if y1 > y {
      assert t == (y1 - y) / (y1 - y2);
      FractionInUnit(y1 - y, y1 - y2);
    } else {
      FractionInUnit(y - y1, y2 - y1);
    }
    assert XIntersect(e, y) == (x2 - x1) * t + x1;
    ScaleByUnit(x2 - x1, t);
  }

  /** When no edge is crossed, the count is zero. */
  lemma {:induction false} NoCrossings(edges: seq<Edge>, x: real, y: real)
    requires forall i :: 0 <= i < |edges| ==> !Crosses(edges[i], x, y)
    ensures CrossingCount(edges, x, y) == 0
  {
    if edges != [] {
      NoCrossings(edges[..|edges| - 1], x, y);
    }
  }

  /** An edge whose endpoints lie at or left of x, or both at or below y, or both above y,
      is not crossed by the rightward ray from (x, y). */
  lemma EdgeNotCrossed(e: Edge, x: real, y: real)
    requires (e.p1.x <= x && e.p2.x <= x) || (e.p1.y <= y && e.p2.y <= y) || (e.p1.y > y && e.p2.y > y)
    ensures !Crosses(e, x, y)
  {
    if Straddles(e, y) {
      XIntersectBetween(e, y);
    }
  }

  /** A point at or right of every vertex, at or above every vertex, or below every
      vertex is outside the polygon. */
  lemma OutsideBoundingBox(poly: seq<Point>, x: real, y: real)
    requires |poly| > 0
    requires x >= MaxOf(Xs(poly)) || y >= MaxOf(Ys(poly)) || y < MinOf(Ys(poly))
    ensures !Inside(poly, x, y)
  {
    var es := Edges(poly);
    var n := |poly|;
    var maxX, maxY, minY := MaxOf(Xs(poly)), MaxOf(Ys(poly)), MinOf(Ys(poly));
    forall i | 0 <= i < n
      ensures poly[i].x <= maxX && minY <= poly[i].y <= maxY
    {
      assert Xs(poly)[i] == poly[i].x && Ys(poly)[i] == poly[i].y;
    }
    forall i | 0 <= i < |es|
      ensures !Crosses(es[i], x, y)
    {
      var j := Succ(i, n);
      assert es[i] == Edge(poly[i], poly[j]);
      EdgeNotCrossed(es[i], x, y);
    }
    NoCrossings(es, x, y);
  }

  /** The count over a concatenation is the sum of the counts. */
  lemma {:induction false} CrossingCountAppend(a: seq<Edge>, b: seq<Edge>, x: real, y: real)
    ensures CrossingCount(a + b, x, y) == CrossingCount(a, x, y) + CrossingCount(b, x, y)
    decreases |b|
  {
    if b == [] {
      assert a + b == a;
    } else {
      var b' := b[..|b| - 1];
      assert (a + b)[..|a + b| - 1] == a + b';
      assert (a + b)[|a + b| - 1] == b[|b| - 1];
      CrossingCountAppend(a, b', x, y);
    }
  }

  /** The vertex list read from vertex k onwards, wrapping round to the start. */
  function Rotate(poly: seq<Point>, k: nat): (rot: seq<Point>)
    requires k <= |poly|
  {
    poly[k..] + poly[..k]
  }

  /** Starting the vertex list at vertex k rotates the closed edge list by k. */
  lemma EdgesRotate(poly: seq<Point>, k: nat)
    requires k <= |poly|
    ensures Edges(Rotate(poly, k)) == Edges(poly)[k..] + Edges(poly)[..k]
  {
    var n := |poly|;
    var rot := Rotate(poly, k);
    var es := Edges(poly);
    var lhs := Edges(rot);
    var rhs := es[k..] + es[..k];
    assert |lhs| == n == |rhs|;
    forall i | 0 <= i < n
      ensures lhs[i] == rhs[i]
    {
      // position i of the rotated list is vertex j of the original
      var j := if i < n - k then k + i else i - (n - k);
      assert rot[i] == poly[j];
      assert rhs[i] == es[j];
      assert rot[Succ(i, n)] == poly[Succ(j, n)];
    }
  }

  /** Swapping the two halves of an edge list does not change the count. */
  lemma CrossingCountSwap(a: seq<Edge>, b: seq<Edge>, x: real, y: real)
    ensures CrossingCount(a + b, x, y) == CrossingCount(b + a, x, y)
  {
    CrossingCountAppend(a, b, x, y);
    CrossingCountAppend(b, a, x, y);
  }

  /** Starting the vertex list at vertex k does not change how many edges a ray crosses. */
  lemma CrossingCountRotate(poly: seq<Point>, k: nat, x: real, y: real)
    requires k <= |poly|
    ensures CrossingCount(Edges(Rotate(poly, k)), x, y) == CrossingCount(Edges(poly), x, y)
  {
    var es := Edges(poly);
    var tail, head := es[k..], es[..k];
    assert Edges(Rotate(poly, k)) == tail + head by {
      EdgesRotate(poly, k);
    }
    assert head + tail == es;
    CrossingCountSwap(tail, head, x, y);
  }

  /** The even-odd test does not depend on which vertex the list starts from. */
  lemma InsideRotationInvariant(poly: seq<Point>, k: nat, x: real, y: real)
    requires k <= |poly|
    ensures Inside(Rotate(poly, k), x, y) <==> Inside(poly, x, y)
  {
    CrossingCountRotate(poly, k, x, y);
  }
}
