/**
 Plane geometry used by the fractal renderer: points with exact real
 coordinates, triangles given by three vertices, edge midpoints, and the
 three corner sub-triangles a subdivision step recurses into.
 */
module Geometry {

  datatype Point = Point(x: real, y: real)

  /** A triangle as the renderer passes it around: vertices a, b, c in order. */
  datatype Triangle = Triangle(a: Point, b: Point, c: Point)

  /** One of the three corners of a triangle. */
  datatype Corner = A | B | C

  /** The vertex of t at corner k. */
  function Vertex(t: Triangle, k: Corner): (p: Point)
  {
    match k
    case A => t.a
    case B => t.b
    case C => t.c
  }

  /** The midpoint of an edge: each coordinate sum is halved. */
  function Mid(p: Point, q: Point): (m: Point)
    // m is exactly as far from p as q is from m, on both axes
    ensures m.x - p.x == q.x - m.x && m.y - p.y == q.y - m.y
  {
    Point((p.x + q.x) / 2.0, (p.y + q.y) / 2.0)
  }

  /**
   The corner sub-triangle kept at corner k by one subdivision step. The
   three cases are the argument lists of the three recursive calls: corner a
   with mid(a,b) and mid(c,a); corner b with mid(b,c) and mid(a,b); corner c
   with mid(c,a) and mid(b,c).
   */
  function Child(t: Triangle, k: Corner): (u: Triangle)
    // uniformly in k: the corner itself, then the midpoint of the edge
    // leaving it, then the midpoint of the edge arriving at it
    ensures u.a == Vertex(t, k)
    ensures u.b == Mid(Vertex(t, k), Vertex(t, Next(k)))
    ensures u.c == Mid(Vertex(t, Next(Next(k))), Vertex(t, k))
  {
    var ab := Mid(t.a, t.b);
    var bc := Mid(t.b, t.c);
    var ca := Mid(t.c, t.a);
    match k
    case A => Triangle(t.a, ab, ca)
    case B => Triangle(t.b, bc, ab)
    case C => Triangle(t.c, ca, bc)
  }

  /** The corner after k, going a, b, c, a. */
  function Next(k: Corner): (n: Corner)
    ensures n != k
  {
    match k
    case A => B
    case B => C
    case C => A
  }

  /** The vertices of the three corner sub-triangles are exactly the three
      corners and the three edge midpoints of the parent. */
  lemma ChildrenVertices(t: Triangle)
    ensures var u, v, w := Child(t, A), Child(t, B), Child(t, C);
            ({u.a, u.b, u.c, v.a, v.b, v.c, w.a, w.b, w.c}
             == {t.a, t.b, t.c, Mid(t.a, t.b), Mid(t.b, t.c), Mid(t.c, t.a)})
  {
  }

  /** Twice the signed area (positive for counter-clockwise a, b, c). */
  function DoubleArea(t: Triangle): (area2: real)
  {
    (t.b.x - t.a.x) * (t.c.y - t.a.y) - (t.c.x - t.a.x) * (t.b.y - t.a.y)
  }

  /** Every corner sub-triangle has a quarter of the parent's signed area,
      with the same sign. */
  lemma ChildQuarterArea(t: Triangle, k: Corner)
    ensures DoubleArea(Child(t, k)) == DoubleArea(t) / 4.0
  {
    var u := Child(t, k);
    var p, q, r := Vertex(t, k), Vertex(t, Next(k)), Vertex(t, Next(Next(k)));
    // the cyclic relabelling (p, q, r) of (a, b, c) keeps the signed area
    assert DoubleArea(t) == DoubleArea(Triangle(p, q, r));
    // u is p, mid(p, q), mid(r, p): its edge vectors from p are halves of the parent's
    assert u.b.x - u.a.x == (q.x - p.x) / 2.0 && u.b.y - u.a.y == (q.y - p.y) / 2.0;
    assert u.c.x - u.a.x == (r.x - p.x) / 2.0 && u.c.y - u.a.y == (r.y - p.y) / 2.0;
  }

  /** The axis-aligned box [lo, hi] contains p. */
  predicate InBox(p: Point, lo: Point, hi: Point)
  {
    lo.x <= p.x <= hi.x && lo.y <= p.y <= hi.y
  }

  predicate TriangleInBox(t: Triangle, lo: Point, hi: Point)
  {
    InBox(t.a, lo, hi) && InBox(t.b, lo, hi) && InBox(t.c, lo, hi)
  }

  /** Subdivision never leaves a box that holds the parent: midpoints of
      points in a box are in the box. */
  lemma ChildInBox(t: Triangle, k: Corner, lo: Point, hi: Point)
    requires TriangleInBox(t, lo, hi)
    ensures TriangleInBox(Child(t, k), lo, hi)
  {
  }
}
