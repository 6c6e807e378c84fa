/**
 The fractal renderer. A call of the recursive subdivision is modelled as
 the sequence of filled triangles it paints, in painting order: each
 element stands for one call of the triangle-filling primitive.
 */
module Sierpinski {
  import opened Geometry

  /** One filled triangle: the vertices handed to the painter and its fill colour. */
  datatype Painted = Painted(tri: Triangle, color: string)

  function Pow3(n: nat): (p: nat)
    ensures p >= 1
  {
    if n == 0 then 1 else 3 * Pow3(n - 1)
  }

  function Pow4(n: nat): (p: real)
    ensures p >= 1.0
  {
    if n == 0 then 1.0 else 4.0 * Pow4(n - 1)
  }

  /**
   Subdivides t depth times. At depth 0 the triangle itself is painted;
   otherwise the three corner sub-triangles are subdivided at depth - 1, in
   the order corner a, corner b, corner c, with the colour passed on unchanged.
   */
  function Sierpinski(t: Triangle, depth: nat, color: string): (r: seq<Painted>)
    ensures |r| == Pow3(depth)
    ensures forall i :: 0 <= i < |r| ==> r[i].color == color
    ensures depth == 0 ==> r == [Painted(t, color)]
    decreases depth
  {
    if depth == 0 then [Painted(t, color)]
    else
      Sierpinski(Child(t, A), depth - 1, color)
      + Sierpinski(Child(t, B), depth - 1, color)
      + Sierpinski(Child(t, C), depth - 1, color)
  }

  // ---------------------------------------------------------------------
  // An independent description: leaves addressed by corner paths.
  // ---------------------------------------------------------------------

  /** The triangle reached from t by descending into the corners listed in path. */
  function Leaf(t: Triangle, path: seq<Corner>): (leaf: Triangle)
    decreases |path|
  {
    if |path| == 0 then t else Leaf(Child(t, path[0]), path[1..])
  }

  /** Corner k read as a base-3 digit, times the place value m. */
  function Weight(k: Corner, m: nat): (w: nat)
    ensures w <= 2 * m
  {
    match k
    case A => 0
    case B => m
    case C => 2 * m
  }

  /** A corner path read as a base-3 numeral, most significant corner first. */
  function Index(path: seq<Corner>): (i: nat)
    ensures i < Pow3(|path|)
    decreases |path|
  {
    if |path| == 0 then 0
    else
      Weight(path[0], Pow3(|path| - 1)) + Index(path[1..])
  }

  /** The depth-digit base-3 numeral of i, as a corner path. */
  function Digits(i: nat, depth: nat): (path: seq<Corner>)
    requires i < Pow3(depth)
    ensures |path| == depth
    decreases depth
  {
    if depth == 0 then []
    else
      var m := Pow3(depth - 1);
      if i < m then [A] + Digits(i, depth - 1)
      else if i < 2 * m then [B] + Digits(i - m, depth - 1)
      else [C] + Digits(i - 2 * m, depth - 1)
  }

  /** At depth >= 1 the numeral of i is its leading digit k followed by the
      numeral of the offset j of i within the block of k. */
  lemma DigitsBlock(depth: nat, i: nat) returns (k: Corner, j: nat)
    requires 1 <= depth && i < Pow3(depth)
    ensures j < Pow3(depth - 1)
    ensures i == Weight(k, Pow3(depth - 1)) + j
    ensures Digits(i, depth) == [k] + Digits(j, depth - 1)
  {
    var m := Pow3(depth - 1);
    if i < m {
      k, j := A, i;
    } else if i < 2 * m {
      k, j := B, i - m;
    } else {
      k, j := C, i - 2 * m;
    }
  }

  /** Index inverts Digits. */
  lemma {:induction false} IndexOfDigits(i: nat, depth: nat)
    requires i < Pow3(depth)
    ensures Index(Digits(i, depth)) == i
    decreases depth
  {
    if depth > 0 {
      var k, j := DigitsBlock(depth, i);
      var p := Digits(i, depth);
      IndexOfDigits(j, depth - 1);
      assert p[0] == k && p[1..] == Digits(j, depth - 1);
    }
  }

  /** Base-3 numerals of a fixed length are unique: Digits inverts Index. */
  lemma {:induction false} DigitsOfIndex(path: seq<Corner>)
    ensures Digits(Index(path), |path|) == path
    decreases |path|
  {
    if |path| > 0 {
      var n, k, rest := |path|, path[0], path[1..];
      DigitsOfIndex(rest);
      var m, j := Pow3(n - 1), Index(rest);
      assert Index(path) == Weight(k, m) + j;
      var k', j' := DigitsBlock(n, Index(path));
      assert k' == k && j' == j;
      assert path == [k] + rest;
    }
  }

  /** Position i of a subdivision at depth >= 1 falls in the block of corner k,
      at offset j within it; the address of i is k followed by the address of j. */
  lemma Block(t: Triangle, depth: nat, color: string, i: nat) returns (k: Corner, j: nat)
    requires 1 <= depth && i < Pow3(depth)
    ensures j < Pow3(depth - 1)
    ensures Sierpinski(t, depth, color)[i] == Sierpinski(Child(t, k), depth - 1, color)[j]
    ensures Digits(i, depth) == [k] + Digits(j, depth - 1)
    ensures Leaf(t, Digits(i, depth)) == Leaf(Child(t, k), Digits(j, depth - 1))
  {
    k, j := DigitsBlock(depth, i);
    var s0 := Sierpinski(Child(t, A), depth - 1, color);
    var s1 := Sierpinski(Child(t, B), depth - 1, color);
    var s2 := Sierpinski(Child(t, C), depth - 1, color);
    var r := Sierpinski(t, depth, color);
    assert r == s0 + s1 + s2;
    match k
    case A => assert r[i] == s0[j];
    case B => assert r[i] == s1[j];
    case C => assert r[i] == s2[j];
    var p := Digits(i, depth);
    assert p[0] == k && p[1..] == Digits(j, depth - 1);
  }

  /** Offset j of block k, in three blocks of equal length, is element j of block k. */
  lemma Thirds<T>(s0: seq<T>, s1: seq<T>, s2: seq<T>, k: Corner, j: nat)
    requires |s1| == |s0| && |s2| == |s0| && j < |s0|
    ensures Weight(k, |s0|) + j < |s0 + s1 + s2|
    ensures (s0 + s1 + s2)[Weight(k, |s0|) + j] == (match k case A => s0 case B => s1 case C => s2)[j]
  {
  }

  /** Corner k put in front of every path of ps. */
  function Prefixed(k: Corner, ps: seq<seq<Corner>>): (r: seq<seq<Corner>>)
  {
    seq(|ps|, n requires 0 <= n < |ps| => [k] + ps[n])
  }

  /** All corner paths of length n, in lexicographic order (A before B before C). */
  function Paths(n: nat): (ps: seq<seq<Corner>>)
    ensures |ps| == Pow3(n)
    decreases n
  {
    if n == 0 then [[]]
    else
      Prefixed(A, Paths(n - 1)) + Prefixed(B, Paths(n - 1)) + Prefixed(C, Paths(n - 1))
  }

  /** The leaves of t at the paths ps, in order, each painted in color. */
  function Leaves(t: Triangle, ps: seq<seq<Corner>>, color: string): (r: seq<Painted>)
  {
    seq(|ps|, n requires 0 <= n < |ps| => Painted(Leaf(t, ps[n]), color))
  }

  /** Path i of the lexicographic enumeration is the base-3 numeral of i. */
  lemma {:induction false} PathsAreDigits(n: nat, i: nat)
    requires i < Pow3(n)
    ensures Paths(n)[i] == Digits(i, n)
    decreases n
  {
    if n > 0 {
      var k, j := DigitsBlock(n, i);
      var ps := Paths(n - 1);
      PathsAreDigits(n - 1, j);
      Thirds(Prefixed(A, ps), Prefixed(B, ps), Prefixed(C, ps), k, j);
    }
  }

  /** The leaves below corner k of t are the leaves of t on paths starting with k. */
  lemma LeavesPrefixed(t: Triangle, k: Corner, ps: seq<seq<Corner>>, color: string)
    ensures Leaves(t, Prefixed(k, ps), color) == Leaves(Child(t, k), ps, color)
  {
    forall n | 0 <= n < |ps|
      ensures Leaf(t, [k] + ps[n]) == Leaf(Child(t, k), ps[n])
    {
      assert ([k] + ps[n])[1..] == ps[n];
    }
  }

  /** Leaves of a concatenation of three path lists. */
  lemma LeavesConcat(t: Triangle, p0: seq<seq<Corner>>, p1: seq<seq<Corner>>, p2: seq<seq<Corner>>, color: string)
    ensures Leaves(t, p0 + p1 + p2, color) == Leaves(t, p0, color) + Leaves(t, p1, color) + Leaves(t, p2, color)
  {
  }

  /** Depth 0 paints the single leaf at the empty path. */
  lemma PathsBase(t: Triangle, color: string)
    ensures Sierpinski(t, 0, color) == Leaves(t, Paths(0), color)
  {
    assert Leaves(t, Paths(0), color)[0] == Painted(t, color);
  }

  /** The painted sequence is the leaves of t, one per corner path, in lexicographic path order. */
  lemma {:induction false} SierpinskiIsPaths(t: Triangle, depth: nat, color: string)
    ensures Sierpinski(t, depth, color) == Leaves(t, Paths(depth), color)
    decreases depth, 1
  {
    if depth == 0 {
      PathsBase(t, color);
    } else {
      PathsStep(t, depth - 1, color);
    }
  }

  /** One subdivision step: the three corner subdivisions are their leaves in
      path order, and prefixing their paths with the corner gives the whole. */
  lemma {:induction false} PathsStep(t: Triangle, n: nat, color: string)
    ensures Sierpinski(t, n + 1, color) == Leaves(t, Paths(n + 1), color)
    decreases n + 1, 0
  {
    var ps := Paths(n);
    SierpinskiIsPaths(Child(t, A), n, color);
    SierpinskiIsPaths(Child(t, B), n, color);
    SierpinskiIsPaths(Child(t, C), n, color);
    LeavesPrefixed(t, A, ps, color);
    LeavesPrefixed(t, B, ps, color);
    LeavesPrefixed(t, C, ps, color);
    LeavesConcat(t, Prefixed(A, ps), Prefixed(B, ps), Prefixed(C, ps), color);
  }

  /**
   The i-th painted triangle is the leaf whose corner path is the base-3
   numeral of i: painting order is the lexicographic order of corner paths.
   */
  lemma PaintedLeaf(t: Triangle, depth: nat, color: string, i: nat)
    requires i < Pow3(depth)
    ensures Sierpinski(t, depth, color)[i] == Painted(Leaf(t, Digits(i, depth)), color)
  {
    SierpinskiIsPaths(t, depth, color);
    PathsAreDigits(depth, i);
  }

  /** The whole painted sequence, as a comprehension over leaf addresses. */
  lemma SierpinskiIsLeaves(t: Triangle, depth: nat, color: string)
    ensures Sierpinski(t, depth, color)
         == seq(Pow3(depth), i requires 0 <= i < Pow3(depth) => Painted(Leaf(t, Digits(i, depth)), color))
  {
    var r := Sierpinski(t, depth, color);
    forall i | 0 <= i < Pow3(depth)
      ensures r[i] == Painted(Leaf(t, Digits(i, depth)), color)
    {
      PaintedLeaf(t, depth, color, i);
    }
  }

  /** The leaf at path p sits at position Index(p) of the painted sequence. */
  lemma LeafIsPainted(t: Triangle, path: seq<Corner>, color: string)
    ensures Sierpinski(t, |path|, color)[Index(path)] == Painted(Leaf(t, path), color)
  {
    PaintedLeaf(t, |path|, color, Index(path));
    DigitsOfIndex(path);
  }

  // ---------------------------------------------------------------------
  // Geometric consequences
  // ---------------------------------------------------------------------

  /** At depth at least 1 the painted sequence is the three corner subdivisions in turn. */
  lemma Subdivides(t: Triangle, depth: nat, color: string)
    requires depth >= 1
    ensures var m := Pow3(depth - 1);
            var r := Sierpinski(t, depth, color);
            && |r| == 3 * m
            && r[..m] == Sierpinski(Triangle(t.a, Mid(t.a, t.b), Mid(t.c, t.a)), depth - 1, color)
            && r[m..2 * m] == Sierpinski(Triangle(t.b, Mid(t.b, t.c), Mid(t.a, t.b)), depth - 1, color)
            && r[2 * m..] == Sierpinski(Triangle(t.c, Mid(t.c, t.a), Mid(t.b, t.c)), depth - 1, color)
  {
    var m := Pow3(depth - 1);
    var s0 := Sierpinski(Child(t, A), depth - 1, color);
    var s1 := Sierpinski(Child(t, B), depth - 1, color);
    var s2 := Sierpinski(Child(t, C), depth - 1, color);
    var r := Sierpinski(t, depth, color);
    assert r == s0 + s1 + s2;
    assert r[..m] == s0;
    assert r[m..2 * m] == s1;
    assert r[2 * m..] == s2;
  }

  function AllA(n: nat): (path: seq<Corner>)
    ensures |path| == n
    ensures forall i :: 0 <= i < |path| ==> path[i] == A
  {
    if n == 0 then [] else [A] + AllA(n - 1)
  }

  /** Always descending into corner A keeps vertex a. */
  lemma {:induction false} LeafAllAKeepsA(t: Triangle, n: nat)
    ensures Leaf(t, AllA(n)).a == t.a
    decreases n
  {
    if n > 0 {
      LeafAllAKeepsA(Child(t, A), n - 1);
      assert AllA(n)[1..] == AllA(n - 1);
    }
  }

  /** Descending into corner k and then always into corner A keeps corner k. */
  lemma LeafKeepsCorner(t: Triangle, k: Corner, n: nat)
    ensures Leaf(t, [k] + AllA(n)).a == Vertex(t, k)
  {
    assert ([k] + AllA(n))[1..] == AllA(n);
    LeafAllAKeepsA(Child(t, k), n);
  }

  predicate HasVertex(u: Triangle, p: Point)
  {
    u.a == p || u.b == p || u.c == p
  }

  /** Each corner of the input is a vertex of some painted triangle. */
  lemma CornersKept(t: Triangle, depth: nat, color: string, k: Corner)
    ensures exists i :: 0 <= i < Pow3(depth) && HasVertex(Sierpinski(t, depth, color)[i].tri, Vertex(t, k))
  {
    var r := Sierpinski(t, depth, color);
    if depth == 0 {
      assert r[0].tri == t;
      assert 0 < Pow3(depth) && HasVertex(Sierpinski(t, depth, color)[0].tri, Vertex(t, k));
    } else {
      var path := [k] + AllA(depth - 1);
      LeafIsPainted(t, path, color);
      LeafKeepsCorner(t, k, depth - 1);
      assert HasVertex(r[Index(path)].tri, Vertex(t, k));
    }
  }

  /** A leaf at depth n has the root's signed area divided by 4^n. */
  lemma {:induction false} LeafArea(t: Triangle, path: seq<Corner>)
    ensures DoubleArea(Leaf(t, path)) == DoubleArea(t) / Pow4(|path|)
    decreases |path|
  {
    if |path| > 0 {
      var u := Child(t, path[0]);
      LeafArea(u, path[1..]);
      ChildQuarterArea(t, path[0]);
      QuarterThenDivide(DoubleArea(t), Pow4(|path| - 1));
    }
  }

  /** A quarter of a, divided by q, is a divided by 4q. */
  lemma QuarterThenDivide(a: real, q: real)
    requires q >= 1.0
    ensures (a / 4.0) / q == a / (4.0 * q)
  {
  }

  /** Every painted triangle has the input's signed area divided by 4^depth. */
  lemma PaintedArea(t: Triangle, depth: nat, color: string, i: nat)
    requires i < Pow3(depth)
    ensures DoubleArea(Sierpinski(t, depth, color)[i].tri) == DoubleArea(t) / Pow4(depth)
  {
    PaintedLeaf(t, depth, color, i);
    LeafArea(t, Digits(i, depth));
  }

  lemma {:induction false} LeafInBox(t: Triangle, path: seq<Corner>, lo: Point, hi: Point)
    requires TriangleInBox(t, lo, hi)
    ensures TriangleInBox(Leaf(t, path), lo, hi)
    decreases |path|
  {
    if |path| > 0 {
      ChildInBox(t, path[0], lo, hi);
      LeafInBox(Child(t, path[0]), path[1..], lo, hi);
    }
  }

  /** Nothing is painted outside an axis-aligned box that holds the input triangle. */
  lemma PaintedInBox(t: Triangle, depth: nat, color: string, lo: Point, hi: Point)
    requires TriangleInBox(t, lo, hi)
    ensures forall p :: p in Sierpinski(t, depth, color) ==> TriangleInBox(p.tri, lo, hi)
  {
    var r := Sierpinski(t, depth, color);
    forall p | p in r
      ensures TriangleInBox(p.tri, lo, hi)
    {
      var i :| 0 <= i < |r| && r[i] == p;
      PaintedLeaf(t, depth, color, i);
      LeafInBox(t, Digits(i, depth), lo, hi);
    }
  }

  // ---------------------------------------------------------------------
  // The full redraw
  // ---------------------------------------------------------------------

  /** The margin, in pixels, between the bounding triangle and the surface edges. */
  const Margin: real := 20.0

  /**
   The bounding triangle of a w-by-h surface: the apex centred horizontally
   Margin below the top edge, the base corners Margin in from the bottom-left
   and bottom-right corners.
   */
  function BoundingTriangle(w: nat, h: nat): (t: Triangle)
    // the base is horizontal, Margin above the bottom edge
    ensures t.b.y == t.c.y == h as real - Margin
    // the base corners are inset by Margin from the side edges
    ensures t.b.x == Margin && w as real - t.c.x == Margin
    // the apex is Margin below the top and equidistant from the two base corners' x
    ensures t.a.y == Margin && t.a.x - t.b.x == t.c.x - t.a.x
  {
    Triangle(Point(w as real / 2.0, 20.0),
             Point(20.0, h as real - 20.0),
             Point(w as real - 20.0, h as real - 20.0))
  }

  /** One full redraw: the surface is cleared, so the frame is exactly what
      the subdivision of the bounding triangle paints. */
  function Draw(w: nat, h: nat, depth: nat, color: string): (frame: seq<Painted>)
    ensures |frame| == Pow3(depth)
    ensures forall i :: 0 <= i < |frame| ==> frame[i].color == color
  {
    Sierpinski(BoundingTriangle(w, h), depth, color)
  }

  /** On a surface at least 2 * Margin in each direction, every painted vertex
      stays within the margin. */
  lemma DrawWithinMargin(w: nat, h: nat, depth: nat, color: string)
    requires w >= 40 && h >= 40
    ensures forall p :: p in Draw(w, h, depth, color)
              ==> TriangleInBox(p.tri, Point(Margin, Margin), Point(w as real - Margin, h as real - Margin))
  {
    PaintedInBox(BoundingTriangle(w, h), depth, color,
                 Point(Margin, Margin), Point(w as real - Margin, h as real - Margin));
  }

  /** Depth 0 on a 300 x 300 surface paints exactly the triangle (150,20), (20,280), (280,280). */
  lemma DrawDepthZeroScenario(color: string)
    ensures Draw(300, 300, 0, color)
         == [Painted(Triangle(Point(150.0, 20.0), Point(20.0, 280.0), Point(280.0, 280.0)), color)]
  {
  }

  /** Depth 1 on a 300 x 300 surface paints the three half-scale corner triangles;
      the centre triangle (85,150), (150,280), (215,150) is left unpainted. */
  lemma DrawDepthOneScenario(color: string)
    ensures Draw(300, 300, 1, color)
         == [Painted(Triangle(Point(150.0, 20.0), Point(85.0, 150.0), Point(215.0, 150.0)), color),
             Painted(Triangle(Point(20.0, 280.0), Point(150.0, 280.0), Point(85.0, 150.0)), color),
             Painted(Triangle(Point(280.0, 280.0), Point(215.0, 150.0), Point(150.0, 280.0)), color)]
  {
    var t := BoundingTriangle(300, 300);
    assert Draw(300, 300, 1, color)
        == [Painted(Child(t, A), color), Painted(Child(t, B), color), Painted(Child(t, C), color)];
  }
}
