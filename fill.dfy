/**
 * The scanline fill: for every row of the screen, intersect the row with each
 * edge of the closed boundary, sort the intersections ascending and paint the
 * half-open spans between consecutive pairs of them.
 */
module Fill {
  import opened Geometry

  /** SCREEN_HEIGHT: the fill scans rows 0 .. ScreenHeight - 1. */
  const ScreenHeight := 600

  /**
   * Row `y` crosses the edge from `p` to `q`: exactly one end lies strictly
   * beyond the row, and the edge does not lie along the row. A horizontal edge
   * never crosses, so the interpolation below never divides by zero.
   */
  predicate Crosses(p: Pos, q: Pos, y: int)
    ensures Crosses(p, q, y) ==> p.y != q.y
  {
    ((p.y > y) != (q.y > y)) && (y != p.y || y != q.y)
  }

  /**
   * With integer coordinates the second half of the test is implied by the
   * first: an edge crosses row `y` exactly when `y` lies in the half-open range
   * between its two end rows, so a vertex on the row counts for one of its two
   * edges only.
   */
  lemma CrossesHalfOpen(p: Pos, q: Pos, y: int)
    ensures Crosses(p, q, y) <==> Min(p.y, q.y) <= y < Max(p.y, q.y)
    ensures Crosses(p, q, y) <==> (p.y > y) != (q.y > y)
  {
  }

  /**
   * The numerator of the crossing x over the common denominator q.y - p.y:
   * p.x + (y - p.y) * (q.x - p.x) / (q.y - p.y) == Numerator(p, q, y) / (q.y - p.y).
   */
  function Numerator(p: Pos, q: Pos, y: int): int
  {
    p.x * (q.y - p.y) + (y - p.y) * (q.x - p.x)
  }

  /**
   * The x at which row `y` meets the line through `p` and `q`: the exact value
   * p.x + (y - p.y) * (q.x - p.x) / (q.y - p.y), truncated toward zero as the
   * `(int)` cast does. On a crossing it lies between the two end points' x, and
   * on the row of `p` it is `p.x` itself.
   */
  function CrossingX(p: Pos, q: Pos, y: int): (x: int)
    requires p.y != q.y
    ensures Crosses(p, q, y) ==> Between(p.x, x, q.x)
    ensures y == p.y ==> x == p.x
  {
    CrossingBetween(p, q, y);
    CrossingAtVertex(p, q, y);
    TruncDiv(Numerator(p, q, y), q.y - p.y)
  }

  lemma CrossingBetween(p: Pos, q: Pos, y: int)
    requires p.y != q.y
    ensures Crosses(p, q, y) ==> Between(p.x, TruncDiv(Numerator(p, q, y), q.y - p.y), q.x)
  {
    var d, n := q.y - p.y, Numerator(p, q, y);
    if Crosses(p, q, y) {
      if d > 0 {
        ScaledInterpolationBetween(p.x, q.x, y - p.y, d);
        TruncDivBetween(n, d, Min(p.x, q.x), Max(p.x, q.x));
      } else {
        NegateProduct(p.x, d);
        NegateProduct(y - p.y, q.x - p.x);
        assert -n == p.x * (-d) + (p.y - y) * (q.x - p.x);
        ScaledInterpolationBetween(p.x, q.x, p.y - y, -d);
        TruncDivBetween(-n, -d, Min(p.x, q.x), Max(p.x, q.x));
      }
    }
  }

  lemma CrossingAtVertex(p: Pos, q: Pos, y: int)
    requires p.y != q.y
    ensures y == p.y ==> TruncDiv(Numerator(p, q, y), q.y - p.y) == p.x
  {
    if y == p.y {
      assert Numerator(p, q, y) == p.x * (q.y - p.y);
      TruncDivExact(p.x, q.y - p.y);
    }
  }

  /** Dividing an exact multiple gives back the factor. */
  lemma TruncDivExact(a: int, d: int)
    requires d != 0
    ensures TruncDiv(a * d, d) == a
  {
    if d > 0 {
      TruncDivExactPositive(a, d);
    } else {
      NegateProduct(a, d);
      TruncDivExactPositive(a, -d);
    }
  }

  lemma TruncDivExactPositive(a: int, d: int)
    requires d > 0
    ensures TruncDiv(a * d, d) == a
  {
    TruncDivBracket(a * d, d);
    MulLessCancel(TruncDiv(a * d, d) - 1, a, d);
    MulLessCancel(a, TruncDiv(a * d, d) + 1, d);
  }

  lemma NegateProduct(a: int, b: int)
    ensures -(a * b) == a * (-b) == (-a) * b
  {
  }

  /**
   * The intersections of row `y` with the first `k` edges of the closed
   * boundary, in edge order; edge `i` runs from vertex `i` to vertex
   * `(i + 1) mod n`. There is at most one per edge.
   */
  function EdgeCrossings(vs: seq<Pos>, y: int, k: nat): (xs: seq<int>)
    requires k <= |vs|
    ensures |xs| <= k
  {
    if k == 0 then []
    else
      var p, q := vs[k - 1], vs[Succ(k - 1, |vs|)];
      EdgeCrossings(vs, y, k - 1) + (if Crosses(p, q, y) then [CrossingX(p, q, y)] else [])
  }

  /** The intersections of row `y` with every edge of the closed boundary. */
  function RowIntersections(vs: seq<Pos>, y: int): seq<int>
  {
    EdgeCrossings(vs, y, |vs|)
  }

  /** Vertex `v` lies strictly beyond row `y`. */
  predicate Beyond(v: Pos, y: int)
  {
    v.y > y
  }

  /** Each edge adds one intersection when it crosses the row and none otherwise. */
  lemma EdgeCrossingsCount(vs: seq<Pos>, y: int, k: nat)
    requires 1 <= k <= |vs|
    ensures |EdgeCrossings(vs, y, k)| == |EdgeCrossings(vs, y, k - 1)| + if Crosses(vs[k - 1], vs[Succ(k - 1, |vs|)], y) then 1 else 0
  {
  }

  /**
   * Along the open path through vertices 0 .. k - 1 the number of crossings is
   * odd exactly when the path ends on the other side of the row from where it
   * started.
   */
  lemma {:induction false} PathCrossingParity(vs: seq<Pos>, y: int, k: nat)
    requires 1 <= k <= |vs|
    ensures |EdgeCrossings(vs, y, k - 1)| % 2 == if Beyond(vs[0], y) == Beyond(vs[k - 1], y) then 0 else 1
  {
    if k > 1 {
      PathCrossingParity(vs, y, k - 1);
      EdgeCrossingsCount(vs, y, k - 1);
      var p, q := vs[k - 2], vs[k - 1];
      CrossesHalfOpen(p, q, y);
      var a, b := |EdgeCrossings(vs, y, k - 2)|, |EdgeCrossings(vs, y, k - 1)|;
      var c := Crosses(p, q, y);
      assert b == a + if c then 1 else 0;
      assert c == (Beyond(p, y) != Beyond(q, y));
      assert a % 2 == if Beyond(vs[0], y) == Beyond(p, y) then 0 else 1;
    }
  }

  /**
   * Every row meets the closed boundary an even number of times, so the pairing
   * of sorted intersections never runs past the last one.
   */
  lemma IntersectionCountEven(vs: seq<Pos>, y: int)
    ensures |RowIntersections(vs, y)| % 2 == 0
  {
    var n := |vs|;
    if n > 0 {
      PathCrossingParity(vs, y, n);
      EdgeCrossingsCount(vs, y, n);
      CrossesHalfOpen(vs[n - 1], vs[0], y);
    }
  }

  /** A row with every vertex on the same side of it meets no edge. */
  lemma {:induction false} NoCrossingNoIntersections(vs: seq<Pos>, y: int, k: nat)
    requires k <= |vs|
    requires (forall i :: 0 <= i < |vs| ==> Beyond(vs[i], y)) || (forall i :: 0 <= i < |vs| ==> !Beyond(vs[i], y))
    ensures EdgeCrossings(vs, y, k) == []
  {
    if k > 0 {
      NoCrossingNoIntersections(vs, y, k - 1);
      CrossesHalfOpen(vs[k - 1], vs[Succ(k - 1, |vs|)], y);
    }
  }

  /**
   * m_CompareIntegers: negative, zero or positive as `a` is below, equal to or
   * above `b`.
   */
  function CompareIntegers(a: int, b: int): (c: int)
    ensures c < 0 <==> a < b
    ensures c == 0 <==> a == b
    ensures c > 0 <==> a > b
  {
    a - b
  }

  predicate SortedAscending(xs: seq<int>)
  {
    forall i, j :: 0 <= i < j < |xs| ==> xs[i] <= xs[j]
  }

  /** `x` placed into the sorted `xs` before the first element it does not exceed. */
  function Insert(x: int, xs: seq<int>): (r: seq<int>)
    requires SortedAscending(xs)
    ensures SortedAscending(r)
    ensures multiset(r) == multiset(xs) + multiset{x}
  {
    if xs == [] || CompareIntegers(x, xs[0]) <= 0 then
      [x] + xs
    else
      assert xs == [xs[0]] + xs[1..];
      var rest := Insert(x, xs[1..]);
      LowerBoundKept(xs[0], x, xs[1..], rest);
      ConsSorted(xs[0], rest);
      [xs[0]] + rest
  }

  /** A lower bound of `x` and of every element of `ys` bounds every element of a rearrangement of both. */
  lemma LowerBoundKept(b: int, x: int, ys: seq<int>, r: seq<int>)
    requires b <= x && forall z :: z in ys ==> b <= z
    requires multiset(r) == multiset(ys) + multiset{x}
    ensures forall z :: z in r ==> b <= z
  {
    forall z | z in r
      ensures b <= z
    {
      assert z in multiset(r);
      assert z == x || z in multiset(ys);
      assert z == x || z in ys;
    }
  }

  lemma ConsSorted(b: int, r: seq<int>)
    requires SortedAscending(r) && forall z :: z in r ==> b <= z
    ensures SortedAscending([b] + r)
  {
    var s := [b] + r;
    forall i, j | 0 <= i < j < |s|
      ensures s[i] <= s[j]
    {
      assert s[j] == r[j - 1] && r[j - 1] in r;
      if i > 0 {
        assert s[i] == r[i - 1];
      }
    }
  }

  /**
   * The `qsort` of the intersections with m_CompareIntegers: the same values,
   * ascending.
   */
  function SortAscending(xs: seq<int>): (r: seq<int>)
    ensures SortedAscending(r)
    ensures multiset(r) == multiset(xs)
    ensures |r| == |xs|
  {
    if xs == [] then []
    else
      assert xs == xs[..|xs| - 1] + [xs[|xs| - 1]];
      var r := Insert(xs[|xs| - 1], SortAscending(xs[..|xs| - 1]));
      assert |multiset(r)| == |multiset(xs)|;
      r
  }

  /**
   * The ascending arrangement of `xs`: a sorted permutation of it, which is
   * unique (`SortedUnique`), so every correct sort of the intersections,
   * stable or not, yields it.
   */
  ghost function SortedOf(xs: seq<int>): (r: seq<int>)
    ensures SortedAscending(r) && multiset(r) == multiset(xs)
    ensures |r| == |xs|
  {
    assert SortedAscending(SortAscending(xs)) && multiset(SortAscending(xs)) == multiset(xs);
    var r :| SortedAscending(r) && multiset(r) == multiset(xs);
    assert |multiset(r)| == |multiset(xs)|;
    r
  }

  /** The first element of a nonempty sorted sequence is its least element. */
  lemma SortedHeadIsLeast(a: seq<int>, z: int)
    requires SortedAscending(a) && |a| > 0 && z in multiset(a)
    ensures a[0] <= z
  {
    assert z in a;
    var k :| 0 <= k < |a| && a[k] == z;
  }

  /** Two nonempty sorted sequences with the same elements start with the same element. */
  lemma SortedHeadsAgree(a: seq<int>, b: seq<int>)
    requires SortedAscending(a) && SortedAscending(b) && |a| > 0
    requires multiset(a) == multiset(b)
    ensures |b| > 0 && a[0] == b[0]
  {
    assert a[0] in multiset(a);
    assert |b| > 0;
    assert b[0] in multiset(b);
    SortedHeadIsLeast(a, b[0]);
    SortedHeadIsLeast(b, a[0]);
  }

  /** Dropping the first element keeps a sequence sorted and removes one occurrence of that element. */
  lemma SortedTail(a: seq<int>)
    requires SortedAscending(a) && |a| > 0
    ensures SortedAscending(a[1..])
    ensures multiset(a[1..]) == multiset(a) - multiset{a[0]}
  {
    assert a == [a[0]] + a[1..];
  }

  /** Two sorted sequences with the same elements are equal. */
  lemma {:induction false} SortedUnique(a: seq<int>, b: seq<int>)
    requires SortedAscending(a) && SortedAscending(b)
    requires multiset(a) == multiset(b)
    ensures a == b
    decreases |a|
  {
    if |a| == 0 {
      assert |multiset(b)| == 0;
    } else {
      SortedHeadsAgree(a, b);
      SortedTail(a);
      SortedTail(b);
      SortedUnique(a[1..], b[1..]);
      assert a == [a[0]] + a[1..] && b == [b[0]] + b[1..];
    }
  }

  /** The pixels x = lo .. hi - 1 of row `y`, left to right; none when hi <= lo. */
  function SpanPixels(y: int, lo: int, hi: int): (ps: seq<Pos>)
    ensures forall p :: p in ps <==> (p.y == y && lo <= p.x < hi)
    decreases hi - lo
  {
    if hi <= lo then [] else SpanPixels(y, lo, hi - 1) + [Pos(hi - 1, y)]
  }

  /** The spans [xs[0], xs[1]), [xs[2], xs[3]), ... of row `y`, in that order. */
  function PairSpans(y: int, xs: seq<int>): (ps: seq<Pos>)
    requires |xs| % 2 == 0
    ensures forall p :: p in ps ==> p.y == y
  {
    if xs == [] then []
    else PairSpans(y, xs[..|xs| - 2]) + SpanPixels(y, xs[|xs| - 2], xs[|xs| - 1])
  }

  /** `x` lies in one of the half-open spans [xs[i], xs[i + 1]) with `i` even. */
  predicate InSomeSpan(xs: seq<int>, x: int)
  {
    exists i :: 0 <= i < |xs| - 1 && i % 2 == 0 && xs[i] <= x < xs[i + 1]
  }

  /** The spans of `xs` are those of all but its last pair, and that last pair's. */
  lemma InSomeSpanSplit(xs: seq<int>, x: int)
    requires |xs| >= 2 && |xs| % 2 == 0
    ensures InSomeSpan(xs, x) <==> InSomeSpan(xs[..|xs| - 2], x) || xs[|xs| - 2] <= x < xs[|xs| - 1]
  {
    var m := |xs| - 2;
    var front := xs[..m];
    if InSomeSpan(xs, x) {
      var i :| 0 <= i < |xs| - 1 && i % 2 == 0 && xs[i] <= x < xs[i + 1];
      if i < m {
        assert front[i] == xs[i] && front[i + 1] == xs[i + 1];
      }
    }
    if InSomeSpan(front, x) {
      var i :| 0 <= i < |front| - 1 && i % 2 == 0 && front[i] <= x < front[i + 1];
      assert xs[i] == front[i] && xs[i + 1] == front[i + 1];
    }
    if xs[m] <= x < xs[m + 1] {
      assert m % 2 == 0;
    }
  }

  /** The pixels painted for a sequence of pairs are exactly those of the row inside one of the spans. */
  lemma {:induction false} PairSpansCover(y: int, xs: seq<int>, p: Pos)
    requires |xs| % 2 == 0
    ensures p in PairSpans(y, xs) <==> p.y == y && InSomeSpan(xs, p.x)
  {
    if xs != [] {
      var m := |xs| - 2;
      PairSpansCover(y, xs[..m], p);
      InSomeSpanSplit(xs, p.x);
      assert PairSpans(y, xs) == PairSpans(y, xs[..m]) + SpanPixels(y, xs[m], xs[m + 1]);
    }
  }

  /** The pixels the fill paints on row `y`. */
  ghost function RowPixels(vs: seq<Pos>, y: int): (ps: seq<Pos>)
    ensures forall p :: p in ps ==> p.y == y
  {
    IntersectionCountEven(vs, y);
    PairSpans(y, SortedOf(RowIntersections(vs, y)))
  }

  /** Row `y` paints exactly the union of the half-open spans between sorted pairs of intersections. */
  lemma RowPixelsAreSpans(vs: seq<Pos>, y: int, p: Pos)
    ensures p in RowPixels(vs, y) <==> p.y == y && InSomeSpan(SortedOf(RowIntersections(vs, y)), p.x)
  {
    IntersectionCountEven(vs, y);
    PairSpansCover(y, SortedOf(RowIntersections(vs, y)), p);
  }

  /** A row that no edge crosses paints nothing. */
  lemma RowWithoutCrossingsPaintsNothing(vs: seq<Pos>, y: int)
    requires (forall i :: 0 <= i < |vs| ==> Beyond(vs[i], y)) || (forall i :: 0 <= i < |vs| ==> !Beyond(vs[i], y))
    ensures RowIntersections(vs, y) == []
    ensures RowPixels(vs, y) == []
  {
    NoCrossingNoIntersections(vs, y, |vs|);
  }

  /** The pixels of rows 0 .. h - 1, row by row, where `row(y)` is what row `y` paints. */
  function Rows(row: int -> seq<Pos>, h: nat): seq<Pos>
  {
    if h == 0 then [] else Rows(row, h - 1) + row(h - 1)
  }

  /** The fill of each row, as a function of the row. */
  ghost function RowFill(vs: seq<Pos>): int -> seq<Pos>
  {
    y => RowPixels(vs, y)
  }

  /** Everything m_ScanlineFill paints for the vertex order `vs`. */
  ghost function FillPixels(vs: seq<Pos>): seq<Pos>
  {
    Rows(RowFill(vs), ScreenHeight)
  }

  /**
   * The rows loop (the intersection step of m_ScanlineFill): test every edge
   * of the closed boundary against row `y` and record where the crossing ones
   * meet it.
   */
  method RowCrossings(vs: seq<Pos>, y: int) returns (xs: seq<int>)
    ensures xs == RowIntersections(vs, y)
  {
    var n := |vs|;
    xs := [];
    for i := 0 to n
      invariant xs == EdgeCrossings(vs, y, i)
    {
      var next := (i + 1) % n;
      ModSucc(i, n);
      var p1, p2 := vs[i], vs[next];
      if Crosses(p1, p2, y) {
        var x := CrossingX(p1, p2, y);
        xs := xs + [x];
      }
    }
  }

  /**
   * The pairing loop of m_ScanlineFill: for i = 0, 2, 4, ... paint x from
   * xs[i] up to, but not including, xs[i + 1].
   */
  method PaintSpans(y: int, xs: seq<int>) returns (painted: seq<Pos>)
    requires |xs| % 2 == 0
    ensures painted == PairSpans(y, xs)
  {
    painted := [];
    var i := 0;
    while i < |xs|
      invariant 0 <= i <= |xs| && i % 2 == 0
      invariant painted == PairSpans(y, xs[..i])
    {
      ghost var before := painted;
      var x := xs[i];
      while x < xs[i + 1]
        invariant xs[i] <= x && (x <= xs[i + 1] || x == xs[i])
        invariant painted == before + SpanPixels(y, xs[i], x)
      {
        painted := painted + [Pos(x, y)];
        x := x + 1;
      }
      assert SpanPixels(y, xs[i], x) == SpanPixels(y, xs[i], xs[i + 1]);
      assert xs[..i + 2][..i] == xs[..i];
      i := i + 2;
    }
    assert xs[..i] == xs;
  }

  /**
   * One iteration of the row loop of m_ScanlineFill: collect the crossings of
   * the closed boundary with row `y`, sort them with m_CompareIntegers and
   * paint the spans between pairs.
   */
  method PaintRow(vs: seq<Pos>, y: int) returns (row: seq<Pos>)
    ensures row == RowPixels(vs, y)
  {
    var intersections := RowCrossings(vs, y);
    IntersectionCountEven(vs, y);
    var sorted := SortAscending(intersections);
    SortedUnique(sorted, SortedOf(intersections));
    row := PaintSpans(y, sorted);
  }

  /** The row loop of m_ScanlineFill, for rows 0 .. SCREEN_HEIGHT - 1. */
  method PaintRows(vs: seq<Pos>) returns (painted: seq<Pos>)
    ensures painted == FillPixels(vs)
  {
    painted := [];
    for y := 0 to ScreenHeight
      invariant painted == Rows(RowFill(vs), y)
    {
      var row := PaintRow(vs, y);
      assert row == RowFill(vs)(y);
      painted := painted + row;
    }
  }
}
