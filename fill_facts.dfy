/**
 * Properties of what the scanline fill paints, stated over the whole screen:
 * which pixels are painted, that they stay inside the vertices' bounding box,
 * that a polygon of fewer than three vertices paints nothing, and the exact
 * result for an axis-aligned square.
 */
module FillFacts {
  import opened Geometry
  import opened Fill

  /**
   * The crossing of an edge does not depend on the direction the edge is
   * traversed in: both the test and the truncated x are the same from either end.
   */
  lemma CrossingXSymmetric(p: Pos, q: Pos, y: int)
    requires p.y != q.y
    ensures Crosses(p, q, y) == Crosses(q, p, y)
    ensures CrossingX(p, q, y) == CrossingX(q, p, y)
  {
    NumeratorSwap(p, q, y);
    var d := q.y - p.y;
    if d < 0 {
      assert TruncDiv(Numerator(p, q, y), d) == TruncDiv(-Numerator(p, q, y), -d);
    } else {
      assert TruncDiv(Numerator(q, p, y), -d) == TruncDiv(Numerator(p, q, y), d);
    }
  }

  lemma NumeratorSwap(p: Pos, q: Pos, y: int)
    ensures Numerator(q, p, y) == -Numerator(p, q, y)
  {
    var a, b, c := q.y - p.y, y - p.y, q.x - p.x;
    assert Numerator(p, q, y) == p.x * a + b * c;
    assert Numerator(q, p, y) == q.x * (-a) + (b - a) * (-c);
    assert q.x * (-a) == -(p.x * a) - c * a;
    assert (b - a) * (-c) == -(b * c) + a * c;
  }

  /**
   * Membership in the concatenated rows, for any rows that each paint only
   * pixels on their own row: a pixel is painted exactly when its row is among
   * the first `h` and that row paints it.
   */
  lemma {:induction false} RowsMembership(row: int -> seq<Pos>, h: nat, p: Pos)
    requires forall y, q :: q in row(y) ==> q.y == y
    ensures p in Rows(row, h) <==> 0 <= p.y < h && p in row(p.y)
  {
    if h > 0 {
      RowsMembership(row, h - 1, p);
      assert p in Rows(row, h) <==> p in Rows(row, h - 1) || p in row(h - 1);
    }
  }

  /**
   * A pixel is painted by the fill exactly when its row is on the screen and the
   * fill of that row paints it.
   */
  lemma FillMembership(vs: seq<Pos>, p: Pos)
    ensures p in FillPixels(vs) <==> 0 <= p.y < ScreenHeight && p in RowPixels(vs, p.y)
  {
    forall y, q | q in RowFill(vs)(y)
      ensures q.y == y
    {
      assert q in RowPixels(vs, y);
    }
    RowsMembership(RowFill(vs), ScreenHeight, p);
  }

  /** All vertices lie in the box [xlo, xhi] x [ylo, yhi]. */
  predicate VerticesWithin(vs: seq<Pos>, xlo: int, xhi: int, ylo: int, yhi: int)
  {
    forall i :: 0 <= i < |vs| ==> xlo <= vs[i].x <= xhi && ylo <= vs[i].y <= yhi
  }

  lemma {:induction false} EdgeCrossingsWithin(vs: seq<Pos>, y: int, k: nat, xlo: int, xhi: int, ylo: int, yhi: int)
    requires k <= |vs| && VerticesWithin(vs, xlo, xhi, ylo, yhi)
    ensures forall x :: x in EdgeCrossings(vs, y, k) ==> xlo <= x <= xhi
    ensures EdgeCrossings(vs, y, k) != [] ==> ylo <= y < yhi
  {
    if k > 0 {
      EdgeCrossingsWithin(vs, y, k - 1, xlo, xhi, ylo, yhi);
      var p, q := vs[k - 1], vs[Succ(k - 1, |vs|)];
      CrossesHalfOpen(p, q, y);
    }
  }

  /**
   * The fill never leaves the bounding box of the vertices: a painted pixel is
   * at or right of the leftmost vertex, strictly left of the rightmost, at or
   * below the lowest row and strictly above the highest (the spans and the row
   * range are both half-open).
   */
  lemma FillWithinBoundingBox(vs: seq<Pos>, p: Pos, xlo: int, xhi: int, ylo: int, yhi: int)
    requires VerticesWithin(vs, xlo, xhi, ylo, yhi)
    requires p in FillPixels(vs)
    ensures xlo <= p.x < xhi && ylo <= p.y < yhi
  {
    FillMembership(vs, p);
    RowPixelsWithin(vs, p, xlo, xhi, ylo, yhi);
  }

  /** A pixel a row paints lies within the vertices' bounding box, half-open on the right and at the bottom. */
  lemma RowPixelsWithin(vs: seq<Pos>, p: Pos, xlo: int, xhi: int, ylo: int, yhi: int)
    requires VerticesWithin(vs, xlo, xhi, ylo, yhi)
    requires p in RowPixels(vs, p.y)
    ensures xlo <= p.x < xhi && ylo <= p.y < yhi
  {
    var xs := RowIntersections(vs, p.y);
    EdgeCrossingsWithin(vs, p.y, |vs|, xlo, xhi, ylo, yhi);
    RowPixelsAreSpans(vs, p.y, p);
    SpanWithin(xs, p.x, xlo, xhi);
  }

  /** A point inside a span between sorted values lies within the values' range, half-open on the right. */
  lemma SpanWithin(xs: seq<int>, x: int, lo: int, hi: int)
    requires forall z :: z in xs ==> lo <= z <= hi
    requires InSomeSpan(SortedOf(xs), x)
    ensures xs != [] && lo <= x < hi
  {
    var sorted := SortedOf(xs);
    var i :| 0 <= i < |sorted| - 1 && i % 2 == 0 && sorted[i] <= x < sorted[i + 1];
    assert sorted[i] in multiset(xs) && sorted[i + 1] in multiset(xs);
    assert sorted[i] in xs && sorted[i + 1] in xs;
  }

  /**
   * A boundary of one or two vertices encloses nothing: with one vertex the
   * only edge is a point, and with two the edges there and back cross every
   * row at the same x, leaving an empty span.
   */
  lemma FewVerticesPaintNothing(vs: seq<Pos>, y: int)
    requires |vs| <= 2
    ensures RowPixels(vs, y) == []
  {
    var xs := RowIntersections(vs, y);
    if |vs| == 1 {
      assert !Crosses(vs[0], vs[0], y);
      assert xs == [];
    } else if |vs| == 2 {
      var p, q := vs[0], vs[1];
      assert Succ(0, 2) == 1 && Succ(1, 2) == 0;
      assert xs == EdgeCrossings(vs, y, 1) + (if Crosses(q, p, y) then [CrossingX(q, p, y)] else []);
      assert EdgeCrossings(vs, y, 1) == (if Crosses(p, q, y) then [CrossingX(p, q, y)] else []);
      CrossesHalfOpen(p, q, y);
      CrossesHalfOpen(q, p, y);
      if Crosses(p, q, y) {
        CrossingXSymmetric(p, q, y);
        var x := CrossingX(p, q, y);
        assert xs == [x, x];
        SortEqualPair(x);
        PairOfEqualSpansNothing(y, x);
      } else {
        assert xs == [];
      }
    }
  }

  lemma SortEqualPair(x: int)
    ensures SortedOf([x, x]) == [x, x]
  {
    var sorted := SortedOf([x, x]);
    assert multiset(sorted) == multiset{x, x};
    assert sorted[0] in multiset(sorted) && sorted[1] in multiset(sorted);
  }

  lemma PairOfEqualSpansNothing(y: int, x: int)
    ensures PairSpans(y, [x, x]) == []
  {
    assert [x, x][..0] == [];
  }

  /** Filling a boundary of fewer than three vertices paints nothing at all. */
  lemma FewVerticesFillNothing(vs: seq<Pos>)
    requires |vs| <= 2
    ensures FillPixels(vs) == []
  {
    var all := FillPixels(vs);
    if all != [] {
      var p := all[0];
      FillMembership(vs, p);
      FewVerticesPaintNothing(vs, p.y);
      assert false;
    }
  }

  /** The square with corners (100, 100) and (200, 200), listed clockwise on screen. */
  const Square := [Pos(100, 100), Pos(200, 100), Pos(200, 200), Pos(100, 200)]

  /** Each row 100 .. 199 of the square meets its right and left sides, at 200 and 100. */
  lemma SquareRowIntersections(y: int)
    requires 100 <= y < 200
    ensures RowIntersections(Square, y) == [200, 100]
  {
    var vs := Square;
    assert Succ(0, 4) == 1 && Succ(1, 4) == 2 && Succ(2, 4) == 3 && Succ(3, 4) == 0;
    assert Numerator(vs[1], vs[2], y) == 200 * 100;
    TruncDivExact(200, 100);
    assert Numerator(vs[3], vs[0], y) == 100 * (-100);
    TruncDivExact(100, -100);
    assert EdgeCrossings(vs, y, 1) == [];
    assert EdgeCrossings(vs, y, 2) == [200];
    assert EdgeCrossings(vs, y, 3) == [200];
  }

  lemma SquareSpan(y: int)
    ensures PairSpans(y, SortedOf([200, 100])) == SpanPixels(y, 100, 200)
  {
    var sorted := SortedOf([200, 100]);
    assert multiset([100, 200]) == multiset([200, 100]);
    SortedUnique([100, 200], sorted);
    assert sorted[..0] == [];
  }

  /** Each row 100 .. 199 of the square paints x = 100 .. 199. */
  lemma SquareRow(y: int)
    requires 100 <= y < 200
    ensures RowPixels(Square, y) == SpanPixels(y, 100, 200)
  {
    SquareRowIntersections(y);
    SquareSpan(y);
  }

  /** Rows outside 100 .. 199 meet no side of the square. */
  lemma SquareOtherRow(y: int)
    requires y < 100 || 200 <= y
    ensures RowPixels(Square, y) == []
  {
    var vs := Square;
    assert vs[0].y == 100 && vs[1].y == 100 && vs[2].y == 200 && vs[3].y == 200;
    RowWithoutCrossingsPaintsNothing(vs, y);
  }

  /**
   * The fill of the square paints exactly the pixels with 100 <= x < 200 and
   * 100 <= y < 200: the left column and the top row of the square are filled,
   * the right column and the bottom row are not.
   */
  lemma SquareFill(p: Pos)
    ensures p in FillPixels(Square) <==> 100 <= p.x < 200 && 100 <= p.y < 200
  {
    FillMembership(Square, p);
    if 100 <= p.y < 200 {
      SquareRow(p.y);
    } else {
      SquareOtherRow(p.y);
    }
  }

  /** A triangle whose slanted sides meet row 5 at the non-integer x = 7.5 and x = 2.5. */
  const Triangle := [Pos(0, 0), Pos(10, 0), Pos(5, 10)]

  /**
   * Row 5 of the triangle: the crossings 7.5 and 2.5 are truncated to 7 and 2,
   * recorded in edge order, and the row paints x = 2 .. 6.
   */
  lemma TriangleMiddleRow()
    ensures RowIntersections(Triangle, 5) == [7, 2]
    ensures RowPixels(Triangle, 5) == SpanPixels(5, 2, 7)
  {
    TriangleCrossings();
    TriangleSpan();
  }

  lemma TriangleCrossings()
    ensures RowIntersections(Triangle, 5) == [7, 2]
  {
    var vs := Triangle;
    assert Succ(0, 3) == 1 && Succ(1, 3) == 2 && Succ(2, 3) == 0;
    assert Numerator(vs[1], vs[2], 5) == 75;
    assert TruncDiv(75, 10) == 7;
    assert Numerator(vs[2], vs[0], 5) == -25;
    assert TruncDiv(-25, -10) == TruncDiv(25, 10) == 2;
    assert EdgeCrossings(vs, 5, 1) == [];
    assert EdgeCrossings(vs, 5, 2) == [7];
  }

  lemma TriangleSpan()
    ensures PairSpans(5, SortedOf([7, 2])) == SpanPixels(5, 2, 7)
  {
    var sorted := SortedOf([7, 2]);
    assert multiset([2, 7]) == multiset([7, 2]);
    SortedUnique([2, 7], sorted);
    assert sorted[..0] == [];
  }
}
