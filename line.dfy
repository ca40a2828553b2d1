/**
 * The integer line rasteriser: an all-octant Bresenham traversal between two
 * truncated endpoints that paints one pixel per step.
 *
 * The traversal is specified by `Trace`, which describes the walk by how many
 * unit steps it has taken along each axis; the error accumulator the loop
 * carries is a closed form of those two counts (`Err`). `DrawLine` is the loop
 * itself, proved to paint exactly `LinePixels`.
 */
module Line {
  import opened Geometry

  /** The source's LESS_THAN and GREATER_THAN, which double as unit step directions. */
  const LessThan := -1
  const GreaterThan := 1

  /**
   * The coordinate reached after `k` unit steps from `from` toward `to`. As in the
   * source, the step is downward whenever `from < to` fails, including when they
   * are equal.
   */
  function Advance(from: int, to: int, k: int): int
  {
    if from < to then from + k else from - k
  }

  /** The pixel reached after `i` steps along x and `j` steps along y. */
  function Reached(s: Pos, e: Pos, i: int, j: int): Pos
  {
    Pos(Advance(s.x, e.x, i), Advance(s.y, e.y, j))
  }

  /**
   * The error term after `i` steps along x and `j` along y: it starts at dx - dy,
   * loses dy with every x step and gains dx with every y step.
   */
  function Err(dx: int, dy: int, i: int, j: int): int
  {
    dx * (j + 1) - dy * (i + 1)
  }

  lemma MulMonotone(a: int, b: int, c: int)
    requires 0 <= a && b <= c
    ensures a * b <= a * c
  {
    assert a * c - a * b == a * (c - b);
  }

  /** One x step lowers the error term by dy; one y step raises it by dx. */
  lemma ErrSteps(dx: int, dy: int, i: int, j: int)
    ensures Err(dx, dy, i + 1, j) == Err(dx, dy, i, j) - dy
    ensures Err(dx, dy, i, j + 1) == Err(dx, dy, i, j) + dx
    ensures Err(dx, dy, i + 1, j + 1) == Err(dx, dy, i, j) + dx - dy
  {
  }

  /** The x count after one more step from progress (i, j): the source steps along x when 2 * err > -dy. */
  function NextI(dx: int, dy: int, i: int, j: int): int
  {
    if 2 * Err(dx, dy, i, j) + dy > 0 then i + 1 else i
  }

  /** The y count after one more step from progress (i, j): the source steps along y when 2 * err < dx. */
  function NextJ(dx: int, dy: int, i: int, j: int): int
  {
    if 2 * Err(dx, dy, i, j) < dx then j + 1 else j
  }

  /**
   * The decision the loop takes from the error term never steps past the end
   * point along either axis, and away from the end point it always steps along
   * at least one axis.
   */
  lemma StepBounds(dx: int, dy: int, i: int, j: int)
    requires 0 <= i <= dx && 0 <= j <= dy && !(i == dx && j == dy)
    ensures i <= NextI(dx, dy, i, j) <= dx && j <= NextJ(dx, dy, i, j) <= dy
    ensures (NextI(dx, dy, i, j), NextJ(dx, dy, i, j)) != (i, j)
  {
    if i == dx {
      MulMonotone(dx, j + 1, dy);
      assert Err(dx, dy, i, j) == dx * (j + 1) - dy * dx - dy;
    }
    if j == dy {
      MulMonotone(dy, i + 1, dx);
      assert Err(dx, dy, i, j) == dx * dy + dx - dy * (i + 1);
    }
  }

  /**
   * The pixels the traversal paints from progress (i, j) on: the current pixel,
   * then, unless it is the end point, the rest of the walk after one step.
   */
  function Trace(s: Pos, e: Pos, i: nat, j: nat): seq<Pos>
    requires i <= Abs(e.x - s.x) && j <= Abs(e.y - s.y)
    decreases Abs(e.x - s.x) - i + Abs(e.y - s.y) - j
  {
    var dx, dy := Abs(e.x - s.x), Abs(e.y - s.y);
    if i == dx && j == dy then
      [Reached(s, e, i, j)]
    else
      StepBounds(dx, dy, i, j);
      [Reached(s, e, i, j)] + Trace(s, e, NextI(dx, dy, i, j), NextJ(dx, dy, i, j))
  }

  /** Away from the end point, the walk is the current pixel followed by the walk after one step. */
  lemma TraceStep(s: Pos, e: Pos, i: nat, j: nat)
    requires i <= Abs(e.x - s.x) && j <= Abs(e.y - s.y)
    requires !(i == Abs(e.x - s.x) && j == Abs(e.y - s.y))
    ensures NextI(Abs(e.x - s.x), Abs(e.y - s.y), i, j) <= Abs(e.x - s.x)
    ensures NextJ(Abs(e.x - s.x), Abs(e.y - s.y), i, j) <= Abs(e.y - s.y)
    ensures Trace(s, e, i, j) == [Reached(s, e, i, j)] + Trace(s, e, NextI(Abs(e.x - s.x), Abs(e.y - s.y), i, j), NextJ(Abs(e.x - s.x), Abs(e.y - s.y), i, j))
  {
    StepBounds(Abs(e.x - s.x), Abs(e.y - s.y), i, j);
  }

  /** The pixels `m_DrawLine` paints from `s` to `e`, in painting order. */
  function LinePixels(s: Pos, e: Pos): seq<Pos>
  {
    Trace(s, e, 0, 0)
  }

  /** `p` and `q` are distinct and touch horizontally, vertically or diagonally. */
  predicate Adjacent(p: Pos, q: Pos)
  {
    p != q && Abs(p.x - q.x) <= 1 && Abs(p.y - q.y) <= 1
  }

  /** Moving from `p` to `q` gets no farther from `e` along either axis. */
  predicate NoFartherFrom(p: Pos, q: Pos, e: Pos)
  {
    Abs(e.x - q.x) <= Abs(e.x - p.x) && Abs(e.y - q.y) <= Abs(e.y - p.y)
  }

  /** `p` lies in the axis-aligned box whose corners are `s` and `e`. */
  predicate InBox(s: Pos, e: Pos, p: Pos)
  {
    Between(s.x, p.x, e.x) && Between(s.y, p.y, e.y)
  }

  /** The remaining distance to the end point along each axis is what the counts have not covered yet. */
  lemma ReachedFacts(s: Pos, e: Pos, i: nat, j: nat)
    requires i <= Abs(e.x - s.x) && j <= Abs(e.y - s.y)
    ensures Abs(e.x - Reached(s, e, i, j).x) == Abs(e.x - s.x) - i
    ensures Abs(e.y - Reached(s, e, i, j).y) == Abs(e.y - s.y) - j
    ensures InBox(s, e, Reached(s, e, i, j))
  {
  }

  lemma {:induction false} TraceShape(s: Pos, e: Pos, i: nat, j: nat)
    requires i <= Abs(e.x - s.x) && j <= Abs(e.y - s.y)
    ensures |Trace(s, e, i, j)| >= 1
    ensures Trace(s, e, i, j)[0] == Reached(s, e, i, j)
    ensures Trace(s, e, i, j)[|Trace(s, e, i, j)| - 1] == e
    ensures forall k :: 0 <= k < |Trace(s, e, i, j)| ==> InBox(s, e, Trace(s, e, i, j)[k])
    ensures forall k :: 0 <= k < |Trace(s, e, i, j)| - 1 ==>
              Adjacent(Trace(s, e, i, j)[k], Trace(s, e, i, j)[k + 1]) &&
              NoFartherFrom(Trace(s, e, i, j)[k], Trace(s, e, i, j)[k + 1], e)
    decreases Abs(e.x - s.x) - i + Abs(e.y - s.y) - j
  {
    var dx, dy := Abs(e.x - s.x), Abs(e.y - s.y);
    ReachedFacts(s, e, i, j);
    if i == dx && j == dy {
    } else {
      TraceStep(s, e, i, j);
      var i', j' := NextI(dx, dy, i, j), NextJ(dx, dy, i, j);
      TraceShape(s, e, i', j');
      ReachedFacts(s, e, i', j');
      var rest := Trace(s, e, i', j');
      var r := Trace(s, e, i, j);
      assert Adjacent(r[0], r[1]) && NoFartherFrom(r[0], r[1], e);
      forall k | 1 <= k < |r| - 1
        ensures Adjacent(r[k], r[k + 1]) && NoFartherFrom(r[k], r[k + 1], e)
      {
        assert r[k] == rest[k - 1] && r[k + 1] == rest[k];
      }
      forall k | 1 <= k < |r|
        ensures InBox(s, e, r[k])
      {
        assert r[k] == rest[k - 1];
      }
    }
  }

  /** The first pixel painted is the start point and the last is the end point. */
  lemma LineEndpoints(s: Pos, e: Pos)
    ensures |LinePixels(s, e)| >= 1
    ensures LinePixels(s, e)[0] == s
    ensures LinePixels(s, e)[|LinePixels(s, e)| - 1] == e
  {
    TraceShape(s, e, 0, 0);
  }

  /**
   * Consecutive pixels are 8-adjacent, and each step moves toward the end point
   * along both axes without passing it.
   */
  lemma LineConnected(s: Pos, e: Pos, k: nat)
    requires k + 1 < |LinePixels(s, e)|
    ensures Adjacent(LinePixels(s, e)[k], LinePixels(s, e)[k + 1])
    ensures NoFartherFrom(LinePixels(s, e)[k], LinePixels(s, e)[k + 1], e)
  {
    TraceShape(s, e, 0, 0);
  }

  /** Every painted pixel lies within the box spanned by the two end points. */
  lemma LineInBox(s: Pos, e: Pos, p: Pos)
    requires p in LinePixels(s, e)
    ensures InBox(s, e, p)
  {
    TraceShape(s, e, 0, 0);
  }

  /** A line paints a single pixel exactly when its end points coincide, and that pixel is the point. */
  lemma LineSinglePixel(s: Pos, e: Pos)
    ensures |LinePixels(s, e)| == 1 <==> s == e
    ensures s == e ==> LinePixels(s, e) == [s]
  {
    LineLength(s, e);
    LineEndpoints(s, e);
    var ps := LinePixels(s, e);
    if s == e {
      assert ps == [ps[0]];
    }
  }

  /**
   * How far the walk at progress (i, j) has drifted from the exact line, scaled:
   * the error term is this drift plus its starting value dx - dy.
   */
  function Drift(dx: int, dy: int, i: int, j: int): int
  {
    dx * j - dy * i
  }

  lemma DriftSteps(dx: int, dy: int, i: int, j: int)
    ensures Err(dx, dy, i, j) == Drift(dx, dy, i, j) + dx - dy
    ensures Drift(dx, dy, i + 1, j) == Drift(dx, dy, i, j) - dy
    ensures Drift(dx, dy, i, j + 1) == Drift(dx, dy, i, j) + dx
    ensures Drift(dx, dy, i + 1, j + 1) == Drift(dx, dy, i, j) + dx - dy
  {
  }

  /** While x is the major axis the walk stays within half a pixel of the exact line. */
  predicate XMajorInv(dx: int, dy: int, i: int, j: int)
  {
    -dx <= 2 * Drift(dx, dy, i, j) <= dx && (dx == dy ==> Drift(dx, dy, i, j) == 0)
  }

  /** While y is the major axis the walk stays within half a pixel of the exact line. */
  predicate YMajorInv(dx: int, dy: int, i: int, j: int)
  {
    -dy <= 2 * Drift(dx, dy, i, j) <= dy
  }

  /** Once x is exhausted, the drift is dx times the y steps still missing, so it is large unless y is done too. */
  lemma DriftAtEnd(dx: int, dy: int, j: int)
    ensures Drift(dx, dy, dx, j) == dx * (j - dy)
    ensures 0 <= dx && j < dy ==> Drift(dx, dy, dx, j) <= -dx
  {
    if 0 <= dx && j < dy {
      MulMonotone(dx, j - dy, -1);
    }
  }

  /** Along a mostly horizontal line every step advances x, and x is not exhausted before the end. */
  lemma XMajorStep(dx: int, dy: int, i: int, j: int)
    requires 0 <= dy <= dx && 0 <= i <= dx && 0 <= j <= dy && !(i == dx && j == dy)
    requires XMajorInv(dx, dy, i, j)
    ensures i < dx && NextI(dx, dy, i, j) == i + 1
    ensures XMajorInv(dx, dy, NextI(dx, dy, i, j), NextJ(dx, dy, i, j))
  {
    DriftSteps(dx, dy, i, j);
    DriftAtEnd(dx, dy, j);
  }

  /** Along a mostly vertical line every step advances y, and y is not exhausted before the end. */
  lemma YMajorStep(dx: int, dy: int, i: int, j: int)
    requires 0 <= dx < dy && 0 <= i <= dx && 0 <= j <= dy && !(i == dx && j == dy)
    requires YMajorInv(dx, dy, i, j)
    ensures j < dy && NextJ(dx, dy, i, j) == j + 1
    ensures YMajorInv(dx, dy, NextI(dx, dy, i, j), NextJ(dx, dy, i, j))
  {
    DriftSteps(dx, dy, i, j);
    DriftAtEnd(dy, dx, i);
    assert Drift(dx, dy, i, dy) == -Drift(dy, dx, dy, i);
  }

  lemma {:induction false} TraceLengthX(s: Pos, e: Pos, i: nat, j: nat)
    requires Abs(e.y - s.y) <= Abs(e.x - s.x)
    requires i <= Abs(e.x - s.x) && j <= Abs(e.y - s.y)
    requires XMajorInv(Abs(e.x - s.x), Abs(e.y - s.y), i, j)
    ensures |Trace(s, e, i, j)| == Abs(e.x - s.x) - i + 1
    decreases Abs(e.x - s.x) - i + Abs(e.y - s.y) - j
  {
    var dx, dy := Abs(e.x - s.x), Abs(e.y - s.y);
    if !(i == dx && j == dy) {
      StepBounds(dx, dy, i, j);
      XMajorStep(dx, dy, i, j);
      TraceLengthX(s, e, NextI(dx, dy, i, j), NextJ(dx, dy, i, j));
    }
  }

  lemma {:induction false} TraceLengthY(s: Pos, e: Pos, i: nat, j: nat)
    requires Abs(e.x - s.x) < Abs(e.y - s.y)
    requires i <= Abs(e.x - s.x) && j <= Abs(e.y - s.y)
    requires YMajorInv(Abs(e.x - s.x), Abs(e.y - s.y), i, j)
    ensures |Trace(s, e, i, j)| == Abs(e.y - s.y) - j + 1
    decreases Abs(e.x - s.x) - i + Abs(e.y - s.y) - j
  {
    var dx, dy := Abs(e.x - s.x), Abs(e.y - s.y);
    if !(i == dx && j == dy) {
      StepBounds(dx, dy, i, j);
      YMajorStep(dx, dy, i, j);
      TraceLengthY(s, e, NextI(dx, dy, i, j), NextJ(dx, dy, i, j));
    }
  }

  /**
   * The line paints one pixel per unit of its longer axis, plus the start
   * point: no pixel is painted twice along that axis and none is skipped.
   */
  lemma LineLength(s: Pos, e: Pos)
    ensures |LinePixels(s, e)| == Max(Abs(e.x - s.x), Abs(e.y - s.y)) + 1
  {
    var dx, dy := Abs(e.x - s.x), Abs(e.y - s.y);
    assert Drift(dx, dy, 0, 0) == 0;
    if dy <= dx {
      TraceLengthX(s, e, 0, 0);
    } else {
      TraceLengthY(s, e, 0, 0);
    }
  }

  /**
   * `m_DrawLine`: truncate both end points, then paint the current pixel, stop at
   * the end point, and otherwise step along x and/or y as the doubled error term
   * decides.
   */
  method DrawLine(start: Pos, end: Pos) returns (painted: seq<Pos>)
    ensures painted == LinePixels(start, end)
    ensures |painted| >= 1 && painted[0] == start && painted[|painted| - 1] == end
  {
    var x1, y1 := start.x, start.y;
    var x2, y2 := end.x, end.y;
    var dx: int, dy: int := Abs(x2 - x1), Abs(y2 - y1);
    var sx := if x1 < x2 then GreaterThan else LessThan;
    var sy := if y1 < y2 then GreaterThan else LessThan;
    var err := dx - dy;
    ghost var i: nat, j: nat := 0, 0;
    painted := [];
    while true
      invariant i <= dx && j <= dy
      invariant x1 == Advance(start.x, end.x, i) && y1 == Advance(start.y, end.y, j)
      invariant err == Err(dx, dy, i, j)
      invariant painted + Trace(start, end, i, j) == LinePixels(start, end)
      decreases dx - i + dy - j
    {
      ReachedFacts(start, end, i, j);
      ghost var before := painted;
      painted := painted + [Pos(x1, y1)];
      if x1 == x2 && y1 == y2 {
        assert painted == LinePixels(start, end);
        break;
      }
      TraceStep(start, end, i, j);
      ghost var i', j' := NextI(dx, dy, i, j), NextJ(dx, dy, i, j);
      assert painted + Trace(start, end, i', j') == before + Trace(start, end, i, j);
      ErrSteps(dx, dy, i, j);
      var e2 := err * 2;
      if e2 > -dy {
        err := err - dy;
        x1 := x1 + sx;
        i := i + 1;
      }
      if e2 < dx {
        err := err + dx;
        y1 := y1 + sy;
        j := j + 1;
      }
      assert i == i' && j == j';
    }
    LineEndpoints(start, end);
  }
}
