/**
 * The vertex store and the operations the drawing program performs on it: place
 * a point, clear the board, snap the pointer to the last point's row or column,
 * draw the open outline, and complete the polygon (closing edge and fill).
 *
 * The program keeps this state in globals (`points`, `numPointsOnScreen`,
 * `mousePos`); here they are the fields of one `Board` object.
 */
module Editor {
  import opened Geometry
  import opened Line
  import opened Edges
  import opened Fill

  /** MAX_NUM_POINTS: the capacity of the vertex store. */
  const MaxPoints := 256

  /** A placed point: its position and the colour of its marker. */
  datatype Vertex = Vertex(pos: Pos, color: Color)

  /** What clearing the board leaves in every slot: an off-screen point in RAYWHITE. */
  const ClearedSlot := Vertex(Pos(-10, -10), RayWhite)

  /** What the zero-initialised global array holds before anything happens. */
  const InitialSlot := Vertex(Pos(0, 0), Color(0, 0, 0, 0))

  /** A marker colour as the program draws it: three channels from GetRandomValue(50, 255), opaque. */
  predicate RandomTint(c: Color)
  {
    50 <= c.r <= 255 && 50 <= c.g <= 255 && 50 <= c.b <= 255 && c.a == 255
  }

  function PositionsOf(vs: seq<Vertex>): seq<Pos>
  {
    seq(|vs|, i requires 0 <= i < |vs| => vs[i].pos)
  }

  /**
   * Snapping the pointer while shift is held: keep the pointer's coordinate along
   * the axis it has moved farther on from `last`, and take `last`'s coordinate on
   * the other axis. Ties keep the pointer's y.
   */
  function Snap(mouse: Pos, last: Pos): (r: Pos)
    ensures r.x == last.x || r.y == last.y
  {
    var dx, dy := Abs(mouse.x - last.x), Abs(mouse.y - last.y);
    if dx > dy then Pos(mouse.x, last.y) else Pos(last.x, mouse.y)
  }

  function Manhattan(p: Pos, q: Pos): nat
  {
    Abs(p.x - q.x) + Abs(p.y - q.y)
  }

  /**
   * The snapped point is a nearest point to the pointer, in city-block distance,
   * among all points on the row or the column through `last`.
   */
  lemma SnapIsNearestOnCross(mouse: Pos, last: Pos, c: Pos)
    requires c.x == last.x || c.y == last.y
    ensures Manhattan(mouse, Snap(mouse, last)) <= Manhattan(mouse, c)
  {
  }

  /** Snapping an already snapped point changes nothing. */
  lemma SnapIdempotent(mouse: Pos, last: Pos)
    ensures Snap(Snap(mouse, last), last) == Snap(mouse, last)
  {
  }

  /** One exchange of two slots, as the library sort performs them. */
  datatype Exchange = Exchange(i: nat, j: nat)

  predicate ExchangesWithin(order: seq<Exchange>, n: nat)
  {
    forall k :: 0 <= k < |order| ==> order[k].i < n && order[k].j < n
  }

  /** The order `s` is left in by the exchanges `order`, applied first to last. */
  function ApplyExchanges(s: seq<Vertex>, order: seq<Exchange>): (r: seq<Vertex>)
    requires ExchangesWithin(order, |s|)
    ensures |r| == |s|
  {
    if order == [] then s
    else
      var e := order[|order| - 1];
      var before := ApplyExchanges(s, order[..|order| - 1]);
      before[e.i := before[e.j]][e.j := before[e.i]]
  }

  /** However the exchanges are chosen, the result is a permutation of the input. */
  lemma {:induction false} ExchangesPermute(s: seq<Vertex>, order: seq<Exchange>)
    requires ExchangesWithin(order, |s|)
    ensures multiset(ApplyExchanges(s, order)) == multiset(s)
  {
    if order != [] {
      var e := order[|order| - 1];
      var before := ApplyExchanges(s, order[..|order| - 1]);
      ExchangesPermute(s, order[..|order| - 1]);
      var mid := before[e.i := before[e.j]];
      assert multiset(mid) == multiset(before) - multiset{before[e.i]} + multiset{before[e.j]};
      assert multiset(mid[e.j := before[e.i]]) == multiset(mid) - multiset{mid[e.j]} + multiset{before[e.i]};
    }
  }

  class Board {
    /** `points`: the vertex slots. */
    const points: array<Vertex>
    /** `numPointsOnScreen`: how many slots, from the front, hold placed points. */
    var count: nat
    /** `mousePos`: the pointer position the next point is placed at. */
    var mousePos: Pos

    ghost predicate Valid()
      reads this
    {
      points.Length == MaxPoints && count <= MaxPoints
    }

    /** The positions of the placed points, in placement order. */
    function Positions(): seq<Pos>
      reads this, points
      requires Valid()
    {
      PositionsOf(points[..count])
    }

    /** The program's initial state: no points, every slot zeroed, the pointer at the origin. */
    constructor ()
      ensures Valid() && fresh(points)
      ensures count == 0 && mousePos == Pos(0, 0)
      ensures forall i :: 0 <= i < MaxPoints ==> points[i] == InitialSlot
    {
      points := new Vertex[MaxPoints](_ => InitialSlot);
      count := 0;
      mousePos := Pos(0, 0);
    }

    /** The host moves the pointer (`mousePos = GetMousePosition()`). */
    method MoveMouse(p: Pos)
      modifies this`mousePos
      ensures mousePos == p
    {
      mousePos := p;
    }

    /**
     * m_PaintPointOnBoard: when a slot is free, write the pointer position with
     * the given marker colour into slot `count` and count it; on a full board do
     * nothing. No earlier slot changes.
     */
    method PaintPointOnBoard(tint: Color)
      requires Valid() && RandomTint(tint)
      modifies this`count, points
      ensures Valid()
      ensures count == if old(count) < MaxPoints then old(count) + 1 else old(count)
      ensures points[..] == if old(count) < MaxPoints then old(points[..])[old(count) := Vertex(mousePos, tint)]
                            else old(points[..])
      ensures Positions() == if old(count) < MaxPoints then old(Positions()) + [mousePos] else old(Positions())
    {
      if count < MaxPoints {
        points[count] := Vertex(mousePos, tint);
        count := count + 1;
        assert points[..count] == old(points[..count]) + [Vertex(mousePos, tint)];
      }
    }

    /** m_ClearBoard: forget every point and reset every slot to the off-screen cleared point. */
    method ClearBoard()
      requires Valid()
      modifies this`count, points
      ensures Valid() && count == 0 && Positions() == []
      ensures forall i :: 0 <= i < MaxPoints ==> points[i] == ClearedSlot
    {
      count := 0;
      for i := 0 to MaxPoints
        invariant count == 0
        invariant forall k :: 0 <= k < i ==> points[k] == ClearedSlot
      {
        points[i] := ClearedSlot;
      }
    }

    /**
     * m_PressShiftMousePos: while shift is held, snap the pointer onto the row or
     * column of the last placed point. The program reads that point without
     * checking that one exists, so a caller holding shift must have placed one.
     */
    method PressShiftMousePos(shiftDown: bool)
      requires Valid() && (shiftDown ==> count >= 1)
      modifies this`mousePos
      ensures mousePos == if shiftDown then Snap(old(mousePos), points[count - 1].pos) else old(mousePos)
      ensures shiftDown ==> mousePos.x == points[count - 1].pos.x || mousePos.y == points[count - 1].pos.y
    {
      if shiftDown {
        var mx, my := mousePos.x, mousePos.y;
        var lastpx, lastpy := points[count - 1].pos.x, points[count - 1].pos.y;
        var dx, dy := Abs(mx - lastpx), Abs(my - lastpy);
        if dx > dy {
          my := lastpy;
        } else {
          mx := lastpx;
        }
        mousePos := Pos(mx, my);
      }
    }

    /**
     * m_DrawEdges: draw the edge from point `i` to point `(i + 1) mod n` for every
     * `i < n - 1`, which is the open chain; the closing edge is not drawn.
     */
    method DrawEdges() returns (painted: seq<Pos>)
      requires Valid()
      ensures painted == StrokePixels(OpenChain(Positions()))
    {
      ghost var vs := Positions();
      painted := [];
      var i := 0;
      while i < count - 1
        invariant 0 <= i <= if count == 0 then 0 else count - 1
        invariant painted == StrokePixels(OpenChain(vs)[..i])
      {
        var nextIndex := (i + 1) % count;
        ModSucc(i, count);
        var segment := DrawLine(points[i].pos, points[nextIndex].pos);
        assert OpenChain(vs)[..i + 1][..i] == OpenChain(vs)[..i];
        painted := painted + segment;
        i := i + 1;
      }
      assert OpenChain(vs)[..i] == OpenChain(vs);
    }

    /**
     * The `qsort` of the points by angle around their centroid, which opens
     * m_ScanlineFill. The comparator works on float angles; the model takes the
     * exchanges the sort performs as given, so any reordering is covered.
     */
    method SortByAngle(order: seq<Exchange>)
      requires Valid() && ExchangesWithin(order, count)
      modifies points
      ensures points[..count] == ApplyExchanges(old(points[..count]), order)
      ensures points[count..] == old(points[count..])
    {
      for k := 0 to |order|
        invariant points[..count] == ApplyExchanges(old(points[..count]), order[..k])
        invariant points[count..] == old(points[count..])
      {
        var e := order[k];
        ghost var before := points[..count];
        var t := points[e.i];
        points[e.i] := points[e.j];
        points[e.j] := t;
        assert order[..k + 1][..k] == order[..k];
        assert points[..count] == before[e.i := before[e.j]][e.j := before[e.i]];
      }
      assert order[..|order|] == order;
    }

    /**
     * m_ScanlineFill: reorder the points, then for every screen row collect the
     * crossings of the closed boundary, sort them and paint the spans between
     * pairs. The store keeps its count and the same points, reordered.
     */
    method ScanlineFill(order: seq<Exchange>) returns (painted: seq<Pos>)
      requires Valid() && ExchangesWithin(order, count)
      modifies points
      ensures Valid()
      ensures points[..count] == ApplyExchanges(old(points[..count]), order)
      ensures multiset(points[..count]) == multiset(old(points[..count]))
      ensures points[count..] == old(points[count..])
      ensures painted == FillPixels(Positions())
    {
      SortByAngle(order);
      ExchangesPermute(old(points[..count]), order);
      painted := PaintRows(Positions());
    }

    /**
     * m_FinalizaEdges: with at least two points draw the closing edge from the
     * last point to the first; with at least three, fill the polygon.
     */
    method FinalizaEdges(order: seq<Exchange>) returns (painted: seq<Pos>)
      requires Valid() && ExchangesWithin(order, count)
      modifies points
      ensures Valid()
      ensures points[..count] == if count > 2 then ApplyExchanges(old(points[..count]), order) else old(points[..count])
      ensures points[count..] == old(points[count..])
      ensures painted == (if count > 1 then LinePixels(old(points[count - 1].pos), old(points[0].pos)) else [])
                         + (if count > 2 then FillPixels(Positions()) else [])
    {
      painted := [];
      if count > 1 {
        painted := DrawLine(points[count - 1].pos, points[0].pos);
      }
      if count > 2 {
        var fill := ScanlineFill(order);
        painted := painted + fill;
      }
    }
  }
}
