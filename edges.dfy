/**
 * The edge model: the boundary of the polygon derived from the vertex order.
 * While points are still being placed only the open chain 0 -> 1 -> ... -> n-1
 * is drawn; completing the polygon adds the closing edge n-1 -> 0.
 */
module Edges {
  import opened Geometry
  import opened Line

  /** A directed edge between two vertex positions. */
  datatype Segment = Segment(from: Pos, to: Pos)

  /** The closed boundary: edge `i` runs from vertex `i` to vertex `(i + 1) mod n`. */
  function ClosedCycle(vs: seq<Pos>): seq<Segment>
  {
    seq(|vs|, i requires 0 <= i < |vs| => Segment(vs[i], vs[Succ(i, |vs|)]))
  }

  /** The open chain: edge `i` runs from vertex `i` to vertex `i + 1`, for `i < n - 1`. */
  function OpenChain(vs: seq<Pos>): seq<Segment>
  {
    if |vs| == 0 then [] else seq(|vs| - 1, i requires 0 <= i < |vs| - 1 => Segment(vs[i], vs[i + 1]))
  }

  /**
   * The open chain is the closed boundary without its closing edge: n - 1
   * edges, none of them wrapping around from the last vertex to the first.
   */
  lemma OpenChainOmitsClosingEdge(vs: seq<Pos>)
    requires |vs| >= 1
    ensures |OpenChain(vs)| == |vs| - 1
    ensures ClosedCycle(vs) == OpenChain(vs) + [Segment(vs[|vs| - 1], vs[0])]
  {
    var n := |vs|;
    var open, closed := OpenChain(vs), ClosedCycle(vs);
    forall i | 0 <= i < n - 1
      ensures closed[i] == open[i]
    {
      assert Succ(i, n) == i + 1;
    }
  }

  /** The pixels of each segment, drawn one after the other. */
  function StrokePixels(es: seq<Segment>): seq<Pos>
  {
    if es == [] then []
    else StrokePixels(es[..|es| - 1]) + LinePixels(es[|es| - 1].from, es[|es| - 1].to)
  }

  /** Both end points of every stroked segment are painted. */
  lemma {:induction false} StrokeCoversEndpoints(es: seq<Segment>, k: nat)
    requires k < |es|
    ensures es[k].from in StrokePixels(es) && es[k].to in StrokePixels(es)
  {
    var m := |es| - 1;
    var last := LinePixels(es[m].from, es[m].to);
    assert StrokePixels(es) == StrokePixels(es[..m]) + last;
    if k == m {
      LineEndpoints(es[m].from, es[m].to);
      assert last[0] in last && last[|last| - 1] in last;
    } else {
      StrokeCoversEndpoints(es[..m], k);
    }
  }

  /** Once two points are placed, the open outline passes through every vertex. */
  lemma OutlineThroughVertices(vs: seq<Pos>, i: nat)
    requires 2 <= |vs| && i < |vs|
    ensures vs[i] in StrokePixels(OpenChain(vs))
  {
    var open := OpenChain(vs);
    if i < |vs| - 1 {
      StrokeCoversEndpoints(open, i);
      assert open[i].from == vs[i];
    } else {
      StrokeCoversEndpoints(open, i - 1);
      assert open[i - 1].to == vs[i];
    }
  }

  /** Stroking one more segment appends exactly that segment's pixels. */
  lemma StrokeAppend(es: seq<Segment>, e: Segment)
    ensures StrokePixels(es + [e]) == StrokePixels(es) + LinePixels(e.from, e.to)
  {
    assert (es + [e])[..|es|] == es;
  }

  /**
   * The open outline followed by the closing line from the last vertex to the
   * first paints exactly what stroking the whole closed boundary paints.
   */
  lemma OutlineThenClosingEdge(vs: seq<Pos>)
    requires |vs| >= 1
    ensures StrokePixels(OpenChain(vs)) + LinePixels(vs[|vs| - 1], vs[0]) == StrokePixels(ClosedCycle(vs))
  {
    OpenChainOmitsClosingEdge(vs);
    StrokeAppend(OpenChain(vs), Segment(vs[|vs| - 1], vs[0]));
  }
}
