# scanline-c in Dafny

`scanline.c` is a small raylib drawing program. The user clicks to place up to
256 points on a board, and the program draws the open outline through them with
its own Bresenham line routine. Holding shift snaps a click onto the row or
column of the last point. "Fill" closes the polygon and fills it with an
even-odd scanline fill: the points are sorted by angle around their centroid,
each screen row is intersected with the closed boundary, the intersections are
sorted, and the spans between pairs are painted.

This project models that core and proves what it paints:

- `geometry.dfy` (module `Geometry`): pixel positions and colours, C's
  truncating division (`TruncDiv`), and the cyclic successor `(i + 1) % n`.
- `line.dfy` (module `Line`): `m_DrawLine`.
  - `Trace` and `LinePixels` specify the walk by how many steps it has taken
    along each axis.
  - The `DrawLine` loop is proved to paint exactly `LinePixels`.
  - Lemmas prove the end points, 8-connectedness, monotone progress, the
    bounding box and the pixel count.
- `edges.dfy` (module `Edges`): the open chain drawn by `m_DrawEdges`, the
  closed boundary, and the strokes along them.
- `fill.dfy` (module `Fill`): `m_ScanlineFill`'s row loop.
  - The crossing test and the interpolated, truncated crossing x.
  - The crossings of a row.
  - The sort with `m_CompareIntegers`.
  - The span painting.
  - The loop methods `RowCrossings`, `PaintSpans` and `PaintRows` are proved
    against the functions `RowIntersections`, `PairSpans` and `FillPixels`.
- `fill_facts.dfy` (module `FillFacts`): properties of the whole fill.
  - Membership.
  - The bounding box.
  - Fewer than three vertices paint nothing.
  - Exact results for the square (100,100)-(200,200) and the triangle
    (0,0),(10,0),(5,10).
- `editor.dfy` (module `Editor`): the program's globals `points`,
  `numPointsOnScreen` and `mousePos` as the class `Board`, with methods for
  every operation that changes them.

Every `DrawPixel` call is modelled as appending the pixel to the method's
`painted` out-parameter, so each drawing method returns the pixels it paints,
in order.

Points to note about what `scanline.c` does:

- Fill spans are half-open, `x` from `intersections[i]` up to but excluding
  `intersections[i + 1]`. They are painted pixel by pixel with `DrawPixel`,
  not through the line routine, and they are not clamped to the board's width.
- With integer-valued positions an odd number of intersections on a row cannot
  arise: `IntersectionCountEven` proves the count is always even, so no
  intersection is ever left unpaired. With fractional coordinates it can (see
  "Left out").
- `m_ScanlineFill` itself has no guard on the number of points. Only
  `m_FinalizaEdges` calls it with more than two.

## Model

| member | source | states |
|---|---|---|
| `Geometry.TruncDiv` | scanline.c:170-171 | The `(int)` cast of the interpolated x: its magnitude is the floor of the magnitudes' quotient and its sign is that of the exact quotient, i.e. rounding toward zero, not Dafny's Euclidean `/` |
| `Geometry.ModSucc` | scanline.c:126 | `(i + 1) % n` is `i + 1`, or 0 for the last index |
| `Line.StepBounds` | scanline.c:93-103 | The two error-term decisions never step past the end point along either axis, and before the end point they always step along at least one axis, so the loop terminates |
| `Line.ErrSteps` | scanline.c:95-103 | An x step lowers `err` by `dy` and a y step raises it by `dx`, matching the closed form `dx*(j+1) - dy*(i+1)` |
| `Line.DrawLine` | scanline.c:75-105 | The loop paints exactly `LinePixels(start, end)`: first the start pixel, last the end pixel, and it terminates |
| `Line.LineEndpoints` | scanline.c:88-91 | The first painted pixel is the start point and the last is the end point |
| `Line.LineConnected` | scanline.c:93-103 | Consecutive pixels are distinct and 8-adjacent, and every step moves no farther from the end point along either axis |
| `Line.LineInBox` | scanline.c:75-105 | Every painted pixel lies inside the box spanned by the two end points |
| `Line.LineSinglePixel` | scanline.c:88-91 | A single pixel is painted exactly when the end points coincide |
| `Line.XMajorStep` | scanline.c:93-98 | On a line at most 45 degrees from horizontal every step advances x, and one step from a pixel within half a pixel of the exact line lands on a pixel within half a pixel of it |
| `Line.YMajorStep` | scanline.c:100-103 | On a line steeper than 45 degrees every step advances y, and one step from a pixel within half a pixel of the exact line lands on a pixel within half a pixel of it |
| `Line.LineLength` | scanline.c:75-105 | The line paints `max(dx, dy) + 1` pixels: one per unit of the longer axis, with none skipped or repeated |
| `Edges.OpenChainOmitsClosingEdge` | scanline.c:124-129 | `m_DrawEdges`'s edges `i -> (i+1) % n` for `i < n - 1` are the closed boundary minus the closing edge `n-1 -> 0` |
| `Edges.StrokeCoversEndpoints` | scanline.c:127 | Both end points of every stroked edge are painted |
| `Edges.OutlineThroughVertices` | scanline.c:124-129 | With two or more points the outline passes through every vertex |
| `Edges.OutlineThenClosingEdge` | scanline.c:204-206 | The outline followed by the closing line from the last point to the first paints exactly the stroke of the closed boundary |
| `Fill.Crosses` | scanline.c:169 | A crossing edge is never horizontal, so the interpolation never divides by zero |
| `Fill.CrossesHalfOpen` | scanline.c:169 | The crossing test holds exactly when the row lies in the half-open range `[min y, max y)` of the edge, and the second conjunct adds nothing for integer coordinates |
| `Fill.CrossingX` | scanline.c:170-171 | On a crossing the truncated x lies between the edge's end x values, and on a vertex's row it is that vertex's x |
| `Fill.EdgeCrossings` | scanline.c:163-173 | At most one intersection per edge, so a row never has more intersections than there are points and the 256-slot buffer suffices |
| `Fill.PathCrossingParity` | scanline.c:163-173 | Along the open path through vertices `0 .. k-1` the number of crossings is odd exactly when the path ends on the other side of the row |
| `Fill.IntersectionCountEven` | scanline.c:163-178 | Every row meets the closed boundary an even number of times, so the pairing loop's `intersections[i + 1]` always exists |
| `Fill.NoCrossingNoIntersections` | scanline.c:169 | If all vertices are on one side of the row, no edge contributes an intersection |
| `Fill.CompareIntegers` | scanline.c:152-154 | The comparator is negative, zero or positive exactly when `a < b`, `a == b` or `a > b` |
| `Fill.Insert` | scanline.c:175 | Insertion into a sorted sequence keeps it sorted and adds exactly one occurrence of the element |
| `Fill.SortAscending` | scanline.c:175 | The sorted intersections are ascending and a permutation of the unsorted ones |
| `Fill.SortedOf` | scanline.c:175 | The order the sort must produce: an ascending permutation of the intersections, of the same length |
| `Fill.SortedHeadsAgree` | scanline.c:175 | Two ascending permutations of the same values start with the same value |
| `Fill.SortedTail` | scanline.c:175 | Dropping the first value of an ascending sequence leaves an ascending sequence holding the other values |
| `Fill.SortedUnique` | scanline.c:175 | Any two ascending permutations of the same values are equal, so every correct sort, stable or not, yields the same intersection order |
| `Fill.SpanPixels` | scanline.c:178-180 | The inner loop paints exactly the pixels of row `y` with `lo <= x < hi`, and none when `hi <= lo` |
| `Fill.PairSpans` | scanline.c:177-181 | Every pixel painted for a row lies on that row |
| `Fill.PairSpansCover` | scanline.c:177-181 | A pixel is painted exactly when it lies on the row inside some span `[xs[i], xs[i+1])` with `i` even |
| `Fill.RowPixels` | scanline.c:159-182 | Every pixel the fill paints for row `y` lies on row `y` |
| `Fill.RowPixelsAreSpans` | scanline.c:163-181 | A row paints exactly the union of the half-open spans between consecutive pairs of its sorted intersections |
| `Fill.RowWithoutCrossingsPaintsNothing` | scanline.c:163-181 | A row with every vertex on one side of it has no intersections and paints nothing |
| `Fill.PaintRow` | scanline.c:160-181 | One pass of the row loop (collect, sort, pair) paints exactly `RowPixels` of that row |
| `Fill.RowCrossings` | scanline.c:163-173 | The edge loop records exactly `RowIntersections`, in edge order |
| `Fill.PaintSpans` | scanline.c:177-181 | The pairing loop paints exactly `PairSpans` of the sorted intersections |
| `Fill.PaintRows` | scanline.c:159-182 | The row loop over `y = 0 .. 599` paints exactly `FillPixels` |
| `FillFacts.NumeratorSwap` | scanline.c:170 | Swapping the end points of an edge negates the interpolation numerator |
| `FillFacts.CrossingXSymmetric` | scanline.c:169-171 | The crossing test and the truncated x do not depend on the direction in which an edge is traversed |
| `FillFacts.RowsMembership` | scanline.c:159-182 | For any rows that each paint only their own row, a pixel is painted by rows `0 .. h-1` exactly when its row is among them and that row paints it |
| `FillFacts.FillMembership` | scanline.c:156-183 | A pixel is painted by the fill exactly when `0 <= y < 600` and its row paints it |
| `FillFacts.EdgeCrossingsWithin` | scanline.c:163-173 | The intersections lie within the vertices' x range, and a row with any intersection lies within their y range |
| `FillFacts.FillWithinBoundingBox` | scanline.c:156-183 | Every painted pixel lies in the vertices' bounding box, half-open on the right and at the bottom |
| `FillFacts.RowPixelsWithin` | scanline.c:163-181 | Every pixel a row paints lies in the vertices' bounding box, half-open on the right and at the bottom |
| `FillFacts.SpanWithin` | scanline.c:177-180 | A pixel inside a span between sorted intersections lies at or right of the smallest intersection and strictly left of the largest |
| `FillFacts.FewVerticesPaintNothing` | scanline.c:163-181 | A boundary of one or two points paints nothing on any row |
| `FillFacts.SortEqualPair` | scanline.c:175 | Sorting two equal intersections leaves them as they are |
| `FillFacts.PairOfEqualSpansNothing` | scanline.c:178 | A span between two equal intersections is empty |
| `FillFacts.FewVerticesFillNothing` | scanline.c:207 | Filling fewer than three points paints nothing |
| `FillFacts.SquareRowIntersections` | scanline.c:163-173 | Each row 100..199 of the square meets its right side at 200 and its left side at 100, in that order |
| `FillFacts.SquareSpan` | scanline.c:175-181 | The square's sorted pair `[100, 200]` paints `x = 100 .. 199` |
| `FillFacts.SquareRow` | scanline.c:159-182 | Rows 100..199 of the square paint exactly `x = 100 .. 199` |
| `FillFacts.SquareOtherRow` | scanline.c:163-181 | Rows outside 100..199 paint nothing for the square |
| `FillFacts.SquareFill` | scanline.c:156-183 | The square's fill is exactly `100 <= x < 200`, `100 <= y < 200` |
| `FillFacts.TriangleCrossings` | scanline.c:163-173 | Row 5 of the triangle records the truncated crossings 7 (of 7.5) and 2 (of 2.5), in edge order |
| `FillFacts.TriangleSpan` | scanline.c:175-181 | Sorting `[7, 2]` and pairing paints `x = 2 .. 6` |
| `FillFacts.TriangleMiddleRow` | scanline.c:159-182 | Row 5 of the triangle paints exactly `x = 2 .. 6` |
| `Editor.Snap` | scanline.c:192-199 | The snapped pointer shares the last point's x or its y |
| `Editor.SnapIsNearestOnCross` | scanline.c:192-199 | Among all points on the row or column through the last point, the snapped pointer is a nearest one to the pointer in city-block distance |
| `Editor.SnapIdempotent` | scanline.c:185-201 | Snapping an already snapped pointer changes nothing |
| `Editor.ApplyExchanges` | scanline.c:157 | Exchanging slots keeps the number of points |
| `Editor.ExchangesPermute` | scanline.c:157 | Whatever the angle comparator makes the sort do, the points afterwards are a permutation of those before |
| `Editor.Board.constructor` | scanline.c:32-34 | Initially there are no points, every slot is zeroed and the pointer is at the origin |
| `Editor.Board.MoveMouse` | scanline.c:240 | A click stores the pointer position |
| `Editor.Board.PaintPointOnBoard` | scanline.c:107-118 | Below capacity the pointer position, with the given random tint, goes into slot `count`, `count` grows by one, and the placed positions gain the pointer at the end; on a full board nothing changes |
| `Editor.Board.ClearBoard` | scanline.c:58-63 | The count is zero and all 256 slots hold the off-screen point (-10, -10) in RAYWHITE |
| `Editor.Board.PressShiftMousePos` | scanline.c:185-201 | With shift held the pointer becomes `Snap` of itself onto the last point, sharing that point's x or y; without shift it is unchanged |
| `Editor.Board.DrawEdges` | scanline.c:124-129 | The loop paints exactly the strokes of the open chain through the placed points, in order |
| `Editor.Board.SortByAngle` | scanline.c:157 | The placed points are rearranged by the given exchanges, and the slots past `count` are untouched |
| `Editor.Board.ScanlineFill` | scanline.c:156-183 | The points are permuted in place, the count and the unused slots are kept, and the painted pixels are exactly `FillPixels` of the new order |
| `Editor.Board.FinalizaEdges` | scanline.c:204-208 | With two or more points the closing line from the last point to the first is painted; with three or more the fill follows, after the points are reordered |

## Left out

- Rendering: all raylib calls are left out. Window, buttons, text, point markers, `m_DrawPoints`, `m_DrawButton`, `m_DrawBoard` and `m_DrawPointCount` are not modelled. `DrawPixel` becomes an append to the returned pixel sequence, and the colour a pixel is painted in is not recorded.
- Input: the main loop, `m_ClickCallback` and the rectangle hit tests are not modelled. Which operation a click triggers is the caller's choice, and the pointer position is passed to `MoveMouse`.
- Editor.Board.PaintPointOnBoard: `GetRandomValue(50, 255)` becomes the `tint` parameter, which is required to have channels in 50..255 and to be opaque.
- Editor.Board.PressShiftMousePos: whether shift is held is a parameter. The method requires a placed point when shift is held. This is a defect in the program: a shift-click on an empty board (at start-up or after Clear; scanline.c:241 calls scanline.c:185-201) reads `points[-1]`, outside the array, and the model does not describe what that read yields.
- Editor.Board.SortByAngle: `m_ComparePoints` works on float `atan2f` angles around a centroid it recomputes from the array while `qsort` is rearranging it. The model takes the sequence of exchanges the sort performs as an argument, so only "some permutation of the points" is proved, not the angular order.
- Fill.SortAscending: the in-place `qsort` of the `intersections` array is modelled as a pure insertion sort with the same comparator. The fill is specified by `SortedOf`, the unique ascending permutation, and `SortedUnique` shows that any correct sort gives it; the in-place rearrangement of the array is not modelled.
- Fill.CompareIntegers: `a - b` can overflow a C `int` for far-apart values. The model subtracts without bound, which matches the source for the screen-sized coordinates the fill produces.
- Floats: point positions are `Vector2` floats. `m_DrawLine` and `m_PressShiftMousePos` truncate them to `int`. The model keeps integer positions throughout, which is exact when the stored coordinates are whole numbers.
- Fractional coordinates in the fill are not modelled. `m_ScanlineFill` reads the float coordinates untruncated in the crossing test and the interpolation (scanline.c:166-170). A fractional y can make the second conjunct at scanline.c:169 drop an edge: vertices (0, 10.0), (5, 10.5), (3, 20) give row 10 a single intersection, and the pairing loop at scanline.c:178 then reads the unset `intersections[1]`. `IntersectionCountEven` and the other fill properties hold only for integer-valued positions.
- Float rounding: the crossing x is the exact rational value truncated toward zero, so float rounding of `xIntersection` is not modelled.
- Fill widths: per-row span widths of convex polygons are not related to their exact widths. Only the bounding box, the degenerate cases and the two concrete shapes are proved.
