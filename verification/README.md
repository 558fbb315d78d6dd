# Verified models of the geometry kernel's own algorithms

The library is a CAD kernel on top of OpenCASCADE (OCC). These Dafny modules model the algorithms that are its own: the patch
walk over a guide and profile network, the bracketing of curve intersections, the polynomial conversions behind function
approximation, the sorting of curve networks, list and knot algorithms, the joining of B-splines, and the modelling history.
What OCC does is a parameter of the model (an oracle, a small datatype, or a law that an operation has to obey), `double` is
`real` and `int` is unbounded.

`dafny verify dfyconfig.toml` checks the whole project.

## Modules

| module | what it models |
|---|---|
| Wrappers, Geometry | options and results; points of space |
| PatchWalk, WalkTermination, MakeLoops, PatchGrid | the `while (true)` walk of `MakeLoops::Perform` as a state machine; why it ends; the class whose `Perform` is proved to do that walk and to fill the grid; what the walk does on every rectangular grid, open or closed in either direction |
| Boxes, MergeAdjacent, IntersectBSplines, Bezier, Legs, Flatness, SearchEnds, TurningCurve | bounding boxes; the in-place merging of list neighbours; the recursion and the sort / unique / merge / combine pipeline over abstract curves that obey a hull law and a trim law; Bezier curves with de Casteljau subdivision, which obey both; the legs of control polygons and the flatness test; when the recursion on Bezier curves ends, and a family for which this is a matter of the binary digits of a parameter |
| Sums, Binomial, Bernstein, ChebyshevToBezier | finite sums; `binom` and `factorial` with exact divisions; Bernstein polynomials and their derivatives; the two conversion matrices and the control points of a segment |
| CurveNetwork, NetworkOrder, CurveNetworkSorter | curve networks as values and what a rearrangement keeps; orders and scans; the sorter class |
| ConnectedEdges, FollowSort, LinspaceWithBreaks | grouping of edges into wires; sorting into a chain; equally spaced values with break points |
| KnotVectors, CompatibleKnots, KnotClusters | knot vectors from curve parameters; the methods that give several splines common knots; what these do with knots within a tolerance of each other |
| Concatenation, ConcatCurves, MidpointJoin, SmoothJoin, FunctionApproximation, BernsteinForm, ApproximationSpans | joining of clamped B-splines by filling arrays; the C0 form with its parameter ranges, and across gaps; the C1 form on Bezier segments; adaptive approximation of a function; the three ways to evaluate a segment, and the approximating curve segment by segment |
| TagTracks, ShapeHistory | tag tracks over runs of operations as values; shapes with shared data, their visitors, and the operation that moves the tracks |

## Main results

- **Patch walk.** The walk ends on every network whose vertices have at most two guides and two profiles, which the valence check
  in front of it enforces, so that the `continue` at lines 330-342 cannot spin (`WalkTerminates`; `MakeLoops.Looper.Perform`
  states the outcome for every network). On every R x C grid, whatever the order of the vertex map and of the edge lists, it
  starts at a corner from which the grid looks the same and returns all patches in row-major order, each exactly once, with
  status OK, except on grids with closed profiles of a single edge (unless there is also just one row, with closed guides):
  there it stops with a missing first edge after one patch. `WalkOnGrid` states both cases for all grids. On no network does
  `Perform` return the status for a missing second or third edge (`OnlySomeFailures`).
- **Intersection candidates.** Every pair of parameters whose points are closer than the tolerance lies in the ranges of a final
  candidate pair, through recursion, sorting, deduplication, merging and recombination (`NoIntersectionLost`). Conversely boxes
  intersect if and only if they hold points closer than the tolerance in each coordinate (`IntersectsIffNear`), so that every
  final candidate holds such points and curves apart from each other have none (`CandidatesAreNear`, `FarCurvesMeetNothing`). The ranges of one
  curve are equal or do not overlap across all branches, so that merging leaves a sorted list with gaps and the same union
  (`CandidateRanges`). For Bezier curves a near pair is found if and only if neither curve is a point: a curve of length zero
  makes the flatness quotient undefined and ends the search with nothing (`BezierIntersections`). The recursion has no bound.
  It ends if and only if after some number of rounds all curves that are left run forward in some direction or are not bent
  (`EndsIfSettles`). Two curves whose control polygons run forward end it at a depth computed from their poles, and
  lose no near pair (`RunningIntersections`). On a curve that turns back at s of its way, crossed there, it ends if and only if
  for some m the fractional part of 2^m * s is at most 1/2 - 1/2.001 from 0 or 1 (`TurningEnds`); at two thirds it never does
  (`TurningCurve.SearchNeverEnds`).
- **Polynomials.** Chebyshev to monomial to Bernstein coefficients keeps the polynomial, for every size and argument
  (`ConversionKeepsPolynomial`); `bernstein_poly_deriv` is the k-th formal derivative for all k, clamped range included
  (`BernsteinPolyDeriv`), and every division on the way is exact. De Boor's algorithm, de Casteljau's scheme and the Bernstein
  sum of a segment agree (`DeBoorIsBernstein`), so that the approximating curve is known on every segment: the Chebyshev sum
  of that segment plus the moves of its two ends times (1-t)^n and t^n (`ApproximationOnSegment`).
- **Network sorting.** Every step keeps the curves meeting at their recorded parameters; the result is a permutation with each
  curve reversed at most once, as its name says (`NamesTell`), and no other than the first profile and guide runs against its ends. For all
  parameters up to `DBL_MAX` the first row ascends; the first column ascends if and only if the first guide was not reversed, or an
  entry of it exceeds `DBL_MIN`, or its first entry is its maximum (`CurveNetworkSorter.Sorter.Perform`). If a hidden order exists,
  a start is always found and all rows are strictly ascending, and all columns are under that same condition
  (`CurveNetworkSorter.SortNetwork`), which can fail for parameters below zero (`OrderIsNotBroughtOut`).
- **Lists.** Edges are grouped into exactly the connected components (`GroupConnectedEdges`), where two edges touch if and only if
  some end of one is nearer than the confusion distance to some end of the other (`TouchingEnds`, `NearByDistance`); a polyline is
  always a single group (`PolylineIsOneGroup`). `follow_sort` ends, permutes, and
  for unambiguous elements succeeds if and only if they form a chain (`FollowSort.Sort`). `LinspaceWithBreaks` takes in all
  breaks that are more than 0.8 steps apart, and 0.8 is the least such bound (`SpacingThatIsEnough`). Of breaks more than 0.3
  steps apart one is lost if and only if no earlier one is within half a step of it and every original value that near has
  made way for an earlier one: the second search, whose result is not checked, then comes up empty (`BreakIsLost`).
- **Knots.** Averaged knots satisfy the Schoenberg-Whitney condition; periodic knots ascend, repeat after a period and, for even
  degree, alternate with the shifted parameters. After the two insertion passes of `makeGeometryCompatibleImpl` the splines have
  equally many knots, and its last exception is not thrown, if and only if for each spline the gathered knots that are close to
  one of its knots are as many as it has inside (`NumbersAgree`). That is so wherever closeness within the adjusted tolerance is transitive and the ends are
  close in this sense: interior knots then pair up across the splines, and each pair has the highest multiplicity of its
  cluster (`BecomeCompatible`). Two splines with steps above twice the tolerance are such a case (`TwoSplines`), and so are knots
  that are equal or not close, which become equal (`KnotsApartBecomeEqual`). In general the exception can be thrown
  (`ChainOfKnotsFails`, `HalfwayKnotFails`, `EndsApartFail`).
- **Joining.** Both array-filling loops write every slot once and in bounds, and give valid clamped B-splines (but for
  the C1 form of several curves at degree 1). The C0 form keeps,
  on every span, the polynomial of the curve it came from, in the sense of de Boor's algorithm (`ConcatKeepsCurves`),
  and without lengths every curve is only shifted in its parameter (`ConcatShiftsCurves`); where
  curves do not meet exactly, a curve is kept if and only if its ends already are at the averaged joints
  (`MidpointJoinKeepsCurve`). The C1 form drops the poles at the joints; it leaves a segment unchanged if and only if the ends
  of the segment already lie where the neighbouring poles and knots put them (`SmoothJoinKeepsSegment`). The segments of an
  adaptive approximation are the only partition into ranges that are good enough or smallest and whose larger ranges are not
  good enough (`SegmentsAreLeaves`, `OnlyPartition`).
- **History.** A tag track for n operations is evaluated by an operation once for every way of 1 to n operations that leads there
  and never for a longer one, wherever and whenever it was added (`Evaluations`), and sets its tag just as often on every part of the
  result that it accepts (`TagsOfOperation`); every run of operations, new results or earlier
  shapes as results, carries exactly these tracks (`ShapeHistory.Value`); `is_descendent_of` is true exactly if at most
  `max_depth` origin links lead to a same shape.

## Findings about the code

- src/contrib/MakeLoops.cxx:417-430: the comment on closed profiles does not mention profiles of one edge; `NextStartCorner` is
  then still unset when the row closes, and the walk stops with a missing first edge (`PatchGrid.WalkFails`, `PatchGrid.WalkOnGrid`).
- src/contrib/MakeLoops.cxx:569-572: the statuses for a missing second and third edge, which MakeLoops.hxx:31-32 documents, are set
  only while there are no cells, when the row length is 0 and `MAKELOOPS_FAIL` overwrites them. They are never returned
  (`PatchWalk.OnlySomeFailures`, `MakeLoops.Looper.Perform`).
- src/math/IntersectBSplines.cpp:154-220: the recursion has no bound. On a curve that turns back, crossed by a segment just where it
  turns, one of the halves can be bent again and again (`TurningCurve.TurningEnds`, `TurningCurve.SearchNeverEnds`). In exact
  arithmetic it then never ends; in `double` the halves shrink to nothing after some fifty rounds, and what `trimCurve`
  makes of an empty range is decided inside OCC.
- src/math/IntersectBSplines.cpp:120-135: the flatness of a curve whose poles coincide is zero divided by zero, and all
  intersections with it are lost (`Bezier.BezierIntersections`).
- src/geometry/curve-networks/CurveNetworkSorter.cpp:29-59: the scans for a maximum begin at `DBL_MIN`, the least positive normal
  number, not at the least number (`NetworkOrder.ArgMaxIsMaximum`). With parameters below zero the first column can end out of order
  (`CurveNetworkSorter.NegativeParametersFail`, `CurveNetworkSorter.OrderIsNotBroughtOut`).
- src/geometry/BSplineAlgorithms.cpp:274-276: the exception after the second pass is not out of reach: chains of close knots, a knot
  at just the tolerance from two others, and ends that differ by more than the adjusted tolerance lead to it
  (`KnotClusters.ChainOfKnotsFails`, `KnotClusters.HalfwayKnotFails`, `KnotClusters.EndsApartFail`).
- src/geometry/BSplineAlgorithms.cpp:360-364: `knotsFromCurveParameters` refuses fewer than two parameters, but not as many as the
  degree: the only inner knot is then set twice, and all knots are the last parameter (`KnotVectors.TooFewParametersCollapse`).
- src/common/CommonFunctions.cpp:1733-1741: `LinspaceWithBreaks` dereferences the result of its second `find_if` without a check
  (`LinspaceWithBreaks.GapTooWide`, `LinspaceWithBreaks.BreakIsLost`).
- src/common/CommonFunctions.cpp:1727-1731: a break replaces an earlier one within 0.3 steps, even across an original value, so that
  close breaks can leave a result that is not sorted (`LinspaceWithBreaks.CloseBreaksReplace`).
- src/geometry/CFunctionToBspline.cpp:307-331: at degree 1, `concatC1` gives its joints multiplicity 0, so that several segments make
  no valid B-spline (`Concatenation.JoinedIsValid`, `FunctionApproximation.ApproximationIsValid`).
- src/geometry/CFunctionToBspline.cpp:338-340: `concatC1` builds its result without weights, which is right if and only if all
  those it takes over are 1 (`Concatenation.WeightsAreKept`). Its only caller passes curves that are not rational
  (`Concatenation.NonRationalKeepsWeights`).
- src/geometry/CFunctionToBspline.cpp:272-341: that the concatenation keeps its curves needs the joint condition above
  (`SmoothJoin.SmoothJoinKeepsSegment`). A function with a kink is an example: both expansions meet it exactly, and the joined curve
  misses it at the kink (`ApproximationSpans.RampIsExact`, `ApproximationSpans.RampIsMissed`).
- src/geometry/BSplineAlgorithms.cpp:1085-1097: averaging poles and weights at the joints changes the curves, as the comment there
  suspects; exactly when (`MidpointJoin.MidpointJoinKeepsCurve`), and for any gap between two straight curves
  (`MidpointJoin.GapIsNotKept`).

## Model

| member | source | states |
|---|---|---|
| PatchWalk.FirstMatch | src/contrib/MakeLoops.cxx:299-313 | a found edge is listed at the corner, of the kind asked for and with the corner at the right end; none is found only if there is none |
| PatchWalk.StepStays | src/contrib/MakeLoops.cxx:274-520 | one turn of the loop inside a row: the cell is appended, the corner moves to the end of the first edge, and the start of the next row is remembered if the row begins here |
| PatchWalk.StepCloses | src/contrib/MakeLoops.cxx:427-430 | one turn that closes a profile: the walk goes on with the next row, and the row length is fixed if it was the first |
| PatchWalk.StepWithoutFirst | src/contrib/MakeLoops.cxx:330-342 | one turn without a first edge: the walk goes on with the next row if one is known, and else stops with that failure |
| PatchWalk.StepStops | src/contrib/MakeLoops.cxx:390-555 | one turn that finds a part of a patch only: which edge is missing decides the status, as long as there are no cells; with cells the walk ends with status OK, unless the fourth edge does not lead back to the first |
| PatchWalk.StepIsSound | src/contrib/MakeLoops.cxx:274-567 | every turn keeps: all cells but a rejected last one are closed loops of two profile and two guide edges |
| PatchWalk.CellsAreLoops | src/contrib/MakeLoops.cxx:274-567 | the same for whole runs on any network, of whatever length |
| PatchWalk.OnlySomeFailures | src/contrib/MakeLoops.cxx:274-572 | a walk that ends with a row length never reports a missing second or third edge, and a failed fourth edge only if its last cell does not close |
| WalkTermination.ThreeEnds | src/contrib/MakeLoops.cxx:117-122 | after the valence check no vertex has three different edges of one kind |
| WalkTermination.RowStartFound | src/contrib/MakeLoops.cxx:477-485 | the last two edges of a patch lead to a vertex from which the next row can be begun, and back only to where this row began |
| WalkTermination.TrackStays | src/contrib/MakeLoops.cxx:345-520 | a turn inside a row lengthens the chain of distinct vertices walked in this row |
| WalkTermination.TrackCloses | src/contrib/MakeLoops.cxx:557-566 | a turn that closes a row lengthens the chain of distinct row starts |
| WalkTermination.AdvanceStep | src/contrib/MakeLoops.cxx:274-567 | every turn that does not stop lowers a natural number |
| WalkTermination.WalkTerminates | src/contrib/MakeLoops.cxx:274-567 | the walk ends on every network that passes the valence check, from every corner that has an edge of each kind to leave by |
| WalkTermination.WalkedOnce | src/contrib/MakeLoops.cxx:274-567 | the outcome of a finished walk does not depend on how many turns one allows |
| MakeLoops.Looper.FindEdge | src/contrib/MakeLoops.cxx:297-313 | the search loop returns the first fitting edge of the list |
| MakeLoops.Looper.CheckValence | src/contrib/MakeLoops.cxx:104-122 | the check passes if and only if no vertex has more than two edges of a kind |
| MakeLoops.Looper.MinExtent | src/contrib/MakeLoops.cxx:145-152 | the least number of edges at a vertex |
| MakeLoops.Looper.FindStartCorner | src/contrib/MakeLoops.cxx:175-215 | the first vertex in map order with the least number of edges that a profile and another edge leave; none only if there is no such vertex |
| MakeLoops.StartCornerUnique | src/contrib/MakeLoops.cxx:178-211 | the map order determines the start corner |
| MakeLoops.Looper.WalkPatches | src/contrib/MakeLoops.cxx:259-567 | the loop over the corner variables ends in the cells, row length and status of the walk as a state machine |
| MakeLoops.Looper.FillRows | src/contrib/MakeLoops.cxx:576-587 | running indices put cell number i * RowLength + j at (i, j); an index leaves its range if and only if cells are left over |
| MakeLoops.Looper.FillGrid | src/contrib/MakeLoops.cxx:569-587 | the grid holds the cells row by row; all writes are in range if and only if the row length divides their number |
| MakeLoops.Looper.Perform | src/contrib/MakeLoops.cxx:82-588 | for every network: no vertices, overloaded vertices and a missing start corner give their error and leave the cells; otherwise cells, status and grid are those of the walk from the start corner; the statuses for a missing second or third edge are never returned |
| PatchGrid.StepInRow | src/contrib/MakeLoops.cxx:274-520 | on a grid, a turn at vertex (i, j) moves to (i, j + 1) with one more patch |
| PatchGrid.StepAfterOpenRow | src/contrib/MakeLoops.cxx:330-342 | at the end of an open row the walk goes to the start of the next one |
| PatchGrid.StepLastOfClosedRow | src/contrib/MakeLoops.cxx:427-430 | the last patch of a closed row leads to the start of the next one |
| PatchGrid.StepAfterLastRow | src/contrib/MakeLoops.cxx:280-283 | after the last row the walk stops with status OK, with closed guides because it is back at the start |
| PatchGrid.WalkRows | src/contrib/MakeLoops.cxx:274-567 | from row i on, the walk returns all patches in row-major order |
| PatchGrid.WalkFails | src/contrib/MakeLoops.cxx:330-334 | a closed profile of one edge stops the walk after one patch with a missing first edge |
| PatchGrid.RotatedDescribes | src/contrib/MakeLoops.cxx:175-215 | a grid that is closed in a direction looks the same from every vertex in that direction |
| PatchGrid.CornerOfGrid | src/contrib/MakeLoops.cxx:186-206 | a grid vertex has outgoing edges of both kinds if and only if it is the lower corner of a patch |
| PatchGrid.StartOfGrid | src/contrib/MakeLoops.cxx:175-215 | the start corner of a grid is a vertex from which the grid can be seen as starting at (0, 0) |
| PatchGrid.ValenceOfGrid | src/contrib/MakeLoops.cxx:104-122 | grids pass the valence check |
| PatchGrid.WalkOnGrid | src/contrib/MakeLoops.cxx:82-588 | on every grid the walk returns all patches row by row with status OK, or fails with a missing first edge if profiles are closed with one edge and the grid is not a single row of closed guides |
| PatchGrid.EveryPatchOnce | src/contrib/MakeLoops.cxx:512-520 | there are R * C cells, and every patch is exactly one of them |
| PatchGrid.CutGrid | src/contrib/MakeLoops.cxx:573-587 | entry (i, j) of the grid is the patch (i, j) counted from the start corner |
| Boxes.NearBoxesIntersect | src/math/IntersectBSplines.cpp:101-106 | boxes around two points that are closer than eps in each coordinate intersect |
| Boxes.IntersectsIffNear | src/math/IntersectBSplines.cpp:101-106 | proper boxes intersect if and only if they hold two points that are closer than eps in each coordinate |
| Boxes.FarApartIsPruned | src/math/IntersectBSplines.cpp:159-162 | boxes that are at least eps apart along some axis do not intersect |
| Boxes.UniqueOfSorted | src/math/IntersectBSplines.cpp:335-341 | sorted ranges that are equal or apart become ascending, and none is lost |
| Boxes.UniqueDropsRepeats | src/math/IntersectBSplines.cpp:118-121 | of any list, no two neighbours with both ends in common are left, and nothing is dropped if there are none; boxes play no role |
| MergeAdjacent.MutableList.ReplaceAdjacentWithMerged | src/common/CommonFunctions.h:442-461 | erasing and inserting while iterating computes the left-to-right merge of the list |
| MergeAdjacent.MergeLeavesNoneAdjacent | src/common/CommonFunctions.h:442-461 | if merging keeps the left neighbourhood of its first argument, no two neighbours of the result are adjacent |
| MergeAdjacent.MergeIsIdempotent | src/common/CommonFunctions.h:442-461 | merging a second time changes nothing |
| IntersectBSplines.BoundingBox.constructor | src/math/IntersectBSplines.cpp:88-99 | starting from the extreme numbers, the loop ends with the box of the poles |
| IntersectBSplines.BoundingBox.Merge | src/math/IntersectBSplines.cpp:108-116 | the box grows to the hull of both, over the joint range |
| IntersectBSplines.HullOfPoles | src/math/IntersectBSplines.cpp:88-99 | the box holds all poles, each of its six faces has a pole on it, and it lies in every box that holds the poles |
| IntersectBSplines.LeavesSeparate | src/math/IntersectBSplines.cpp:164-217 | two boxes at which the bisection of one curve stops are equal or one lies before the other |
| IntersectBSplines.RangesAreLeaves | src/math/IntersectBSplines.cpp:154-220 | reported boxes are those at which each curve by itself is first flat enough, and the boxes of a reported pair intersect |
| IntersectBSplines.RangesSeparate | src/math/IntersectBSplines.cpp:164-217 | the ranges reported for one curve are equal or do not overlap, across all branches |
| IntersectBSplines.DeeperIsSame | src/math/IntersectBSplines.cpp:154-220 | a recursion that ends within some depth gives the same ranges for every greater one |
| IntersectBSplines.NearPairBracketed | src/math/IntersectBSplines.cpp:154-220 | a recursion that ends brackets every pair of near points of curves that obey the hull and trim laws |
| IntersectBSplines.DegenerateMeetsNothing | src/math/IntersectBSplines.cpp:164-219 | a curve without a flatness quotient ends the search with nothing |
| IntersectBSplines.MergedRangesOfSeparate | src/math/IntersectBSplines.cpp:335-355 | sort, unique and merge give ranges with strict gaps, the same union, and every box inside a merged one |
| IntersectBSplines.CleanUp | src/math/IntersectBSplines.cpp:335-355 | the list is sorted, deduplicated and merged in place |
| IntersectBSplines.SplitBoxes | src/math/IntersectBSplines.cpp:325-329 | the boxes of each curve, in order |
| IntersectBSplines.Combine | src/math/IntersectBSplines.cpp:357-365 | exactly the intersecting pairs, in order |
| IntersectBSplines.IntersectionCandidates | src/math/IntersectBSplines.cpp:321-365 | where the recursion ends within the depth, the whole pipeline computes the final candidates of the bracketed ranges |
| IntersectBSplines.CandidateRanges | src/math/IntersectBSplines.cpp:331-355 | the cleaned lists of both curves have strict gaps and the union of the reported ranges |
| IntersectBSplines.MergedRangeIsTight | src/math/IntersectBSplines.cpp:335-355 | merging keeps the boxes tight: a face of a merged box is a face of one of the reported ones |
| IntersectBSplines.CandidatesAreNear | src/math/IntersectBSplines.cpp:357-365 | both boxes of a final candidate hold points that are closer than the tolerance in each coordinate |
| IntersectBSplines.CandidatesAreAllNear | src/math/IntersectBSplines.cpp:331-365 | of the cleaned lists, a pair is a final candidate if and only if it holds two such points |
| IntersectBSplines.FarCurvesMeetNothing | src/math/IntersectBSplines.cpp:154-162 | curves whose poles are at least the tolerance apart along some axis have no candidates |
| IntersectBSplines.NoIntersectionLost | src/math/IntersectBSplines.cpp:321-365 | where the recursion ends, every near pair of curves that obey the laws lies in the ranges of a final candidate |
| Bezier.BlendOfSub | src/math/IntersectBSplines.cpp:178-182 | de Casteljau subdivision gives the same polynomial on the part |
| Bezier.BlendInHull | src/math/IntersectBSplines.cpp:88-99 | a Bezier polynomial stays between its least and greatest coefficient |
| Bezier.ConstantPart | src/math/IntersectBSplines.cpp:120-135 | a part is a point only if the whole curve is |
| Bezier.BezierIsLawful | src/math/IntersectBSplines.cpp:85-106 | Bezier curves obey the hull and trim laws |
| Bezier.BezierIsRegular | src/math/IntersectBSplines.cpp:120-135 | no part of a Bezier curve that is not a point has an undefined flatness |
| Bezier.BezierIntersections | src/math/IntersectBSplines.cpp:321-365 | a near pair of two Bezier curves is among the candidates if and only if neither curve is a point |
| Legs.DifferencesOfSub | src/math/IntersectBSplines.cpp:178-182 | the legs of a part of a Bezier curve are the part of the legs, scaled by the width |
| Flatness.MeasuringSeesPoints | src/math/IntersectBSplines.cpp:120-135 | a curve whose flatness is polygon length by chord has none if and only if it is a point |
| Flatness.FlatPolygon | src/math/IntersectBSplines.cpp:122-135 | a polygon whose legs advance in a direction and differ little in comparison is flat enough |
| IntersectBSplines.BisectionsEndRanges | src/math/IntersectBSplines.cpp:154-220 | where the bisection of each curve by itself ends within a depth, the recursion on both does |
| SearchEnds.RunningEnds | src/math/IntersectBSplines.cpp:164-217 | the bisection of a curve whose polygon runs forward in some direction ends within a number of halvings computed from its poles |
| SearchEnds.RunningSearchEnds | src/math/IntersectBSplines.cpp:154-220 | so does the recursion on two such curves, at any tolerance |
| SearchEnds.RunningIntersections | src/math/IntersectBSplines.cpp:321-365 | at that depth every near pair of two such curves is among the candidates |
| SearchEnds.EndsIfSettles | src/math/IntersectBSplines.cpp:154-220 | the recursion on two Bezier curves ends if and only if after some number of rounds all curves that are left run forward or are not bent |
| SearchEnds.SettledIntersections | src/math/IntersectBSplines.cpp:321-365 | where it ends, a near pair is found if and only if neither curve is a point |
| TurningCurve.TurningShape | src/math/IntersectBSplines.cpp:122-135 | a quadratic curve along a line that turns at s of its way is flat if and only if s is at most 1/2 - 1/2.001 from 0 or 1 |
| TurningCurve.HalfTurns | src/math/IntersectBSplines.cpp:206-210 | the half in which it turns does so at 2s or 2s - 1 of its way, at the same value |
| TurningCurve.TurningEndsWithin | src/math/IntersectBSplines.cpp:154-220 | crossed there by a segment, a depth is enough if and only if for some m up to it the fractional part of 2^m * s is that near to 0 or 1 |
| TurningCurve.TurningEnds | src/math/IntersectBSplines.cpp:154-220 | so the recursion ends if and only if that is so for some m |
| TurningCurve.SearchNeverEnds | src/math/IntersectBSplines.cpp:154-220 | for the coefficients 0, 1, 1/2, which turn at two thirds, no depth is enough, although the curves meet |
| Binomial.ChooseAbsorbs | src/math/MathFunctions.cpp:55-58 | (k+1) C(n+1, k+1) == (n+1) C(n, k) |
| Binomial.ExactStep | src/math/MathFunctions.cpp:55-58 | the running product is divisible at every step, and the quotient is the next coefficient |
| Binomial.Binom | src/math/MathFunctions.cpp:43-61 | the loop with its reflection computes the binomial coefficient of Pascal's triangle |
| Binomial.FactorialOf | src/math/MathFunctions.cpp:66-76 | the loop computes n! |
| Binomial.ChooseByFactorials | src/math/MathFunctions.cpp:66-76 | n! is the binomial coefficient times k! times (n - k)! |
| Sums.PowInt | src/math/MathFunctions.cpp:81-91 | the loop computes x^n |
| Bernstein.BernsteinPoly | src/math/MathFunctions.cpp:97-101 | the value of the Bernstein polynomial |
| Bernstein.BernRecursion | src/math/MathFunctions.cpp:97-101 | B(i,n) = (1-x) B(i,n-1) + x B(i-1,n-1), also outside 0..n |
| Bernstein.EvalBernstein | src/math/MathFunctions.cpp:97-101 | the polynomial with the alternating monomial coefficients takes the Bernstein values |
| Bernstein.DerivOfBernstein | src/math/MathFunctions.cpp:107-110 | the formal derivative of B(i,n) is n (B(i-1,n-1) - B(i,n-1)) |
| Bernstein.EvalDerivN | src/math/MathFunctions.cpp:107-110 | the k-th formal derivative is n!/(n-k)! times an alternating sum of Bernstein polynomials |
| Bernstein.AlternatingIsSum | src/math/MathFunctions.cpp:125-128 | k-fold differences are the sum with binomial weights and alternating signs |
| Bernstein.ClampedSum | src/math/MathFunctions.cpp:122-128 | the loop over the clamped range computes the full alternating sum |
| Bernstein.FallingQuotient | src/math/MathFunctions.cpp:129 | n!/(n-k)! is an exact integer division |
| Bernstein.BernsteinPolyDeriv | src/math/MathFunctions.cpp:111-131 | the result is the value of the k-th formal derivative of B(i,n), for all k |
| ChebyshevToBezier.ChebColumn | src/math/MathFunctions.cpp:309-329 | column j holds the monomial coefficients of T_j(2x-1) |
| ChebyshevToBezier.BezierColumn | src/math/MathFunctions.cpp:338-351 | column j holds the Bernstein coefficients of x^j |
| ChebyshevToBezier.ConversionColumn | src/geometry/CFunctionToBspline.cpp:211 | column j of the product holds the Bernstein coefficients of T_j(2x-1) |
| ChebyshevToBezier.ConversionKeepsPolynomial | src/geometry/CFunctionToBspline.cpp:210-223 | the control points blend to the Chebyshev sum, for every size, coefficients and argument |
| ChebyshevToBezier.ChebToMonomial | src/math/MathFunctions.cpp:309-329 | the column loops fill the matrix of shifted Chebyshev coefficients, zeros included |
| ChebyshevToBezier.MonomialToBezier | src/math/MathFunctions.cpp:338-351 | the loops fill the matrix of quotients of binomial coefficients |
| ChebyshevToBezier.MatrixTimesVector | src/geometry/CFunctionToBspline.cpp:221-223 | row by row the product of matrix and coefficients |
| ChebyshevToBezier.SegmentPoles | src/geometry/CFunctionToBspline.cpp:210-236 | inner control points from the conversion, end points from the function |
| ChebyshevToBezier.SegmentCurve | src/geometry/CFunctionToBspline.cpp:231-236 | setting the ends changes the expansion by the two end moves times (1-x)^n and x^n, and by nothing else |
| ChebyshevToBezier.SegmentMeetsEnds | src/geometry/CFunctionToBspline.cpp:231-236 | a segment starts at its first and ends at its last control point |
| CurveNetwork.SwapProfilesKeeps | src/geometry/curve-networks/CurveNetworkSorter.cpp:148-158 | swapping two profiles keeps the network a recorded rearrangement of the input |
| CurveNetwork.SwapGuidesKeeps | src/geometry/curve-networks/CurveNetworkSorter.cpp:160-170 | the same for guides |
| CurveNetwork.ReverseProfileKeeps | src/geometry/curve-networks/CurveNetworkSorter.cpp:285-309 | reversing a profile that was not reversed keeps it so, with parameters reflected about first + last |
| CurveNetwork.ReverseGuideKeeps | src/geometry/curve-networks/CurveNetworkSorter.cpp:311-335 | the same for guides |
| CurveNetwork.RearrangedMeets | src/geometry/curve-networks/CurveNetworkSorter.cpp:207-263 | profiles and guides that met at their recorded parameters meet at the rearranged ones |
| NetworkOrder.ArgMinIsMinimum | src/geometry/curve-networks/CurveNetworkSorter.cpp:62-91 | the scan from `DBL_MAX` finds a minimum of entries that do not exceed it |
| NetworkOrder.ArgMaxIsMaximum | src/geometry/curve-networks/CurveNetworkSorter.cpp:30-59 | the scan from `DBL_MIN` finds a maximum if and only if an entry exceeds `DBL_MIN` or entry 0 is a maximum; otherwise it gives 0 |
| NetworkOrder.OrderedNetworkStarts | src/geometry/curve-networks/CurveNetworkSorter.cpp:172-205 | with a hidden order of guides and profiles the start curves are always found, for all parameters up to `DBL_MAX` |
| NetworkOrder.OrderSurvives | src/geometry/curve-networks/CurveNetworkSorter.cpp:207-263 | a rearrangement keeps the hidden order |
| NetworkOrder.ProfilesBringOutOrder | src/geometry/curve-networks/CurveNetworkSorter.cpp:207-263 | in a rearranged network with a hidden order, every row strictly ascends if the first row is in order and the others have their ends in order |
| NetworkOrder.GuidesBringOutOrder | src/geometry/curve-networks/CurveNetworkSorter.cpp:207-263 | the same for the columns |
| CurveNetworkSorter.MinIndex | src/geometry/curve-networks/CurveNetworkSorter.cpp:61-91 | the loop returns the result of the scan for a minimum |
| CurveNetworkSorter.MaxIndex | src/geometry/curve-networks/CurveNetworkSorter.cpp:29-59 | the loop returns the result of the scan for a maximum |
| CurveNetworkSorter.CreateSorter | src/geometry/curve-networks/CurveNetworkSorter.cpp:98-146 | construction succeeds if and only if both matrices have the size of the network; names are the indices; otherwise the error is that of the first size that does not fit |
| CurveNetworkSorter.DecimalIsNumeral | src/geometry/curve-networks/CurveNetworkSorter.cpp:134-146 | a name consists of digits without leading zeros and reads as the index |
| CurveNetworkSorter.NamesTell | src/geometry/curve-networks/CurveNetworkSorter.cpp:134-146 | after sorting, the name of a profile begins with a minus sign if and only if the profile was reversed, and the rest reads as its old index |
| CurveNetworkSorter.GuideNamesTell | src/geometry/curve-networks/CurveNetworkSorter.cpp:134-146 | the same for the guides |
| CurveNetworkSorter.Sorter.SwapProfiles | src/geometry/curve-networks/CurveNetworkSorter.cpp:148-158 | curves, names and both matrices are exchanged in step |
| CurveNetworkSorter.Sorter.SwapGuides | src/geometry/curve-networks/CurveNetworkSorter.cpp:160-170 | the same for guides and columns |
| CurveNetworkSorter.Sorter.ReverseProfile | src/geometry/curve-networks/CurveNetworkSorter.cpp:285-309 | one curve object, its row and its name are reversed in step, about first + last of the curve or, if it is missing, the ends that the scans find on its row |
| CurveNetworkSorter.Sorter.ReverseGuide | src/geometry/curve-networks/CurveNetworkSorter.cpp:311-335 | the same for a guide and its column |
| CurveNetworkSorter.EndsChangePlaces | src/geometry/curve-networks/CurveNetworkSorter.cpp:285-309 | for a missing curve, the least and the greatest parameter change places if the scan for a maximum finds one, and otherwise the parameters leave their range |
| CurveNetworkSorter.Sorter.GetStartCurveIndices | src/geometry/curve-networks/CurveNetworkSorter.cpp:172-205 | succeeds if and only if a profile starts where a guide starts or, failing that, ends, and then returns such a pair |
| CurveNetworkSorter.BubbleStep | src/geometry/curve-networks/CurveNetworkSorter.cpp:230-236 | an exchange of the bubble sort keeps its invariants |
| CurveNetworkSorter.StartIsUnique | src/geometry/curve-networks/CurveNetworkSorter.cpp:172-205 | a network has at most one start |
| CurveNetworkSorter.StartIsExtreme | src/geometry/curve-networks/CurveNetworkSorter.cpp:172-205 | the start is least in its row, and extreme in its column if and only if its guide need not be reversed or the scan can find the maximum there |
| CurveNetworkSorter.Sorter.Perform | src/geometry/curve-networks/CurveNetworkSorter.cpp:207-263 | a second call changes nothing; a failure changes nothing; success is a recorded rearrangement from the start, in which row 0 and column 0 are in order exactly if the start is extreme there, and no other curve runs against its ends; so row 0 is in order for all parameters up to `DBL_MAX`, and column 0 if and only if the first guide is not reversed or its maximum can be found |
| CurveNetworkSorter.SortNetwork | src/geometry/curve-networks/CurveNetworkSorter.cpp:172-263 | with a hidden order it never fails, all rows end strictly ascending, the curves still meet, and all columns end strictly ascending if and only if the first guide is not reversed or its maximum can be found |
| CurveNetworkSorter.NegativeParametersFail | src/geometry/curve-networks/CurveNetworkSorter.cpp:187-263 | parameters below zero for which guide 0 is reversed although profile 0 is not at its end; whatever satisfies the specification of sorting then has column 0 out of order |
| CurveNetworkSorter.OrderIsNotBroughtOut | src/geometry/curve-networks/CurveNetworkSorter.cpp:187-263 | the same for a network with a hidden order |
| ConnectedEdges.CommonVertexIsSymmetric | src/common/CommonFunctions.cpp:1496-1511 | touching does not depend on the order of the edges |
| ConnectedEdges.TouchingEnds | src/common/CommonFunctions.cpp:1496-1511 | edges touch if and only if some end of one is near some end of the other |
| ConnectedEdges.NearByDistance | src/common/CommonFunctions.cpp:1507-1510 | points are near if and only if their distance is below the confusion distance |
| ConnectedEdges.TurnedTouches | src/common/CommonFunctions.cpp:1496-1511 | the direction of an edge does not matter |
| ConnectedEdges.FindConnected | src/common/CommonFunctions.cpp:1472-1481 | the first edge of the list that touches the given one, or none |
| ConnectedEdges.SplitIsByReach | src/common/CommonFunctions.cpp:1460-1494 | once nothing in the rest touches what was moved, moved and rest are what can and what cannot be reached |
| ConnectedEdges.ReachSplitIsApart | src/common/CommonFunctions.cpp:1488 | after the recursive call nothing in the rest touches what the call moved |
| ConnectedEdges.SplitGrows | src/common/CommonFunctions.cpp:1482-1489 | one round, with its recursive call, keeps the split |
| ConnectedEdges.FindAllConnectedEdges | src/common/CommonFunctions.cpp:1460-1494 | no edge is lost or doubled, and exactly the edges that a path within the list joins to the given one move over |
| ConnectedEdges.GroupsAreComponents | src/common/CommonFunctions.cpp:1149-1179 | groups that nothing later touches are closed under paths |
| ConnectedEdges.GroupConnectedEdges | src/common/CommonFunctions.cpp:1149-1166 | the groups are a partition of the edges, and a path joins two edges if and only if they are in one group |
| ConnectedEdges.PolylineIsOneGroup | src/common/CommonFunctions.cpp:1132-1166 | the edges of a polyline, in any order and direction, form a single group |
| ConnectedEdges.ApartIsAlone | src/common/CommonFunctions.cpp:1149-1166 | an edge that touches no other one is alone in its group |
| Geometry.DistanceLaws | src/common/CommonFunctions.cpp:1507-1510 | the distance between points obeys Pythagoras, does not change when both move, and along an axis is the difference of the coordinates |
| FollowSort.RotateRight | src/common/sorting.h:26-31 | successive swaps with the last element rotate the range by one |
| FollowSort.CanBeExtended | src/common/sorting.h:43-57 | while unambiguous elements of one chain are left over, one of them fits an end of the sorted part |
| FollowSort.ExtendedChain | src/common/sorting.h:47-56 | a fitting element, swapped in and rotated to the front if need be, lengthens the chain |
| FollowSort.Outcome | src/common/sorting.h:60-62 | a stuck sorted part is everything if and only if the elements form a chain |
| FollowSort.Sort | src/common/sorting.h:37-64 | ends on every array, permutes, succeeds only with a chain, and for distinct unambiguous elements succeeds if and only if there is one |
| LinspaceWithBreaks.FindIf | src/common/CommonFunctions.cpp:1727-1734 | index of the first value within the tolerance |
| LinspaceWithBreaks.InsideIsWithin | src/common/CommonFunctions.h:59-74 | the values inside the tolerance are those of an interval, ends included |
| LinspaceWithBreaks.BetweenEndsAt | src/common/CommonFunctions.cpp:1714-1719 | the equally spaced values run from umin to umax |
| LinspaceWithBreaks.Perform | src/common/CommonFunctions.cpp:1712-1746 | the loops compute the insertion of all breaks one after the other, or reach the end iterator |
| LinspaceWithBreaks.SpacedIsNotBlocked | src/common/CommonFunctions.cpp:1733-1734 | a break in range and more than 0.8 steps from those before is not blocked |
| LinspaceWithBreaks.ReplacedRefines | src/common/CommonFunctions.cpp:1728-1731 | replacing a close value keeps order, origin and coverage |
| LinspaceWithBreaks.InsertKeepsRefines | src/common/CommonFunctions.cpp:1725-1743 | a break more than 0.3 steps from those before is lost if and only if it is blocked; otherwise it keeps them, whether it replaces or is inserted |
| LinspaceWithBreaks.BreakIsLost | src/common/CommonFunctions.cpp:1721-1743 | for breaks more than 0.3 steps apart, in range or not, the second search fails if and only if some break is blocked: no earlier break within half a step, and every original value that near replaced |
| LinspaceWithBreaks.ContainsEveryBreak | src/common/CommonFunctions.cpp:1712-1746 | breaks in range and more than 0.8 steps apart, in any order, all get in; the result is strictly sorted, and the original values without a close break are still there |
| LinspaceWithBreaks.GapTooWide | src/common/CommonFunctions.cpp:1733-1741 | breaks exactly 0.8 steps apart for which the second search fails |
| LinspaceWithBreaks.SpacingThatIsEnough | src/common/CommonFunctions.cpp:1712-1746 | a spacing is enough for every input if and only if it is at least 0.8 steps |
| LinspaceWithBreaks.BreakSurvives | src/common/CommonFunctions.cpp:1725-1743 | for any breaks at all, one gets in and stays unless a later one is within 0.3 steps of it |
| LinspaceWithBreaks.CloseBreaksReplace | src/common/CommonFunctions.cpp:1727-1731 | breaks 0.29 steps apart that replace one another across an original value, so that the result is not sorted |
| KnotVectors.InnerForEvenDegree | src/geometry/BSplineAlgorithms.cpp:368-386 | accumulated half steps are the shifted midpoints, and the parameters are shifted in place |
| KnotVectors.InnerByAveraging | src/geometry/BSplineAlgorithms.cpp:392-403 | inner knots are averages of degree successive parameters |
| KnotVectors.KnotsFromCurveParameters | src/geometry/BSplineAlgorithms.cpp:349-436 | fewer than two parameters are an error; otherwise knots and shifted parameters are as specified |
| KnotVectors.AverageBetween | src/geometry/BSplineAlgorithms.cpp:394-402 | an average lies between the first and the last of its parameters |
| KnotVectors.KnotsAreAverages | src/geometry/BSplineAlgorithms.cpp:391-401 | degree times an inner knot is the sum of as many successive parameters; from one knot to the next the sum loses one parameter and gains another |
| KnotVectors.TooFewParametersCollapse | src/geometry/BSplineAlgorithms.cpp:360-364 | with as many parameters as the degree, all knots of an open curve are equal |
| KnotVectors.OpenKnots | src/geometry/BSplineAlgorithms.cpp:392-427 | n + degree + 1 knots, clamped at both ends, strictly ascending in between |
| KnotVectors.SchoenbergWhitney | src/geometry/BSplineAlgorithms.cpp:392-427 | knots[i] <= params[i] <= knots[i+degree+1], strict but at the two ends |
| KnotVectors.ClosedKnots | src/geometry/BSplineAlgorithms.cpp:406-416 | strictly ascending, and knots[i+n-1] == knots[i] + period |
| KnotVectors.EvenDegreeInterleaves | src/geometry/BSplineAlgorithms.cpp:368-386 | for even degree every knot is the middle of two shifted parameters, also across the seam, and they alternate |
| KnotVectors.OddDegreeInterpolatesAtKnots | src/geometry/BSplineAlgorithms.cpp:388-391 | for odd degree the parameters stay and are knots |
| KnotVectors.ClosedPolylineIsClamped | src/geometry/BSplineAlgorithms.cpp:429-433 | degree 1 is clamped instead of periodic |
| CompatibleKnots.AdjustTolerance | src/geometry/BSplineAlgorithms.cpp:245-252 | the tolerance is cut to half of the smallest knot distance |
| CompatibleKnots.CloseIsWithin | src/geometry/BSplineAlgorithms.cpp:255-263 | the knots close to a value are those of an interval around it, ends included |
| CompatibleKnots.AdjustedIsGreatest | src/geometry/BSplineAlgorithms.cpp:245-252 | the adjusted tolerance is the greatest number that is neither above the tolerance nor above half of any step of any spline |
| CompatibleKnots.SameRangeIsWithin | src/geometry/BSplineAlgorithms.cpp:200-210 | the ranges count as the same if and only if the ends of all splines are within the tolerance of those of the first one |
| CompatibleKnots.GatherKnots | src/geometry/BSplineAlgorithms.cpp:254-263 | the first pass changes the first spline only |
| CompatibleKnots.DistributeKnots | src/geometry/BSplineAlgorithms.cpp:266-277 | the second pass changes the others and stops at a different number of knots |
| CompatibleKnots.MakeGeometryCompatible | src/geometry/BSplineAlgorithms.cpp:233-280 | range errors, degree errors and a mismatch are reported exactly when they occur; otherwise all splines have their final knots |
| KnotClusters.AdjustedBounds | src/geometry/BSplineAlgorithms.cpp:245-252 | the tolerance is then positive and at most half of every step of every spline |
| KnotClusters.InsertGrows | src/geometry/BSplineAlgorithms.cpp:163-166 | inserting a knot adds one if and only if there is none within the tolerance |
| KnotClusters.NumberOfFinal | src/geometry/BSplineAlgorithms.cpp:254-276 | after both passes spline i has as many knots as the first one if and only if the gathered knots that have one of spline i within the tolerance are as many as it has inside |
| KnotClusters.NumbersAgree | src/geometry/BSplineAlgorithms.cpp:272-276 | for every tolerance the last exception is not thrown if and only if that is so for all splines |
| KnotClusters.InsertMult | src/geometry/BSplineAlgorithms.cpp:163-166 | where closeness is transitive, an insertion raises the multiplicity of the cluster of the knot to at least the given one and changes no other |
| KnotClusters.InteriorInserted | src/geometry/BSplineAlgorithms.cpp:254-263 | inserting the interior knots of another spline with close ends leaves the ends alone |
| KnotClusters.InteriorInsertedMult | src/geometry/BSplineAlgorithms.cpp:254-263 | it takes the maxima of the multiplicities, cluster by cluster |
| KnotClusters.SameMultsPairUp | src/geometry/BSplineAlgorithms.cpp:272-276 | lists with the same multiplicities for all clusters pair up one by one |
| KnotClusters.FinalKnots | src/geometry/BSplineAlgorithms.cpp:254-277 | all splines keep their ends and end with interior knots that pair up within the tolerance, each with the maximum multiplicity of its cluster |
| KnotClusters.BecomeCompatible | src/geometry/BSplineAlgorithms.cpp:272-276 | with closeness transitive and the ends close, the last exception is not thrown and the final knots are those |
| KnotClusters.TwoSplines | src/geometry/BSplineAlgorithms.cpp:245-277 | two splines on the same range with steps above twice the tolerance: the tolerance stays, the exception is not thrown, and the knots pair up |
| KnotClusters.KnotsApartBecomeEqual | src/geometry/BSplineAlgorithms.cpp:254-277 | knots of different splines that are equal or not close: all splines end with the same interior knots |
| KnotClusters.ChainOfKnotsFails | src/geometry/BSplineAlgorithms.cpp:274-276 | knots at 5, 5.4 and 5.8 of three splines and a tolerance of 0.5 lead to the last exception |
| KnotClusters.HalfwayKnotFails | src/geometry/BSplineAlgorithms.cpp:274-276 | so does a knot at 5 against knots at 4 and 6 and a tolerance of 1 |
| KnotClusters.EndsApartFail | src/geometry/BSplineAlgorithms.cpp:274-276 | so do ends that differ by less than the tolerance but more than the adjusted one, even where closeness is transitive |
| Concatenation.CountC0 | src/geometry/BSplineAlgorithms.cpp:1053-1060 | the allocated sizes are those of the result |
| Concatenation.ConcatenateC0 | src/geometry/BSplineAlgorithms.cpp:1053-1132 | knots, multiplicities, poles and weights are filled in order, once and in bounds |
| Concatenation.CountC1 | src/geometry/CFunctionToBspline.cpp:290-298 | the allocated sizes are those of the result |
| Concatenation.ConcatC1 | src/geometry/CFunctionToBspline.cpp:272-341 | the same for the smooth form, with all weights 1; no curve gives null and one curve itself |
| Concatenation.WeightsAreKept | src/geometry/CFunctionToBspline.cpp:338-340 | the rebuilt curve has the weights of its parts if and only if all that are taken over are 1 |
| Concatenation.NonRationalKeepsWeights | src/geometry/CFunctionToBspline.cpp:256 | so for curves that are not rational, as its only caller passes them |
| Concatenation.JoinedIsValid | src/geometry/BSplineAlgorithms.cpp:1119-1128 | both forms give strictly ascending knots, clamped ends and as many knots with multiplicity as poles and degree + 1; the result is valid if and only if it is not the smooth form of several curves of degree 1 |
| Concatenation.ContainedDeBoor | src/geometry/BSplineAlgorithms.cpp:1100-1108 | de Boor's algorithm gives the same value wherever the same knots and poles occur; the outermost knots do not matter |
| Concatenation.JoinedContains | src/geometry/BSplineAlgorithms.cpp:1068-1117 | the flat knots and the poles of every curve are found in the C0 result |
| Concatenation.JoinedKeepsCurves | src/geometry/BSplineAlgorithms.cpp:1068-1132 | on every span the C0 result is the polynomial of its curve |
| ConcatCurves.LineUp | src/geometry/BSplineAlgorithms.cpp:1036-1051 | parameter ranges are fitted together one after the other |
| ConcatCurves.CheckConnected | src/geometry/BSplineAlgorithms.cpp:1008-1020 | fails if and only if two successive curves are further apart than the tolerance |
| ConcatCurves.TooFarByDistance | src/geometry/BSplineAlgorithms.cpp:1008-1020 | a gap is too wide if and only if its width exceeds the tolerance |
| ConcatCurves.ConcatCurves | src/geometry/BSplineAlgorithms.cpp:969-1133 | null for no curves or a gap, one curve itself, else the joined curve |
| ConcatCurves.ReparametrizedKeepsCurve | src/geometry/BSplineAlgorithms.cpp:787-795 | an affine change of the knots keeps all values, at the mapped parameters |
| ConcatCurves.SumOfSteps | src/geometry/BSplineAlgorithms.cpp:1041-1043 | measured by length, the n-th curve ends at its share of the whole length |
| ConcatCurves.UnitRange | src/geometry/BSplineAlgorithms.cpp:1041-1043 | measured by length, the result ends at parameter 1 |
| ConcatCurves.ConcatKeepsCurves | src/geometry/BSplineAlgorithms.cpp:1036-1133 | curves that meet are joined to one valid curve that keeps every span of every curve |
| ConcatCurves.KnotsAreShifted | src/geometry/BSplineAlgorithms.cpp:1036-1051 | not measured by length, the knots of every curve occur in the result with the same distances, moved to follow the curve before |
| ConcatCurves.ConcatShiftsCurves | src/geometry/BSplineAlgorithms.cpp:1036-1133 | not measured by length, curves that meet keep their values, at parameters shifted by the lengths of the ranges before less their own first parameter; the result runs from 0 to the sum of the lengths |
| MidpointJoin.SameJoined | src/geometry/BSplineAlgorithms.cpp:1085-1097 | moving the ends of all curves to the averaged poles and weights first gives the same result |
| MidpointJoin.JointsAreHalfway | src/geometry/BSplineAlgorithms.cpp:1085-1097 | a joint is halfway between the ends it replaces, in space and in weight |
| MidpointJoin.JoinedIsSettled | src/geometry/BSplineAlgorithms.cpp:1068-1132 | whatever the gaps, the C0 result is on every span the curve with its ends moved to the joints |
| MidpointJoin.EndValues | src/geometry/BSplineAlgorithms.cpp:1074-1080 | a clamped curve takes the values of its first and last pole at its ends |
| MidpointJoin.MidpointJoinKeepsCurve | src/geometry/BSplineAlgorithms.cpp:1085-1097 | a curve is kept on all its spans if and only if both its ends are where averaging puts them |
| MidpointJoin.GapIsNotKept | src/geometry/BSplineAlgorithms.cpp:1085-1097 | two valid curves with a gap that the tolerance lets pass, of any size, the first of which is not kept |
| SmoothJoin.KnotsOfSpan | src/geometry/CFunctionToBspline.cpp:307-331 | the flat knots around a segment in the C1 result |
| SmoothJoin.PolesOfSpan | src/geometry/CFunctionToBspline.cpp:312-336 | the poles of a segment in the C1 result: its inner ones and one of each neighbour |
| SmoothJoin.SpanDeBoor | src/geometry/CFunctionToBspline.cpp:316-336 | from the first level on, de Boor's algorithm on that span is the one of the segment with moved ends |
| SmoothJoin.SmoothSpan | src/geometry/CFunctionToBspline.cpp:272-341 | the C1 result on a segment is the segment with its ends moved between the neighbouring inner poles |
| SmoothJoin.SmoothJoinKeepsSegment | src/geometry/CFunctionToBspline.cpp:272-341 | it is the segment itself if and only if both ends already were there |
| FunctionApproximation.ApproxIsPartition | src/geometry/CFunctionToBspline.cpp:161-202 | the segments cover the range without gap or overlap, in order |
| FunctionApproximation.SegmentsAreLeaves | src/geometry/CFunctionToBspline.cpp:179-200 | the segments are exactly the dyadic ranges that meet the tolerance or are of the last level and all of whose larger ranges miss it; there are at most 2^(maxDepth - depth) |
| FunctionApproximation.OneSegment | src/geometry/CFunctionToBspline.cpp:179-190 | there is a single segment if and only if the whole range meets the tolerance or may not be halved |
| FunctionApproximation.OnlyPartition | src/geometry/CFunctionToBspline.cpp:179-200 | no other list of such ranges covers the whole range in order |
| FunctionApproximation.BuildSpline | src/geometry/CFunctionToBspline.cpp:218-246 | the spline of one segment |
| FunctionApproximation.Approximate | src/geometry/CFunctionToBspline.cpp:204-265 | the smooth concatenation of the splines of all segments, and the greatest of their errors |
| FunctionApproximation.SplinesAreSegments | src/geometry/CFunctionToBspline.cpp:238-246 | the splines are Bezier segments with common ends, as the joining lemmas ask for |
| FunctionApproximation.ApproximationIsValid | src/geometry/CFunctionToBspline.cpp:204-265 | a valid B-spline over the whole range that starts and ends on the function, if and only if the degree is at least 2 or one segment is enough; the number of poles |
| BernsteinForm.BlendIsBernstein | src/geometry/CFunctionToBspline.cpp:210-223 | de Casteljau's scheme gives the Bernstein sum of its coefficients |
| BernsteinForm.DeBoorIsBernstein | src/geometry/CFunctionToBspline.cpp:238-246 | on a clamped segment de Boor's algorithm gives the Bernstein sum at the relative parameter |
| ApproximationSpans.SmoothedPoles | src/geometry/CFunctionToBspline.cpp:312-336 | the poles of a segment in the result: the converted ones inside, and joints on the lines between those of neighbours |
| ApproximationSpans.JoinedIsMovedExpansion | src/geometry/CFunctionToBspline.cpp:272-341 | the joined curve is on each segment its Chebyshev sum plus the moves of the two ends times (1-t)^n and t^n |
| ApproximationSpans.ApproximationOnSegment | src/geometry/CFunctionToBspline.cpp:204-265 | so is the approximation of any function, at every parameter and in every coordinate |
| ApproximationSpans.ValueAtJoint | src/geometry/CFunctionToBspline.cpp:316-336 | where a segment ends, the curve is at the joint |
| ApproximationSpans.RampIsExact | src/geometry/CFunctionToBspline.cpp:179-200 | expansions of a function with a kink that are the function itself on both sides |
| ApproximationSpans.RampIsMissed | src/geometry/CFunctionToBspline.cpp:272-341 | their joined curve is at 1/4 where the function and both segments are 0 |
| TagTracks.CopiesOfWorn | src/topology/Operation.h:63-74 | wearing erases tracks at their last step and takes one step off the others |
| TagTracks.CopiesOfTracks | src/topology/Operation.h:49-76 | a shape k operations downstream has one copy with k steps less for every way to it that was taken after the track had been added |
| TagTracks.Evaluations | src/topology/Operation.h:30-76 | an operation evaluates a track once for every way of 1 to n operations and never for a longer one, wherever and whenever it was added |
| TagTracks.LaterDoesNotMatter | src/topology/Operation.h:49-76 | tracks added later, to any shape, do not change what earlier operations passed on |
| TagTracks.TagsOfLive | src/geoml/naming_choosing/Shape.cpp:239-251 | a part gets a tag once for every track with steps to go that carries it, if these accept the part, and else not at all |
| TagTracks.TagsAreAdded | src/geoml/naming_choosing/Shape.cpp:245-247 | applying tracks only adds tags at the end |
| TagTracks.TagsOfOperation | src/topology/Operation.h:49-76 | the operation that makes a shape adds the tag to an accepted part once for every way of 1 to n operations from where the track was added, and never to others |
| ShapeHistory.Shape.AcceptHistoryVisitor | src/geoml/naming_choosing/Shape.h:334-346 | the search stops if and only if a shape that the visitor looks for is at most the remaining number of origin links away |
| ShapeHistory.Shape.IsDescendentOf | src/geoml/naming_choosing/Shape.cpp:195-203 | true if and only if at most max_depth origin links lead to a same shape |
| ShapeHistory.Shape.AcceptTopologyVisitor | src/geoml/naming_choosing/Shape.h:363-375 | collects one shape for each accepted identity among the parts within the depth, and keeps what was there |
| ShapeHistory.FindIfVisitor.Visit | src/geoml/naming_choosing/Shape.h:632-637 | the flag is the predicate within the depth, and stays beyond it |
| ShapeHistory.FindVisitor.Visit | src/geoml/naming_choosing/Shape.h:682-687 | an accepted shape is kept unless a same one already is |
| ShapeHistory.Shape.SelectSubshapes | src/geoml/naming_choosing/Shape.h:201-224 | exactly the accepted identities among the parts, each once |
| ShapeHistory.Shape.ApplyTagTracks | src/geoml/naming_choosing/Shape.cpp:239-251 | every part, as one shape for each identity, gets the tags of the tracks that go on and accept it with the tags it has by then, and no other shape changes |
| ShapeHistory.CollectTracks | src/topology/Operation.h:51-58 | the tracks of all inputs are appended in order, and the inputs keep theirs |
| ShapeHistory.WearTracks | src/topology/Operation.h:63-74 | erasing and decrementing while iterating wears all tracks |
| ShapeHistory.MergeAndApplyTagTracks | src/topology/Operation.h:49-76 | merge, apply, wear: the tracks and tags of every shape afterwards |
| ShapeHistory.Value | src/topology/Operation.h:30-37 | one operation continues a run, whether its result is new, with tracks of its own or without, or an earlier shape of the run: all shapes carry the tracks that the history prescribes, and the parts of the result get each tag as often as ways of 1 to n operations lead to the result |
| ShapeHistory.AddTagTrackTo | src/geoml/naming_choosing/Shape.cpp:234-237 | so does adding a track to any shape of the run at any time |

## Left out

- Rounding and the tiny comparison bounds (1e-15, 1e-14): arithmetic is exact, and `DBL_MIN` and `DBL_MAX` are two numbers with 0 < DBL_MIN < DBL_MAX. Integer width: binomials and factorials are unbounded.
- OpenCASCADE itself: shapes, trimming, knot insertion, degree elevation, wire building, arc lengths and Chebyshev coefficients enter as parameters, oracles or laws.
- Patch and edge continuities of `MakeLoops`, orientation flags of vertices (the comparison at line 552 is by identity) and its debug output.
- The vertex map of `MakeLoops` is built by OCC: the model takes over that it lists every edge at both of its ends, and twice at a vertex where it starts and ends. The walk on closed grids with one edge and its termination rest on this.
- Networks of `MakeLoops` in which an edge is a guide and a profile at once are modelled, edges without end points are not.
- The refinement of candidates by minimisation at the end of `IntersectBSplines`.
- IntersectBSplines.Ranges: takes a depth and gives no result beyond it, because the original recursion has no bound and need not end; for Bezier curves `SearchEnds.EndsIfSettles` says when it does.
- IntersectBSplines.NearPairBracketed: says nothing about recursions that do not end; for B-spline curves that are not one Bezier piece the hull and trim laws are hypotheses, because trimming them is done inside OCC.
- IntersectBSplines.NoIntersectionLost: the same.
- Bezier.BezierIntersections: asks for a recursion that has ended; `SearchEnds.RunningIntersections` and `SearchEnds.SettledIntersections` do without.
- IntersectBSplines.IntersectionCandidates: gives nothing where the recursion does not end within the depth it is given.
- Arrays and vectors that the originals pass by value are sequences; the swaps within arrays, lists that are changed while iterating, and shared curve and shape objects are modelled on the heap.
- Curves in `CurveNetworkSorter` are reversed as t -> first + last - t with an unchanged range; kinds of curves whose range changes on reversal are not captured.
- CurveNetworkSorter.CreateSorter: asks for different curve objects behind all handles; a curve that is given twice would be reversed for both of its places at once.
- CurveNetworkSorter.Sorter.Perform: asks for at least one guide, since the scans read column 0 without a check.
- `BuildWiresFromConnectedEdges` after the grouping: building and sorting the wires, and their exceptions.
- LinspaceWithBreaks.BreakIsLost: does not cover breaks at most 0.3 steps apart, where later ones replace earlier ones; which ones stay then is stated in one direction only, by `BreakSurvives`.
- LinspaceWithBreaks.Perform: asks for at least two values, since the step of a single value is a division by zero.
- KnotVectors.KnotsFromCurveParameters: asks for sizes at which no index of the original leaves its range; beyond them the original has undefined behaviour.
- KnotClusters.BecomeCompatible: asks for transitive closeness and close ends; without them the exception can be thrown, exactly when is stated by `NumbersAgree`.
- KnotClusters.FinalKnots: asks for the same.
- KnotClusters.InsertMult: says nothing where closeness is not transitive, since clusters of knots have no meaning then; the number of knots is known there too (`InsertGrows`).
- KnotClusters.InteriorInserted: the same.
- KnotClusters.InteriorInsertedMult: the same.
- CompatibleKnots.Insert: of several knots within the tolerance the first is raised; which one it is inside OCC decides about multiplicities only, not about the numbers of knots, and where closeness is transitive there is just one.
- CompatibleKnots.MakeGeometryCompatible: asks for different spline objects and at least two knots in each, which every B-spline has.
- ConcatCurves.ConcatCurves: the curves that are passed in are also reparametrised in place by the original, through shared handles; the model builds new values.
- The error estimate of an expansion (a norm of its last coefficients) is a parameter of the approximation.
- ShapeHistory.Shape.SelectSubshapes: predicates see what makes two shapes the same and not tags or history; the compound that is wrapped around the results and the order of the hash set are left out.
- ShapeHistory.Shape.ApplyTagTracks: criteria see what makes two shapes the same and the tags of a shape, but not its history or parts.
- ShapeHistory.CollectTracks: asks for a result that shares no data with an input; otherwise the original appends to a vector while reading it.
- ShapeHistory.MergeAndApplyTagTracks: the same.
- ShapeHistory.Value: the same; a result that is an earlier shape but no input is covered.
- The wrappers `is_unmodified_descendent_of`, `is_modified_descendent_of`, `is_descendent_of_subshape_in` and `is_ancestor_of`: they do not forward their depth and add only easy members.
- Least-squares fitting, Newton projection, parameter optimisation, surfaces, import and export, bindings.
