# DelaunayCpp in Dafny

A model of the core of DelaunayCpp. The program builds the Delaunay
triangulation of a planar point set with the divide-and-conquer algorithm of
Guibas and Stolfi (1985), on a quad-edge mesh. It then runs Kruskal's
minimum-spanning-tree algorithm over the surviving mesh edges, and returns the
largest accepted edge length (`min_d`).

The project has seven modules, one per part of the program:

- `Geometry` (`geometry.dfy`): points, `lenghtSquared`, `computeArea`, `ccw`
  and `insideCircle`, over exact integer coordinates.
- `Sorting` (`sorting.dfy`): a sort by an arbitrary total preorder. It stands
  in for `std::sort` with a comparator.
- `QuadEdge` (`quadedge.dfy`): the quad-edge algebra as an arena.
  - The mesh is a sequence of `Quad` records: four `next` links, four origin
    nodes, a cached squared length and an `alive` flag.
  - An `Edge *` is a `Handle`: a quad index and a representation index 0..3.
  - Pointer offsets inside `e[4]` become arithmetic on that index.
  - Navigation is by functions. The mutating primitives are methods that
    return the new arena: `EndPoints`, `MakeEdge`, `MakeEdgeFrom`, `Splice`,
    `DeleteEdge`, `Connect` and `Swap`.
- `Preprocess` (`preprocess.dfy`): the `DivideConquer` constructor. It sorts
  the points lexicographically, then drops points within `EPS` of the point
  that opened their run.
- `Delaunay` (`delaunay.dfy`): the recursive `delaunay` builder.
  - It threads a `Builder` value: points, mesh, `edges_stack`,
    `connected_nodes` and `deleted_count`.
  - It covers the two- and three-point base cases, the split, the lower
    common tangent walk, base-edge rebinding, and the merge sweep with its
    deletion loops and cross-edge choice.
  - The invariant `Inv` says:
    - the arena is well linked and keeps primal and dual edges apart;
    - every primal slot holds a handed-out node at the right position;
    - the identifiers `0 .. connected_nodes-1` all occur;
    - the stack holds every quad exactly once.
- `UnionFind` (`unionfind.dfy`): the `parent` vector, `findSet` and the
  union step.
  - `findSet` terminates because the parent links form a forest, witnessed by
    a rank.
- `Kruskal` (`kruskal.dfy`): the Kruskal loop of `computeKruskalMinD`
  (`delaunay.cpp`) and of the `Kruskal` constructor (`kruskal.cpp`).
  - Both are modelled as one scan, parameterised by the length that the
    `min_d` test reads.
  - `ComputeKruskalMinD` runs the loop on a built mesh.

Coordinates are integers throughout, so every geometric predicate is exact.
`min_d` is kept squared.

## Model

| member | source | states |
|---|---|---|
| Geometry.SamePoint | include/delaunay.h:31-33 | two points are equal exactly when both coordinates agree |
| Geometry.Sub | include/delaunay.h:42-44 | adding `b` back to the difference `a - b` gives `a`, coordinate by coordinate |
| Geometry.LengthSquared | include/delaunay.h:47-50 | the squared distance is never negative, and is zero exactly when the two points coincide |
| Geometry.LengthSquaredSymmetric | include/delaunay.h:47-50 | the squared distance from `a` to `b` equals that from `b` to `a` |
| Geometry.Area | include/delaunay.h:186-188 | the cross product of the two edge vectors leaving `a` equals the shoelace sum `x_a y_b - x_b y_a + x_b y_c - x_c y_b + x_c y_a - x_a y_c` over the three sides, that is, twice the signed area |
| Geometry.AreaAntisymmetric | include/delaunay.h:186-188 | swapping the last two vertices negates the doubled signed area |
| Geometry.AreaCyclic | include/delaunay.h:186-188 | rotating the three vertices leaves the signed area unchanged |
| Geometry.AreaDegenerate | include/delaunay.h:186-188 | a triangle with a repeated vertex has zero area |
| Geometry.AreaTranslate | include/delaunay.h:186-188 | moving all three vertices by the same vector leaves the signed area unchanged |
| Geometry.Ccw | include/delaunay.cpp:109-113 | three points that turn counterclockwise are pairwise distinct |
| Geometry.CcwLaws | include/delaunay.cpp:109-113 | `ccw(a,b,c)` and `ccw(a,c,b)` never both hold, and `ccw` is invariant under cyclic rotation |
| Geometry.CollinearIffNoTurn | include/delaunay.cpp:109-113 | neither orientation test holds exactly when the three points are collinear (zero area) |
| Geometry.InsideCircle | include/delaunay.cpp:98-108 | a point strictly inside the circle through `a`, `b`, `c` is none of `a`, `b`, `c`: the three points lie on their own circle |
| Geometry.InCircleDetIsTranslated | include/delaunay.cpp:98-108 | the four-term expansion used by `insideCircle` equals the 3x3 lifted determinant with `d` moved to the origin (the determinant form of Guibas and Stolfi, p. 107) |
| Sorting.SortBy | include/delaunay.cpp:345-347 | for any total preorder the result is sorted, and it is a permutation (same multiset) of the input |
| QuadEdge.Rot | include/delaunay.h:79 | `Rot` stays within the quad-edge and switches between primal and dual representations |
| QuadEdge.InvRot | include/delaunay.h:81 | `invRot` stays within the quad-edge and switches between primal and dual representations |
| QuadEdge.Sym | include/delaunay.h:83 | `Sym` stays within the quad-edge, changes the representation and keeps it primal or dual |
| QuadEdge.RotLaws | include/delaunay.h:79-81 | `Rot` applied four times is the identity, and `invRot` and `Rot` undo each other |
| QuadEdge.SymLaws | include/delaunay.h:79-83 | `Sym` is `Rot` applied twice and is an involution |
| QuadEdge.QuadOfShared | include/delaunay.h:114 | all four representations yield the same owning quad-edge, which is one of them |
| QuadEdge.Oprev | include/delaunay.h:88 | `Oprev` lands inside the arena, and on a valid arena maps primal edges to primal edges |
| QuadEdge.Lnext | include/delaunay.h:90 | `Lnext` lands inside the arena, and on a valid arena maps primal edges to primal edges |
| QuadEdge.Rprev | include/delaunay.h:92 | `Rprev` lands inside the arena, and on a valid arena maps primal edges to primal edges |
| QuadEdge.DestIsOrgOfSym | include/delaunay.h:95-103 | `Dest(e)` is `Org(Sym(e))`, `Dest2d(e)` is `Org2d(Sym(e))`, and `Org2d(e)` is the position of `Org(e)` |
| QuadEdge.MakeEdge | include/delaunay.cpp:4-19 | a fresh quad is appended alive: `e[0]` and `e[2]` are self-loops, `e[1]` and `e[3]` point at each other, and every older quad and link is untouched |
| QuadEdge.EndPoints | include/delaunay.cpp:21-26 | only the origins of `e` and `Sym(e)` and the cached length change; the length becomes the squared distance of the two positions, and links, liveness and other quads are kept |
| QuadEdge.MakeEdgeFrom | include/delaunay.cpp:36-40 | the new alive self-looped edge runs from `ori` to `de` and caches their squared distance |
| QuadEdge.Splice | include/delaunay.cpp:41-62 | only the links of `a`, `b`, `Rot(Onext a)` and `Rot(Onext b)` change; on a valid arena with `a` and `b` of one kind, they exchange their successors pairwise and the arena stays valid |
| QuadEdge.SpliceTwice | include/delaunay.cpp:41-62 | splicing the same two edges twice restores the arena exactly (merge/split duality) |
| QuadEdge.DeleteEdge | include/delaunay.cpp:63-69 | the quad of `e` becomes dead, the counter grows by one, and the size, nodes, lengths and the liveness of every other quad are unchanged |
| QuadEdge.Connect | include/delaunay.cpp:71-84 | one alive quad is appended whose edge runs from `Dest(a)` to `Org(b)` with length their squared distance; older nodes, lengths and liveness are kept; on a valid arena the result stays valid, the new edge takes the place after `Lnext(a)` in its origin ring (its successor is the old successor of `Lnext(a)`), and `Sym` of the new edge becomes the successor of `b` |
| QuadEdge.Swap | include/delaunay.cpp:85-96 | the edge is re-attached from `Dest(Oprev e)` to `Dest(Oprev (Sym e))`; liveness and the nodes of other quads are unchanged and validity is kept |
| Preprocess.LexOrder | include/delaunay.cpp:124-128 | the comparator's non-strict form is a total preorder, and two points ordered both ways are equal |
| Preprocess.SortPoints | include/delaunay.cpp:123-128 | the points are sorted by x, then y, and form a permutation of the input |
| Preprocess.SkipRepeats | include/delaunay.cpp:137-145 | the inner loop stops at the end of the run: every skipped point is within `EPS` of the opening point, and the next one is not |
| Preprocess.Deduplicate | include/delaunay.cpp:132-146 | the output is the input read at strictly increasing positions, starting with the first point, by the run rule: each kept point opens a run, every point of the run is within `EPS` of that opener, and the next run opens at the first point that is not; consecutive outputs are more than `EPS` apart; every input point is kept or within `EPS` of a kept one; the output is empty exactly when the input is |
| Preprocess.KeepNext | include/delaunay.cpp:132-146 | one round of the outer loop keeps the opener `v[i]`, moves past its run, and keeps the loop invariant: increasing positions, the run rule so far, and every visited point covered |
| Preprocess.RunsExtend | include/delaunay.cpp:137-145 | a run opened at `i` and ended where the inner loop stops extends the run rule up to the end of that run |
| Preprocess.RunsApart | include/delaunay.cpp:132-146 | under the run rule the openers of consecutive runs are more than `EPS` apart |
| Preprocess.RunsAgree | include/delaunay.cpp:132-146 | two pickings of the input that both follow the run rule choose the same position at every index they share |
| Preprocess.DeduplicatedUnique | include/delaunay.cpp:132-146 | at most one output follows the run rule over a given input, so the kept points are fixed by the sorted input (in a chain of points each within `EPS` of the next, which of them survive is determined) |
| Preprocess.DivideConquerInit | include/delaunay.cpp:121-150 | the kept points are sorted, come from the input (sub-multiset), and consecutive kept points are more than `EPS` apart; with `EPS >= 0` they strictly increase; every input point is covered; they are the run-rule output of the sorted input; the caller's vector is overwritten with them |
| Preprocess.KeptSorted | include/delaunay.cpp:132-146 | a subsequence taken at increasing positions of a sorted sequence is sorted |
| Preprocess.KeptSubMultiset | include/delaunay.cpp:132-146 | a subsequence taken at increasing positions is a sub-multiset of the sequence |
| Delaunay.LeftOfIsRightOfSym | include/delaunay.cpp:114-119 | `x` is left of `e` exactly when it is right of `Sym(e)`, and never both left and right of `e` |
| Delaunay.RightOf | include/delaunay.cpp:114-116 | a point right of `e` is neither endpoint of `e` and is not left of `e` |
| Delaunay.LeftOf | include/delaunay.cpp:117-119 | a point left of `e` is neither endpoint of `e` |
| Delaunay.DeleteFrom | include/delaunay.cpp:63-69 | deleting keeps the builder invariant (including that dead quads never outnumber `deleted_count`), the arena size, the stack and the nodes; the quad of the edge becomes dead, every other quad keeps its liveness, and `deleted_count` grows by one |
| Delaunay.AddEdge | include/delaunay.cpp:292-297 | connecting and pushing keeps the builder invariant and appends exactly the new alive edge, from `Dest(a)` to `Org(b)`, to the stack; every older quad keeps its liveness |
| Delaunay.BaseTwo | include/delaunay.cpp:167-180 | two points get identifiers `lo` and `hi`, and are joined by one stacked edge whose two directions are self-loops; it returns that edge and its reverse; every older quad keeps its liveness |
| Delaunay.BaseThree | include/delaunay.cpp:182-221 | in either counterclockwise case the closing edge from `Connect(bc, ab)` runs from the point at `hi` to the point at `lo` and is stacked before `ab` and `bc`, with the returned edges as in the source; if collinear only `ab` and `bc` are stacked, joined at `b`, and it returns `ab` and `Sym(bc)`; ids `lo..hi` are handed out; every older quad keeps its liveness |
| Delaunay.Halves | include/delaunay.cpp:224-231 | the halves are contiguous and balanced, and each has at least two points when there are four or more; with one point the left half is empty, and with none the call repeats |
| Delaunay.LowerTangent | include/delaunay.cpp:234-242 | the walk advances the left edge only by `Lnext` and the right edge only by `Rprev`; when it stops, neither test moves it |
| Delaunay.DeleteRound | include/delaunay.cpp:261-265 | one round of a deletion loop deletes the current candidate, whose next candidate's destination lies inside the circle through `basel` and its destination, makes that next candidate current, and extends the recorded trail by this step |
| Delaunay.DeleteCandidates | include/delaunay.cpp:258-277 | a deletion loop on either side starts from the source's first candidate (`Onext(Sym basel)` on the left, `Oprev(basel)` on the right); when it is not right of `basel` nothing changes; otherwise the trail records every round: each deletes the current candidate exactly when the next one (by `Onext` or `Oprev`) has its destination inside the circle through `basel` and the current destination, kills only that quad, and moves to the next; when it stops on its own test, the last candidate fails that circle test; otherwise it made `fuel` deletions |
| Delaunay.Candidates | include/delaunay.cpp:256-277 | the left loop runs first and the right loop runs on its result, each with a full trail; the invariant and the stack are kept, no quad is added, at most `2 * fuel` edges are deleted; a first candidate not above `basel` is returned as it is and its loop changes nothing (the right one judged after the left loop, as in the source); when neither is above `basel`, nothing changes; `settled` is false only when a loop ran out of its `fuel` |
| Delaunay.CrossEdge | include/delaunay.cpp:287-297 | one alive edge is added and stacked, no other quad changes liveness; it runs from the right candidate's destination to `Dest(basel)` exactly when the left one is invalid, or both are valid and the circle test favours the right; otherwise from `Org(basel)` to the left candidate's destination |
| Delaunay.MergeStep | include/delaunay.cpp:254-299 | one merge round runs both deletion loops from `basel` (recorded as a sweep), then stops exactly when neither final candidate is right of `basel`, returning the state and `basel` unchanged; otherwise it adds the cross edge by the source's choice, with its endpoints; when neither first candidate is valid, nothing changes at all |
| Delaunay.Merge | include/delaunay.cpp:254-299 | the sweep keeps the builder invariant and the stack prefix, and adds at most one edge per round; the final base edge is `basel` or a new edge; when `settled`, the last round ran its deletion loops from the final base edge and both final candidates are below it; otherwise it used all `fuel` rounds; when neither first candidate of `basel` is valid, nothing changes; `exact` implies `settled` |
| Delaunay.Combine | include/delaunay.cpp:233-305 | the tangent walk advances `ldi` by `Lnext` and `rdi` by `Rprev` from the inner edges; the first edge stacked is the base edge from `Org(rdi)` to `Org(ldi)`; the outer edges are rebound to it exactly when their origins coincide with the tangent's; when `exact`, the walk stopped where the source stops it, and the last merge round started from the final cross edge and left both candidates below it |
| Delaunay.Build | include/delaunay.cpp:160-306 | a range of at least two points hands out exactly the identifiers `lo..hi`, keeps the builder invariant, and returns edges leaving the leftmost and rightmost point; with at most three points the result is `exact` |
| Delaunay.Triangulate | include/delaunay.cpp:308-313 | every node has an identifier in `0..n-1` at its own point; every identifier is the origin of some primal slot, possibly one of a deleted quad; each quad is stacked once; dead quads never outnumber `deleted_count`; there are at least `n-1` edges; the outer edges leave the first and last point; with at most three points the result is `exact` |
| UnionFind.SingletonsForest | include/kruskal.cpp:8-9 | the identity parent vector is a forest in which every node is its own root |
| UnionFind.FindSet | include/kruskal.cpp:58-64 | on a forest `findSet` terminates and returns a root (`parent[r] == r`) |
| UnionFind.FindSetReached | include/delaunay.cpp:317-323 | the root `findSet` returns is reached from `i` by following parent links |
| UnionFind.RootUnique | include/delaunay.cpp:317-323 | any root reachable from `i` is the one `findSet` returns |
| UnionFind.Union | include/kruskal.cpp:41 | linking one root under another keeps a forest, merges exactly those two sets, leaves every other set unchanged, and removes one root |
| Kruskal.AliveEdges | include/kruskal.cpp:12-18 | only alive stacked edges are copied, and every alive edge is copied as often as it is stacked |
| Kruskal.SortByLength | include/kruskal.cpp:20-22 | the copy is sorted by non-decreasing cached length and is a permutation of the alive edges |
| Kruskal.MaxLength | include/delaunay.cpp:369-371 | the reference maximum: at least every length, and attained by some edge unless it is 0 |
| Kruskal.Consider | include/delaunay.cpp:352-375 | an iteration accepts exactly an alive edge whose endpoint roots differ; it then appends it, removes one root, joins its endpoints, and stops at `n-1` edges; otherwise the state is unchanged; sets never split |
| Kruskal.ConsiderComponents | include/delaunay.cpp:352-375 | one iteration keeps the sets equal to the connected components of the accepted edges, and accepts no edge that closes a cycle |
| Kruskal.UnionLinks | include/kruskal.cpp:41 | two nodes whose sets are merged by linking the roots of `w`'s endpoints are connected by the accepted edges together with `w` |
| Kruskal.WalkSameSet | include/delaunay.cpp:317-323 | sets that join the two endpoints of every accepted edge join the two ends of every walk along accepted edges |
| Kruskal.Scan | include/delaunay.cpp:352-377 | the loop keeps the parent vector a forest over the `n` nodes |
| Kruskal.ScanGood | include/delaunay.cpp:352-377 | the loop keeps the accounting (accepted edges plus roots equals `n`), the accepted edges sorted and no longer than the unvisited ones, and every visited alive edge joined |
| Kruskal.ScanComponents | include/delaunay.cpp:352-377 | the whole loop keeps the sets equal to the connected components of the accepted edges, and the accepted edges acyclic |
| Kruskal.KruskalMinD | include/delaunay.cpp:343-377 | the loop of `computeKruskalMinD` ends with a forest over the `n` nodes in which the accepted edges and the sets add up to `n`, and with the accepted edges in length order |
| Kruskal.KruskalAsWritten | include/kruskal.cpp:20-52 | with `edge_stack` and `num_node` taken as its inputs, the constructor's loop ends with a forest over the `n` nodes in which the accepted edges and the sets add up to `n`, and with the accepted edges in length order |
| Kruskal.WithinMembers | include/delaunay.cpp:352-377 | the filter of accepted edges by a length bound keeps exactly those no longer than the bound |
| Kruskal.WithinAll | include/delaunay.cpp:352-377 | when no accepted edge is longer than the bound, the filter keeps all of them |
| Kruskal.ConsiderCycles | include/delaunay.cpp:352-375 | one iteration keeps the cycle property one index further: an accepted edge links its own endpoints, and a rejected alive edge already had them linked by accepted edges no longer than it |
| Kruskal.ScanCycles | include/delaunay.cpp:352-377 | the whole loop, including its early stop at `n-1` edges, ends with the cycle property over every visited edge |
| Kruskal.KruskalCycles | include/delaunay.cpp:343-377 | every alive stacked edge has its endpoints connected by accepted edges no longer than itself (the cycle optimality condition of a minimum spanning forest) |
| Kruskal.KruskalMinDSpec | include/delaunay.cpp:324-382 | only alive stacked edges are accepted, in length order, at most `n-1` of them; accepted edges and sets add up to `n`; the sets are exactly the connected components of the accepted edges, which contain no cycle; the forest joins the endpoints of every alive edge; `min_d` is the largest accepted length |
| Kruskal.ComputeKruskalMinD | include/delaunay.cpp:324-382 | on a built mesh with `connected_nodes` nodes: the accepted edges are alive stacked edges in length order, at most `connected_nodes - 1` of them, and contain no cycle; the final sets are exactly their connected components, one set per missing edge, and join every alive edge's endpoints; every alive stacked edge has its endpoints connected by accepted edges no longer than it; the squared `min_d` is the largest accepted length |
| Kruskal.RunOnEdges | include/delaunay.cpp:343-377 | the accepted edges of the run on a mesh are alive stacked edges in length order, at most `connected_nodes - 1`, one per merged set, and `min_d` is the largest of their lengths |
| Kruskal.RunOnComponents | include/delaunay.cpp:352-377 | the final sets of the run on a mesh are the components of its accepted edges, which are acyclic, and join every alive edge's endpoints |
| Kruskal.RunOnCycles | include/delaunay.cpp:352-377 | on a mesh, every alive stacked edge has its endpoints connected by accepted edges no longer than it |
| Kruskal.AsWrittenSameTree | include/kruskal.cpp:27-52 | the `Kruskal` constructor, with `edge_stack` and `num_node` taken as its inputs, accepts the same edges and leaves the same forest as `computeKruskalMinD`, whatever its `min_d` test reads |
| Kruskal.AsWrittenMinDAccepted | include/kruskal.cpp:43-46 | in the constructor `min_d` is only ever 0 or the length of an accepted edge |
| Kruskal.AsWrittenMissesMax | include/kruskal.cpp:44-46 | on a two-edge stack pushed longest first, the constructor accepts both edges but ends with `min_d == 1`, while the largest accepted length is 5 |

## Left out

- Floating point: `float` coordinates, rounding in `computeArea` and
  `insideCircle`, and the final `std::sqrt`. Coordinates are exact integers.
  `min_d` is returned squared, which preserves its order.
- `EPS` is not defined in the source that the model covers. It is a parameter
  of `Preprocess.DivideConquerInit`. `abs` is taken on exact values, so the
  truncation a C `abs` would apply to a `float` argument is not modelled.
- Delaunay.LowerTangent: the walk is bounded by a fuel parameter. The
  geometric argument that it terminates is not modelled. With too little
  fuel it reports `settled == false`.
- Delaunay.Merge: the merge sweep is bounded by fuel rounds, and each
  deletion loop by fuel deletions (Delaunay.DeleteCandidates). Their
  geometric termination is not modelled.
- Delaunay.DeleteCandidates, Delaunay.MergeStep: the trail ties each
  candidate to the previous one by `Onext` or `Oprev` in the arena of that
  step. It does not state that every candidate still leaves an endpoint of
  `basel`: that needs the ring law that `Oprev` inverts `Onext`, which the
  arena invariant leaves out (see QuadEdge.DeleteEdge).
- Delaunay.Merge, Delaunay.Combine: when the sweep stops, both candidates are
  on or left of the final base edge, as the source's stop test reads. That
  this edge is the upper common tangent of the two halves is the geometric
  argument of Guibas and Stolfi, which is not modelled.
- Kruskal.KruskalMinDSpec, Kruskal.KruskalCycles: minimality is stated as
  the cycle optimality condition (every alive edge's endpoints are joined by
  accepted edges no longer than it). The exchange argument that turns it into
  "no spanning forest of the alive edges has a smaller total length" is not
  modelled.
- Delaunay.Triangulate: only a result with `exact == true` follows the
  source. `exact` is false when some tangent walk, merge sweep or deletion
  loop ran out of fuel, and the mesh is then cut short. Every stated property
  holds either way, and with at most three points the result is exact.
- Delaunay.Build, Delaunay.Triangulate: the global Delaunay (empty
  circumcircle) property is not stated. They state the structural
  invariant: well-linked arena, dense node identifiers, and each quad stacked
  once.
  - "Dense" counts any primal slot, including those of deleted quads. So it
    does not promise that every point still ends a live edge. Stating that
    needs the mesh connectivity argument, which the model leaves out.
- Delaunay.Triangulate: it requires at least two points.
  - With one point the source's recursive case splits off an empty left
    half. Called on it, `numb_points` is 0, and the same call repeats
    forever (see Delaunay.Halves).
  - With zero points `m_points.size() - 1` wraps around.
- Fresh representations carry a default node until `EndPoints` runs. The
  source's default identifier and length are indeterminate; here they are 0.
- Ties in `std::sort`: `std::sort` leaves the order of equivalent elements
  unspecified. The model fixes one order: the stable insertion order.
  - For the point sort this is immaterial, because two points that compare
    equivalent are equal.
  - For the edge sort it is not. Among edges of equal length, which one
    Kruskal accepts (and so `a_solution`) can depend on their order. The
    model follows its own order. The properties stated about the result
    (forest, components, `min_d`) do not name a particular tied edge.
- Memory: `shared_ptr` ownership, the destructor, `test` and raw pointers are
  replaced by the arena of quad records.
- `main.cpp` (random points, SDL loop, timing, printing) and
  `include/viewer.h` (drawing) are I/O.
- Kruskal.ComputeKruskalMinD: `a_solution` is the caller's vector, passed by
  reference, and the source appends to whatever it already holds. The model
  returns only the accepted edges, which is the result for an empty vector.
  For a non-empty vector, the earlier entries would stay in front and would
  count towards the `connected_nodes - 1` stop test (include/delaunay.cpp:373).
  That case is not modelled.
- Kruskal.KruskalAsWritten, Kruskal.AsWrittenSameTree: the constructor's
  parameters are `e_stack` and `num_nodes` (include/kruskal.cpp:3), but its
  body reads `edge_stack` and `num_node` instead (include/kruskal.cpp:8,
  13-14, 44, 48). Neither name is a parameter, and the shipped header does
  not declare them either. The model takes `edge_stack` and `num_node` to
  be the constructor's inputs, so its statements about the constructor
  describe the body under that reading, not the text as it would compile.
- `include/kruskal.h` is not part of this model. Its `update()` is written
  against a type that does not exist, and `Kruskal::computeSolution`
  (include/kruskal.cpp:66-68) is empty.
- The header declares `makeEdge`, `connect` and `disconnectEdge` under
  other names. Behaviour follows the bodies in `include/delaunay.cpp`.
- QuadEdge.DeleteEdge: states liveness, the counter, the kept data and
  validity, but not that `e` ends detached from its two rings. The arena
  invariant does not include the law that `Oprev` inverts `Onext`, which that
  statement needs.
- QuadEdge.Connect: does not state that `a`, the new edge and `b` bound one
  face (`Lnext(a)` is the new edge, and `Lnext` of the new edge is `b`).
  `Lnext` walks the dual rings. The arena invariant does not relate the
  dual rings to the primal ones, which that statement needs. The contract
  states the two primal ring links the splices create.
- QuadEdge.Swap: states the new endpoints, the kept liveness and validity,
  but not the resulting links. The reason is the same as for DeleteEdge.
  Swap is modelled but never called by the builder, as in the source.

## Findings

| source | as written | input that shows it | evidently intended | confidence | as-written member | corrected member |
|---|---|---|---|---|---|---|
| include/kruskal.cpp:44 | the `min_d` test reads `edge_stack[i]`, the unsorted and unfiltered stack, at the index of the visited sorted edge | three nodes; stack `[1-2 (squared length 5), 0-1 (squared length 1)]`: both edges are accepted but `min_d` ends as 1 | read `valid_edges[i]`, as `computeKruskalMinD` does (include/delaunay.cpp:369), so that `min_d` is the largest accepted length | high; not executed | Kruskal.AsWrittenMissesMax | Kruskal.KruskalMinDSpec |
