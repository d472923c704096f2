# Misra–Gries edge colouring, modelled in Dafny

The program colours the edges of a simple undirected graph with at most
Δ+1 colours, where Δ is the largest vertex degree. It follows the
constructive proof of Vizing's theorem by Misra and Gries.

The graph is an n-by-n matrix. Cell (i, j) holds one of three values:
- "not adjacent";
- "adjacent, uncoloured";
- a colour k in [0, n+1).

The algorithm first clears every colour. It then takes the vertices X in
order. While X still has an uncoloured edge, it performs one step:
1. Build the maximal fan F of X, starting at X's first uncoloured edge.
2. Pick d, the smallest colour free at F's last vertex, and c, the
   smallest other colour free at X.
3. Invert the c/d alternating path that starts at X.
4. Find the first fan vertex w at which d is now free.
5. Rotate the colours of the fan prefix up to w one place to the left.
6. Colour the edge (X, w) with d.

The model consists of seven modules, one per file:

| module | file | content |
|---|---|---|
| `Cells` | `cells.dfy` | the cell datatype, the matrix value `Matrix = seq<seq<Cell>>`, the snapshot `Snap` of the mutable `array2<Cell>`, the structural predicates (`Simple`, `Proper`, `FullyColored`, `ColorsBelow`, `SameAdjacency`) and the symmetric edge write |
| `Counting` | `counting.dfy` | distinct and increasing sequences, and cardinality facts |
| `GraphModel` | `graph_model.dfy` | building the matrix from an edge list, neighbours, Δ, free colours, the edge list, the colour set, clearing, and the validity check |
| `FanBuilder` | `fan.dfy` | fans and the maximal fan |
| `PathInverter` | `cd_path.dfy` | the c/d path and its inversion |
| `FanRotator` | `rotation.dfy` | the fan rotation |
| `Colorer` | `colorer.dfy` | one Misra–Gries step, the per-vertex loop and the whole colouring |

The source functions that change the matrix are methods on an
`array2<Cell>`:
- `clearGraph`, `invertCDPathOf` and `rotateFan` are `ClearGraph`,
  `InvertCDPathOf` and `RotateFan`. Each one's `ensures` ties the new
  snapshot to a ghost function of the old one: `Cleared`, `Inverted` or
  `Rotated`.
- One step of `colorGraph`'s inner loop is `MisraGriesStep`. Its
  `ensures` gives the new snapshot as `Recolored(Inverted(old, ...), ...)`.
  The lemmas about those functions carry the correctness argument.
- `graphFrom` is `GraphFrom`. It allocates a fresh array whose cells are
  given by the function `CellFrom` of the edge list.
- `colorGraph` is `ColorGraph`, and its per-vertex loop is `ColorVertex`.
  Both state properties of the colouring they leave. Both also return, as a
  ghost value, the run of steps they took. Each step in that run is the
  exact step the loop takes from the matrix the step before left.

The read-only loops are methods over a `Matrix` value that change
nothing: `getGraphDelta`, `isGraphValid`, the neighbour scan of
`getCDPathOf`, and the loops of `maximalFanOf`. The comprehensions are
functions: `adjacentOf`, `freeColorsOf`, `getGraphEdges` and
`getGraphColors`. The scan in `getFirstFromB`, a `for` loop that returns
at the first suitable vertex, is the recursive function `FirstFromBFrom`,
one call per column.

Main results:

- **`ColorGraph`** requires a square matrix with symmetric adjacency and no
  self-loop. At the end:
  - every edge is coloured;
  - the colouring is proper, and the source's own validity check accepts it;
  - the edges are those of the input;
  - every colour is below Δ+1;
  - at most Δ+1 distinct colours are used.

  It terminates: each step colours one more edge at X and uncolours none.
  The "impossible" branch of the w search is proved unreachable.
  The colouring it leaves is determined. `ColorGraph` returns the run of
  steps it took from the cleared matrix. `StepUnique` shows that every
  choice of a step is fixed by the matrix it starts from: the fan, c, d,
  the path, w and the matrix it leaves. `RunUnique` shows that only one
  such run ends with every edge coloured.
- **`SomeFanVertexFreesD`** is the heart of the Misra–Gries argument.
  After the c/d inversion, d is free at some fan vertex F[j], and F[..j+1]
  is still a fan. The proof has three cases:
  - d was free at X;
  - the path ends inside the fan;
  - the prefix before X's d-edge is off the path.
- **`RecoloredStep`**: take a fan whose last vertex has d free, and where d
  is also free at X. Rotating it and then colouring its last edge with d
  keeps the colouring proper. It also introduces no colour ≥ Δ+1.

## Model

| member | source | states |
|---|---|---|
| Cells.WriteEdge | GT-9900-2nd-Project-9830339-v3.py:186-188 | writing one edge sets both (u, v) and (v, u) to the new cell and changes nothing else |
| GraphModel.GraphFrom | GT-9900-2nd-Project-9830339-v3.py:31-37 | the built matrix is vertCount×vertCount; cell (i, j) holds the cell of the last of the first edgeCount edges joining i and j (its colour, or uncoloured when none is given), and is not adjacent when no such edge exists |
| GraphModel.CellFromSymmetric | GT-9900-2nd-Project-9830339-v3.py:36 | the built matrix is symmetric: cell (i, j) equals cell (j, i) |
| GraphModel.CellFromAdjacent | GT-9900-2nd-Project-9830339-v3.py:33-36 | cell (i, j) is an edge exactly when some input edge joins i and j |
| GraphModel.CellFromLastEdge | GT-9900-2nd-Project-9830339-v3.py:34-36 | when several input edges join i and j, the last one's colour is the one stored |
| GraphModel.AdjacentOf | GT-9900-2nd-Project-9830339-v3.py:105-107 | u is in the result exactly when u is a column of row v holding an edge; the result is increasing, and its length is v's degree |
| GraphModel.GetGraphDelta | GT-9900-2nd-Project-9830339-v3.py:47-56 | the result bounds every row's degree and is reached by some row (0 for the empty graph) |
| GraphModel.MaxDegreeIsMax | GT-9900-2nd-Project-9830339-v3.py:47-56 | the maximum-degree function meets the same characterisation, so it is what GetGraphDelta computes |
| GraphModel.MaxDegreeUnique | GT-9900-2nd-Project-9830339-v3.py:47-56 | only one value is a maximum degree |
| GraphModel.MaxDegreeSameAdjacency | GT-9900-2nd-Project-9830339-v3.py:53 | Δ depends only on adjacency, so recolouring never changes it |
| GraphModel.DegreeSameEdges | GT-9900-2nd-Project-9830339-v3.py:53 | two rows with the same edges have the same degree |
| GraphModel.MaxDegreeAtMostSize | GT-9900-2nd-Project-9830339-v3.py:6 | Δ ≤ n, so Δ+1 colours fit in the range [0, n+1) |
| GraphModel.ColoredCountBound | GT-9900-2nd-Project-9830339-v3.py:226 | a vertex has no more coloured edges than its degree, and fewer when one of its edges is uncoloured |
| GraphModel.FreeColorsOf | GT-9900-2nd-Project-9830339-v3.py:110-122 | k is in the result exactly when k < n+1, no edge at v has colour k, and k is not excluded; the result is increasing, so its first element is the smallest free colour |
| GraphModel.FreeColorExists | GT-9900-2nd-Project-9830339-v3.py:226 | pigeonhole: with fewer used and excluded colours than the bound, some colour below the bound is available |
| GraphModel.SmallestFreeBelow | GT-9900-2nd-Project-9830339-v3.py:224-227 | with fewer used and excluded colours than the bound, the free list is non-empty and its first element is below the bound, so indexing [0] is safe |
| GraphModel.RowPairs | GT-9900-2nd-Project-9830339-v3.py:61 | the pairs (u, v) for one row u are exactly u's edges, in increasing order of v |
| GraphModel.GraphEdges | GT-9900-2nd-Project-9830339-v3.py:59-61 | (u, v) is in the result exactly when cell (u, v) is an edge, and the pairs appear in row-major order, so every edge appears once in each direction |
| GraphModel.EdgesRoundTrip | GT-9900-2nd-Project-9830339-v3.py:31-37 | round trip: the edge list read back from a matrix built from edges holds (u, v) exactly when some input edge joins u and v |
| GraphModel.GraphColors | GT-9900-2nd-Project-9830339-v3.py:64-66 | the set never holds "not adjacent"; it holds "uncoloured" exactly when some edge is uncoloured; it holds colour k exactly when some cell has colour k |
| GraphModel.ColorCountBound | GT-9900-2nd-Project-9830339-v3.py:64-66 | a full colouring with colours below the bound has at most that many distinct colours |
| GraphModel.ClearGraph | GT-9900-2nd-Project-9830339-v3.py:86-91 | the new matrix is the old one with every edge uncoloured and every non-edge left alone |
| GraphModel.Cleared | GT-9900-2nd-Project-9830339-v3.py:86-91 | clearing keeps the adjacency and leaves no coloured cell |
| GraphModel.ClearedIdempotent | GT-9900-2nd-Project-9830339-v3.py:86-91 | clearing twice is clearing once |
| GraphModel.ClearedSimple | GT-9900-2nd-Project-9830339-v3.py:86-91 | the cleared matrix of a graph with symmetric adjacency and no self-loop is symmetric and trivially proper |
| GraphModel.CheckCell | GT-9900-2nd-Project-9830339-v3.py:99-101 | returns true exactly when the edge (v, x) passes the test: not uncoloured when uncoloured edges are refused, and no other edge at v holds an equal cell |
| GraphModel.CheckVertex | GT-9900-2nd-Project-9830339-v3.py:96-101 | returns true exactly when every edge at v passes the test |
| GraphModel.CheckGraph | GT-9900-2nd-Project-9830339-v3.py:94-102 | returns true exactly when every edge passes the test at both of its ends |
| GraphModel.IsGraphValid | GT-9900-2nd-Project-9830339-v3.py:94-102 | the check as written: true exactly when no edge is refused for being uncoloured (when asked) and no two edges at one vertex hold equal cells, two uncoloured cells included |
| GraphModel.ValidSpecProper | GT-9900-2nd-Project-9830339-v3.py:94-102 | when uncoloured cells do not clash, the test holds exactly when the colouring is proper (and fully coloured, if that is asked) |
| GraphModel.ValidSpecFull | GT-9900-2nd-Project-9830339-v3.py:94-102 | with uncoloured edges refused, the check as written holds exactly when the colouring is proper and full |
| GraphModel.IsProperlyColored | GT-9900-2nd-Project-9830339-v3.py:94-102 | corrected check: true exactly when the colouring is proper, and also full when noUnColored is set |
| GraphModel.IsGraphValidRejectsUncoloredPair | GT-9900-2nd-Project-9830339-v3.py:100-101 | the path 0-1-2 with both edges uncoloured is properly (partially) coloured, yet the check as written rejects it even with noUnColored false |
| FanBuilder.FirstFromBFrom | GT-9900-2nd-Project-9830339-v3.py:128-134 | a found vertex is at or after the start column, has a coloured edge to X, is not in F, and has a colour in the free list; every vertex skipped on the way fails one of these |
| FanBuilder.FirstFromB | GT-9900-2nd-Project-9830339-v3.py:125-134 | a found vertex extends the fan, and no lower-index vertex does; finding none means the fan is maximal |
| FanBuilder.MaximalFanOf | GT-9900-2nd-Project-9830339-v3.py:137-153 | without a seed, there is no fan exactly when X has no uncoloured edge. Otherwise the result is a fan of X starting at X's lowest uncoloured edge. With a seed f, the fan starts at f. The fan is maximal, built by lowest-index choices, with distinct elements, and has at most n elements |
| FanBuilder.ChainGrows | GT-9900-2nd-Project-9830339-v3.py:151-152 | appending the lowest-index extending vertex keeps a distinct chain built by lowest choices |
| FanBuilder.FanAvoidsCentre | GT-9900-2nd-Project-9830339-v3.py:129-131 | every fan element is a neighbour of X and never X itself |
| FanBuilder.FanPrefix | GT-9900-2nd-Project-9830339-v3.py:245 | every non-empty prefix of a fan is a fan |
| FanBuilder.FanColorsChain | GT-9900-2nd-Project-9830339-v3.py:132 | each later fan edge is coloured, with a colour free at the previous fan vertex |
| PathInverter.StepFrom | GT-9900-2nd-Project-9830339-v3.py:169-173 | returns the lowest-index neighbour joined by the sought colour, or nothing exactly when that colour is free at the current vertex |
| PathInverter.NextNotOnPath | GT-9900-2nd-Project-9830339-v3.py:157-161 | in a proper colouring of a simple graph where c is free at X, the next vertex is never already on the path, so the walk cannot cycle |
| PathInverter.PathGrows | GT-9900-2nd-Project-9830339-v3.py:167-174 | one iteration keeps an alternating path from X of distinct vertices, with edges coloured d, c, d, ..., built by lowest-index choices |
| PathInverter.CDPathOf | GT-9900-2nd-Project-9830339-v3.py:156-176 | the result starts at X and has distinct vertices; consecutive edges are coloured d, c, d, ...; each step takes the lowest-index choice; the colour sought next is free at the last vertex. The loop ends after at most n vertices |
| PathInverter.PathLeavesByD | GT-9900-2nd-Project-9830339-v3.py:167-173 | the path leaves X by its d-edge, and it is X alone exactly when d is free at X |
| PathInverter.PathEdgeColored | GT-9900-2nd-Project-9830339-v3.py:158 | every path edge has colour c or d |
| PathInverter.PathClosed | GT-9900-2nd-Project-9830339-v3.py:158-161 | every c- or d-coloured edge at a path vertex is itself a path edge |
| PathInverter.InvertStep | GT-9900-2nd-Project-9830339-v3.py:183-188 | inverting the next path edge writes that edge only (both directions), with c and d swapped |
| PathInverter.InvertCDPathOf | GT-9900-2nd-Project-9830339-v3.py:179-188 | the path is the c/d path of X in the old matrix; the new matrix swaps c and d on exactly its edges, both directions, and leaves every other cell alone |
| PathInverter.Inverted | GT-9900-2nd-Project-9830339-v3.py:183-188 | the inverted matrix holds the swapped cell on path edges and the old cell elsewhere |
| PathInverter.InvertedCell | GT-9900-2nd-Project-9830339-v3.py:185-188 | cell by cell, the inversion keeps symmetry, adjacency, uncoloured cells and every colour other than c and d |
| PathInverter.InvertedSimple | GT-9900-2nd-Project-9830339-v3.py:179-188 | the inverted matrix is simple and has the same edges |
| PathInverter.InvertedOtherCells | GT-9900-2nd-Project-9830339-v3.py:179-188 | only cells coloured c or d change |
| PathInverter.InvertedProper | GT-9900-2nd-Project-9830339-v3.py:179-188 | the inversion keeps the colouring proper |
| PathInverter.InvertedProperAt | GT-9900-2nd-Project-9830339-v3.py:179-188 | properness of the inverted matrix at one vertex and two of its edges |
| PathInverter.InvertedFreesD | GT-9900-2nd-Project-9830339-v3.py:230 | after the inversion, d is free at X |
| PathInverter.InvertedOffPath | GT-9900-2nd-Project-9830339-v3.py:183-188 | a cell with an end off the path keeps its value |
| PathInverter.FreeOtherColor | GT-9900-2nd-Project-9830339-v3.py:179-188 | a colour other than c and d is free after the inversion exactly where it was free before |
| PathInverter.FreeDOnlyAtEnd | GT-9900-2nd-Project-9830339-v3.py:161 | a path vertex other than X with d free is the last one, reached by a c-edge |
| PathInverter.InvertedFreesCAtEnd | GT-9900-2nd-Project-9830339-v3.py:179-188 | at the last vertex of a path that ends with a c-edge, c is free after the inversion |
| PathInverter.InvertedColorsBelow | GT-9900-2nd-Project-9830339-v3.py:179-188 | the inversion uses no colour outside a bound that c and d are below |
| PathInverter.InvertedUncolored | GT-9900-2nd-Project-9830339-v3.py:179-188 | the inversion changes no vertex's uncoloured edges |
| FanRotator.ShiftLeft | GT-9900-2nd-Project-9830339-v3.py:194 | position t of the result holds the element after t, cyclically, so the first element moves to the end; the result is a permutation of the input |
| FanRotator.FanColors | GT-9900-2nd-Project-9830339-v3.py:193 | the colours of the edges from X to the fan, in fan order |
| FanRotator.EdgesSetStep | GT-9900-2nd-Project-9830339-v3.py:196-197 | setting one more fan edge is one symmetric edge write |
| FanRotator.Rotated | GT-9900-2nd-Project-9830339-v3.py:191-197 | edge (X, F[t]) takes the old colour of (X, F[t+1]), cyclically, in both directions; every other cell is unchanged |
| FanRotator.RotateFan | GT-9900-2nd-Project-9830339-v3.py:191-197 | the new matrix is the left-rotated one |
| FanRotator.RotatedIsShift | GT-9900-2nd-Project-9830339-v3.py:193-194 | read along the fan, the new colours are the old ones shifted left by one |
| FanRotator.RotatedSymmetric | GT-9900-2nd-Project-9830339-v3.py:197 | the rotation keeps a simple graph simple, with the same edges |
| Colorer.ChooseColors | GT-9900-2nd-Project-9830339-v3.py:222-227 | d is the smallest colour free at F's last vertex; c is the smallest colour other than d free at X; both are below Δ+1 |
| Colorer.FanLinkSurvives | GT-9900-2nd-Project-9830339-v3.py:230 | a fan link whose edge is not coloured d survives the inversion |
| Colorer.FanPrefixSurvives | GT-9900-2nd-Project-9830339-v3.py:230 | the fan prefix before any d-coloured fan edge is still a fan after the inversion |
| Colorer.FanLinkFlipped | GT-9900-2nd-Project-9830339-v3.py:230 | when the path ends at F[t-1], the d-edge (X, F[t]) becomes c, which links it to F[t-1] |
| Colorer.OneDEdge | GT-9900-2nd-Project-9830339-v3.py:230 | in a proper colouring, at most one fan edge of X has colour d |
| Colorer.PathEndsAtFanVertex | GT-9900-2nd-Project-9830339-v3.py:230 | when F[t-1] is on the path, the path ends there, and F's last vertex is off the path |
| Colorer.WholeFanSurvives | GT-9900-2nd-Project-9830339-v3.py:230 | when the path ends at F[t-1], the whole fan is still a fan after the inversion |
| Colorer.LinksBeforeSurvive | GT-9900-2nd-Project-9830339-v3.py:230 | the uncoloured first edge and the links before the d-edge survive the inversion |
| Colorer.LinksAfterSurvive | GT-9900-2nd-Project-9830339-v3.py:230 | the links after the d-edge survive the inversion |
| Colorer.DFreeAtCentre | GT-9900-2nd-Project-9830339-v3.py:234-239 | case 1: when d was free at X, the path is X alone, and w can be F's last vertex |
| Colorer.PathEndsInFan | GT-9900-2nd-Project-9830339-v3.py:234-239 | case 2: when the path reaches F[t-1], w can be F's last vertex |
| Colorer.PrefixOffPath | GT-9900-2nd-Project-9830339-v3.py:234-239 | case 3: when F[t-1] is off the path, w can be F[t-1] |
| Colorer.DEdgeIntoFan | GT-9900-2nd-Project-9830339-v3.py:151 | by maximality, X's d-edge leads to a fan vertex past the first |
| Colorer.DTakenAtCentre | GT-9900-2nd-Project-9830339-v3.py:234-239 | when d is used at X, case 2 or case 3 gives w |
| Colorer.SomeFanVertexFreesD | GT-9900-2nd-Project-9830339-v3.py:234-242 | after the inversion, some fan vertex F[j] has d free and F[..j+1] is still a fan, so the `w is None` branch is unreachable |
| Colorer.AfterInversion | GT-9900-2nd-Project-9830339-v3.py:230-231 | after the inversion, the colouring is still proper on the same simple graph and within the bound; uncoloured edges are unchanged; d is free at X; some fan prefix ends where d is free |
| Colorer.InvertAndLocate | GT-9900-2nd-Project-9830339-v3.py:230-231 | the returned path is the c/d path of X in the old matrix, and the new matrix is the old one with that path inverted; it also carries the facts of AfterInversion about the new matrix |
| Colorer.FirstFreeingD | GT-9900-2nd-Project-9830339-v3.py:235-242 | returns the position of the first fan vertex with d free; it is found at or before any position known to have d free |
| Colorer.PrefixReady | GT-9900-2nd-Project-9830339-v3.py:245 | the sub-fan F[:wPos+1] is a fan ending where d is free, with d also free at X |
| Colorer.Recolored | GT-9900-2nd-Project-9830339-v3.py:248-249 | the rotated matrix with (X, w) coloured d |
| Colorer.RecoloredFanCell | GT-9900-2nd-Project-9830339-v3.py:248-249 | fan edge t takes the next fan edge's colour, and the last edge takes d, both directions |
| Colorer.RecoloredOtherCell | GT-9900-2nd-Project-9830339-v3.py:248-249 | every cell off the fan edges is unchanged |
| Colorer.RotationReadyFanOf | GT-9900-2nd-Project-9830339-v3.py:248 | a fan ready to rotate has distinct vertices, all neighbours of X and none X itself |
| Colorer.NewCellFacts | GT-9900-2nd-Project-9830339-v3.py:248-249 | every new fan-edge colour is free at its fan vertex, is used by no non-fan edge of X, and differs from every other new fan-edge colour |
| Colorer.RecoloredProperAt | GT-9900-2nd-Project-9830339-v3.py:248-249 | properness of the recoloured matrix at one vertex and two of its edges |
| Colorer.RecoloredProper | GT-9900-2nd-Project-9830339-v3.py:248-249 | rotation followed by colouring (X, w) with d keeps the colouring proper |
| Colorer.RotationReadyFanEdges | GT-9900-2nd-Project-9830339-v3.py:248 | the first fan edge is an edge and every later one is coloured |
| Colorer.RecoloredCell | GT-9900-2nd-Project-9830339-v3.py:248-249 | cell by cell, the recolouring is symmetric, keeps adjacency and adds no uncoloured edge |
| Colorer.RecoloredCellBelow | GT-9900-2nd-Project-9830339-v3.py:248-249 | cell by cell, the recolouring uses no colour outside the bound |
| Colorer.RecoloredSimple | GT-9900-2nd-Project-9830339-v3.py:248-249 | the recolouring keeps the graph simple, with the same edges |
| Colorer.RecoloredBelow | GT-9900-2nd-Project-9830339-v3.py:248-249 | the recolouring uses no colour outside the bound |
| Colorer.RecoloredProgress | GT-9900-2nd-Project-9830339-v3.py:248-249 | no vertex gains an uncoloured edge, and X loses one (its first fan edge) |
| Colorer.RecoloredStep | GT-9900-2nd-Project-9830339-v3.py:244-249 | the rotation step keeps a proper colouring of the same simple graph within the bound; X has strictly fewer uncoloured edges and no vertex has more |
| Colorer.RotateAndColor | GT-9900-2nd-Project-9830339-v3.py:248-249 | in place: the new matrix is the recoloured one, with RecoloredStep's facts |
| Colorer.StepsCompose | GT-9900-2nd-Project-9830339-v3.py:230-249 | for any three matrices: if the first change keeps adjacency and every uncoloured set, and the second keeps adjacency, adds no uncoloured edge and strictly shrinks X's, then together they keep adjacency and strictly shrink X's |
| Colorer.PrepareRotation | GT-9900-2nd-Project-9830339-v3.py:222-245 | d is the smallest colour free at F's last vertex, and c the smallest other colour free at X. The new matrix is the old one with the c/d path of X inverted. wPos is the first fan position where d is then free. F[:wPos+1] is ready to rotate, and the colouring stays proper below Δ+1 with the same uncoloured edges |
| Colorer.MisraGriesStep | GT-9900-2nd-Project-9830339-v3.py:222-250 | d is the smallest colour free at F's last vertex, and c the smallest other colour free at X. The path is the c/d path of X. wPos is the first fan position with d free after the inversion. The new matrix is the old one with that path inverted, then F[:wPos+1] rotated and (X, F[wPos]) coloured d. The colouring stays proper on the same simple graph with colours below Δ+1. X has strictly fewer uncoloured edges and no vertex gains one |
| Colorer.UncoloredInEmpty | GT-9900-2nd-Project-9830339-v3.py:219-220 | a vertex's set of uncoloured columns is empty exactly when its row holds no uncoloured cell |
| Colorer.DegreesKept | GT-9900-2nd-Project-9830339-v3.py:212 | recolouring keeps every vertex degree at most Δ |
| Colorer.SubsetsCompose | GT-9900-2nd-Project-9830339-v3.py:212 | for any three matrices: two successive changes that each add no uncoloured edge together add none |
| Colorer.ExtendRun | GT-9900-2nd-Project-9830339-v3.py:213-250 | one pass of the loop body at X, with the fan maximalFanOf builds, appends to the run the step it takes. The run stays chained and in order and ends at the new matrix. The colouring stays proper below Δ+1, and X loses an uncoloured edge |
| Colorer.ColorVertex | GT-9900-2nd-Project-9830339-v3.py:211-250 | the `while changed` loop ends, and leaves X with no uncoloured edge; it keeps the invariants and adds no uncoloured edge anywhere. The returned run starts at the matrix the loop started with and ends at the final one. Each of its steps is at X, and is the step the loop takes from the matrix the step before left |
| Colorer.ClearedStart | GT-9900-2nd-Project-9830339-v3.py:206 | after clearing, the colouring is proper and simple on the same graph; every degree is at most Δ, and Δ ≤ n |
| Colorer.DoneStaysDone | GT-9900-2nd-Project-9830339-v3.py:209-212 | for any two matrices: if the second adds no uncoloured edge and X has none left, then the vertices before X that had none still have none, and neither does X |
| Colorer.Finished | GT-9900-2nd-Project-9830339-v3.py:200-201 | once no vertex has an uncoloured edge, the colouring is full, passes the validity check, and uses at most Δ+1 distinct colours |
| Colorer.ColorGraph | GT-9900-2nd-Project-9830339-v3.py:200-252 | the result has the input's edges, is symmetric, fully and properly coloured, accepted by the source's validity check, with every colour below Δ+1 and at most Δ+1 distinct colours. The returned run starts at the cleared matrix and ends at the result. Each of its steps is taken at the lowest vertex that still has an uncoloured edge, and is the step the loop takes from the matrix the step before left |
| Colorer.FanChoiceUnique | GT-9900-2nd-Project-9830339-v3.py:137-153 | two maximal fans of X, both built by lowest-index choices from X's lowest-index uncoloured edge, are equal |
| Colorer.CDPathUnique | GT-9900-2nd-Project-9830339-v3.py:156-176 | in a proper colouring, two complete c/d paths from X are equal |
| Colorer.ColorChoiceUnique | GT-9900-2nd-Project-9830339-v3.py:222-227 | the smallest free colour d at F's last vertex and the smallest other free colour c at X are unique |
| Colorer.WChoiceUnique | GT-9900-2nd-Project-9830339-v3.py:235-240 | the first fan position at which d is free is unique |
| Colorer.StepUnique | GT-9900-2nd-Project-9830339-v3.py:213-250 | two steps the loop could take at X from the same matrix are equal: same fan, c, d, path, w and resulting matrix |
| Colorer.SameVertex | GT-9900-2nd-Project-9830339-v3.py:209-220 | two steps from the same matrix, each at a vertex with no uncoloured edge below it, are at the same vertex |
| Colorer.RunUnique | GT-9900-2nd-Project-9830339-v3.py:206-250 | two ordered runs of loop steps from the same matrix that both end with every edge coloured are the same run, so they leave the same colouring |

## Left out

- printGraph, printStandardGraph, constructStandardGraph and the `__main__` block (lines 13-28, 40-44, 69-83 and 255 on) are standard-input and standard-output code. They are not modelled, and neither are the `_DEBUG` prints inside the core functions.
- GraphModel.GraphFrom: requires edgeCount to be at most the length of the edge list; Python raises IndexError at `edges[i]` otherwise. It also requires every endpoint to be below vertCount. Python would accept a negative index and wrap it. Colours are natural numbers, so a negative colour other than the uncoloured marker -1 is not represented, and neither is an edge given with an explicit colour of -1. An edge with no colour entry is uncoloured.
- Colorer.ColorGraph: requires symmetric adjacency and no self-loop, which is the simple undirected graph the program is written for. On other inputs the Python can behave differently (a self-loop shares a colour with itself). The Python returns the same list it mutated; the model mutates the array in place and returns only the ghost run of steps.
- FanRotator.RotateFan: requires a non-empty fan; on an empty one Python raises IndexError at `colors.pop(0)`. It also requires the fan vertices to be distinct, to lie in the graph and to differ from X. Every fan built by maximalFanOf has these properties (FanBuilder.MaximalFanOf, FanBuilder.FanAvoidsCentre).
- PathInverter.CDPathOf and PathInverter.InvertCDPathOf: require a proper colouring of a simple graph with c free at X, as the docstring of getCDPathOf assumes. Without it the Python loop need not terminate.
- PathInverter.InvertCDPathOf: returns its path as a ghost value, for use in the proofs only. The Python discards the path.
- FanBuilder.MaximalFanOf: models the optional f argument as an Option. colorGraph always calls it without f.
- The commented-out right-shift alternative on line 195 is not modelled.
- Python's identity tests against None and -1 are modelled as tests of the cell's variant.
- Colorer.MisraGriesStep: the body of the `while changed` loop (lines 213-250) is split into ChooseColors, InvertAndLocate, FirstFreeingD and RotateAndColor. The second `changed = True` (line 250) is redundant after the one on line 231 and is folded into it. The `w is None` branch is proved unreachable, so it is not modelled as a path of its own.
- GraphModel.IsGraphValid: the scan over each vertex and its neighbours is CheckGraph, CheckVertex and CheckCell. Each returns at the first failing edge, as the Python does.
- Colorer.ColorVertex: termination is measured by X's set of uncoloured edges, which every step shrinks strictly. This replaces the source's comment that the loop runs at most deg(X) times.

## Findings

| source | as written | input that shows it | evidently intended | confidence | as-written member | corrected member |
|---|---|---|---|---|---|---|
| GT-9900-2nd-Project-9830339-v3.py:100-101 | `isGraphValid(graph, noUnColored=False)` compares every pair of distinct neighbours with `==`, so two uncoloured edges at one vertex count as a clash | the path 0-1-2 with both edges uncoloured: proper, yet rejected with noUnColored false | with noUnColored false, a partial colouring is valid when no two coloured edges at a vertex share a colour | not executed | GraphModel.IsGraphValidRejectsUncoloredPair | GraphModel.IsProperlyColored |
