# GraphGenerators in Dafny

This project models the core of GraphGenerators, a Java library that builds
random and structured graphs, and proves properties of the model.

Most of the library is a combinatorial planar-embedding engine:

- Half-edges come in twin pairs (`PlanarEdge`). Each carries a start vertex, a
  left face and an index.
- Every vertex (`PlanarVertex`) lists its outgoing half-edges in clockwise
  order; this list is its rotation.
- Every face (`PlanarFace`) lists its boundary half-edges counter-clockwise.
- `PlanarGraph` owns the three lists and answers `isValid`. That check runs
  the per-vertex, per-edge and per-face tests, then tests Euler's formula
  n - m + f = 2.

On top of the engine, `PlanarGraphGeneration` builds graphs by rewiring in
place:

- Apollonian networks: a triangle is repeatedly subdivided by a new vertex.
- Random edge flips: the diagonal of two adjacent triangles is swapped.
- 1-planar augmentation: each new edge joins the two vertices facing an
  original edge across its two triangles, and no triangle serves two new
  edges, so at most n - 2 edges are added.
- Dual graphs.
- Conversion to the flat model.

The flat model (`Graph`, `Vertex`, `Edge`) keeps edge lists per vertex. Many
generators build on it: path, cycle, star, complete graph, Prüfer tree,
maximal outerplanar graph, k-tree, hypercube, cube-connected cycles,
circulant graph and permutation graph. Also built on it are the graph
product, the connectivity, bipartiteness and tree checks, and the random
helpers (`randomIntUnequalTo`, Fisher-Yates `randomPermutation`).

## How the model is organised

- **Handles instead of pointers.** The planar engine is an arena
  (`PlanarEmbedding.Embedding`): vertices, half-edges and faces sit in
  sequences and are addressed by their position.
  - The twin of half-edge `h` is a stored handle.
  - Rotation and boundary lists are sequences of handles.
  - Java's identity-based `indexOf` and `remove(Object)` become
    first-occurrence operations (module `Lists`).
- **Classes for the code that mutates.**
  - `PlanarGraphs.PlanarGraph` holds the arena as fields. Every mutator of
    `PlanarVertex`, `PlanarFace` and `PlanarEdge` is a method of that class
    that states the new arena.
  - `FlatGraphs.Graph` holds the flat graph.
  - `Trees.Tree` is the tree node.
- **Generators are methods; their meaning lives in functions.** The
  generators are methods with the source's loops. Each one is proved against
  a function that lists the pairs it adds (`GraphGeneration.Holds`) or the
  arena it builds (`Subdivision.Subdivide`, `EdgeFlips.Flip`,
  `PlanarDual.DualOf`). Lemmas about those functions state the counts, the
  adjacency and the invariants.
- **Randomness.** `java.util.Random` is an object holding an arbitrary
  stream of draws (`JavaRandom.Random`). `nextInt(b)` returns some value in
  `[0, b)`, and every property is proved for every stream. A seed stands for
  the stream it determines. Where a generator makes its own generator from a
  seed, the model takes a draw function `draws: nat -> nat`.
- **Exceptions** are values: `Result` (a value or an exception) and
  `Outcome` (done or an exception).

The model follows the code wherever the code and its documentation
disagree:

- `isBipartite` colours only the component of vertex 0 (see Findings).
- `createPrueferTree` decodes a permutation (see Findings).
- `createMaxPlanarGraph(numVertices, numFlips, seed)` and
  `createMaxOnePlanarGraph` in `GraphGeneration` test `numVertices < 0` where
  the message speaks of a negative number of flips. That branch can never
  be reached, and a negative number of flips is not refused.
- `PlanarVertex.isValid` and `PlanarFace.isValid` read position `size - 1`,
  so they throw on an empty list.
- `createMaxOnePlanarGraph` documents and checks "at least 3 vertices"
  (`GraphGeneration.java:481-483`), and its unit test draws n from 3 to 52
  (`GraphGenerationTest.java:104`). Yet `flipEdges` throws
  IllegalArgumentException below five vertices
  (`PlanarGraphGeneration.java:163-164`), so n = 3 and n = 4 throw. The
  model states that throw, and the properties cited from that test are
  proved for n >= 5 only.
- `create1PlanarGraph` run on the three-vertex Apollonian network would add
  a loop, because `hasNeighbor(x)` is false for x itself. The generators
  reach it only with five or more vertices.
- `GraphGeneration.java:715` and `:861` chain `.setName(...)` onto a call of
  `setName`, which returns `void` (`Graph.java:226`), so those lines do not
  compile as written. The model returns the graph those lines build
  (the cycle on 8 vertices, the edgeless graph); names are text and left out.

## Model

| member | source | states |
|---|---|---|
| Lists.IndexOf | src/model/PlanarVertex.java:52-55 | The position `indexOf` finds is the first occurrence of the element, and it is -1 exactly when the element is absent |
| Lists.InsertAfterPlacement | src/model/PlanarVertex.java:52-55 | Inserting behind an anchor puts the new entry right after the anchor's first occurrence and keeps the other entries in order; with no anchor the new entry goes to the front |
| Lists.RemoveFirstSpec | src/model/PlanarVertex.java:73-75 | Removing deletes exactly the first occurrence and keeps the order of the rest; an absent element leaves the list unchanged |
| Lists.NextOfPrev | src/model/PlanarVertex.java:81-95 | In a rotation without repetitions, the cyclic successor of the predecessor of `e` is `e`, and the other way round |
| Lists.Reverse | src/algorithms/PlanarGraphGeneration.java:410-411 | `Collections.reverse` puts entry `i` at position `len - 1 - i` |
| Lists.ReverseReverse | src/model/PlanarVertex.java:119-126 | Reversing twice gives back the list |
| Lists.InsertAfterNext | src/model/PlanarVertex.java:52-55 | After a fresh entry is inserted behind a present anchor, the anchor's cyclic successor is the new entry, the new entry's successor is the anchor's old successor, and every other successor is unchanged |
| Lists.RemoveFirstNext | src/model/PlanarVertex.java:73-75 | After an entry is removed, its predecessor leads to its old successor, and every other successor is unchanged |
| Lists.InsertAfterDistinct | src/model/PlanarVertex.java:52-55 | Inserting a fresh entry keeps the list free of repetitions |
| Lists.NextCyclicMoves | src/model/PlanarVertex.java:81-85 | With two or more distinct entries, no entry is its own cyclic successor |
| PlanarEmbedding.Twin | src/model/PlanarEdge.java:120-122 | `getReversedEdge` is a half-edge of the arena |
| PlanarEmbedding.Start | src/model/PlanarEdge.java:66-68 | `getStart` is a vertex of the arena |
| PlanarEmbedding.Target | src/model/PlanarEdge.java:73-75 | `getTarget` is a vertex of the arena: the start of the twin |
| PlanarEmbedding.LeftFace | src/model/PlanarEdge.java:156-158 | `getLeftFace` is a face of the arena |
| PlanarEmbedding.RightFace | src/model/PlanarEdge.java:171-173 | `getRightFace` is the twin's left face |
| PlanarEmbedding.NextEdgeAtStart | src/model/PlanarEdge.java:127-129 | `getNextEdgeAtStart` is the clockwise successor in the start's rotation; an empty rotation throws IndexOutOfBoundsException |
| PlanarEmbedding.PreviousEdgeAtStart | src/model/PlanarEdge.java:149-151 | `getPreviousEdgeAtStart` is the clockwise predecessor in the start's rotation; a half-edge missing from that rotation throws |
| PlanarEmbedding.NextEdge | src/model/PlanarEdge.java:134-136 | `getNextEdge` is the successor of the twin in the rotation at the target |
| PlanarEmbedding.PreviousEdge | src/model/PlanarEdge.java:141-143 | `getPreviousEdge` is the twin of the predecessor at the start |
| PlanarEmbedding.EdgeValidity | src/model/PlanarEdge.java:184-207 | `PlanarEdge.isValid` is true exactly when the next and the previous edge share the left face and the twin is the previous edge of the next edge at the start; the lookups that can throw are propagated |
| PlanarEmbedding.FirstFailureAt | src/model/PlanarGraph.java:132-165 | A loop that stops at the first failing check returns the first entry that is not `true` |
| PlanarInvariants.TwinTwin | src/model/PlanarEdge.java:53-61 | In a well-formed arena the twin of the twin is the half-edge itself and differs from it |
| PlanarInvariants.PreviousOfNext | src/model/PlanarEdge.java:134-143 | In consistent rotation and boundary lists, the previous edge of the next edge along a face is the half-edge itself, and the next edge is its successor on the boundary |
| PlanarInvariants.NextOfPrevious | src/model/PlanarEdge.java:134-143 | The next edge of the previous edge is the half-edge itself |
| PlanarInvariants.EdgeValid | src/model/PlanarEdge.java:184-207 | In consistent lists every half-edge passes `PlanarEdge.isValid` |
| PlanarInvariants.VertexValid | src/model/PlanarVertex.java:168-188 | In consistent lists every vertex with a non-empty rotation passes `PlanarVertex.isValid` |
| PlanarInvariants.FaceChainValid | src/model/PlanarFace.java:108-124 | The walk along a consistent boundary finds each next edge's previous edge to be the current one |
| PlanarInvariants.FaceValid | src/model/PlanarFace.java:100-127 | In consistent lists every non-empty face passes `PlanarFace.isValid` |
| PlanarInvariants.GraphValidityMeaning | src/model/PlanarGraph.java:132-165 | `PlanarGraph.isValid` holds exactly when every vertex, every listed edge and every face passes its own check and n - m + f = 2 |
| PlanarInvariants.ConsistentMapsAreValid | src/model/PlanarGraph.java:132-165 | With consistent lists and no empty rotation or face, `isValid` is exactly Euler's formula |
| PlanarInvariants.PlaneTriangulationIsValid | src/model/PlanarGraph.java:157-162 | Every plane triangulation passes `PlanarGraph.isValid` |
| PlanarInvariants.TriangleFace | src/model/PlanarGraph.java:100-107 | Every face of a plane triangulation is a triangle of three distinct half-edges between three distinct vertices |
| PlanarInvariants.NextEdgeIs | src/model/PlanarEdge.java:134-136 | `getNextEdge` read off the rotation at the target, in terms of the lists |
| PlanarGraphs.PlanarGraph.constructor | src/model/PlanarGraph.java:36-43 | The given vertex, edge and face lists are stored as they are (the generators pass empty lists and fill them in place) |
| PlanarGraphs.PlanarGraph.GetN | src/model/PlanarGraph.java:49-51 | `getN` is the size of the vertex list |
| PlanarGraphs.PlanarGraph.GetM | src/model/PlanarGraph.java:56-58 | `getM` is the size of the edge list |
| PlanarGraphs.PlanarGraph.GetF | src/model/PlanarGraph.java:63-65 | `getF` is the size of the face list |
| PlanarGraphs.PlanarGraph.AddEdge | src/model/PlanarGraph.java:92-94 | `addEdge` appends one edge and changes nothing else |
| PlanarGraphs.PlanarGraph.NewVertex | src/model/PlanarVertex.java:24-26 | A new vertex with the given id and an empty rotation is appended |
| PlanarGraphs.PlanarGraph.NewFace | src/model/PlanarFace.java:18-20 | A new face with the given index and an empty boundary is appended |
| PlanarGraphs.PlanarGraph.VertexAddEdgeAfter | src/model/PlanarVertex.java:52-55 | The rotation gains the edge right behind the first occurrence of `after`, or at the front; nothing else changes |
| PlanarGraphs.PlanarGraph.VertexAddEdgeAtEnd | src/model/PlanarVertex.java:63-65 | The rotation gains the edge at its end; nothing else changes |
| PlanarGraphs.PlanarGraph.VertexReverseEdges | src/algorithms/PlanarGraphGeneration.java:410-411 | The rotation is reversed; nothing else changes |
| PlanarGraphs.PlanarGraph.VertexRemoveEdge | src/model/PlanarVertex.java:73-75 | The rotation loses the first occurrence of the edge only |
| PlanarGraphs.PlanarGraph.NeighborsCW | src/model/PlanarVertex.java:108-114 | `getNeighborsCW` has one entry per rotation entry: its target, in order |
| PlanarGraphs.PlanarGraph.NeighborsCCW | src/model/PlanarVertex.java:119-126 | `getNeighborsCCW` is `getNeighborsCW` reversed |
| PlanarGraphs.PlanarGraph.HasNeighbor | src/model/PlanarVertex.java:135-142 | `hasNeighbor(w)` holds exactly when some rotation entry ends at `w` |
| PlanarGraphs.PlanarGraph.GetEdgeTo | src/model/PlanarVertex.java:148-156 | `getEdgeTo(w)` is the first rotation entry ending at `w`, or null when there is none |
| PlanarGraphs.PlanarGraph.VertexIsValid | src/model/PlanarVertex.java:168-188 | `PlanarVertex.isValid` is true exactly when every entry starts at the vertex and each entry's right face is its successor's left face; an empty rotation throws |
| PlanarGraphs.PlanarGraph.SetReversedEdge | src/model/PlanarEdge.java:109-115 | The twin link can be set once; a second call throws IllegalStateException and changes nothing |
| PlanarGraphs.PlanarGraph.EdgeFactory | src/model/PlanarEdge.java:53-61 | Two fresh twins are appended with the same index: `s -> t` with the given left face and `t -> s` with the given right face |
| PlanarGraphs.PlanarGraph.SetStart | src/model/PlanarEdge.java:83-85 | Only this half's start changes |
| PlanarGraphs.PlanarGraph.SetTarget | src/model/PlanarEdge.java:93-95 | Only the twin's start changes |
| PlanarGraphs.PlanarGraph.SetLeftFace | src/model/PlanarEdge.java:164-166 | Only this half's left face changes |
| PlanarGraphs.PlanarGraph.FaceAddEdgeAtEnd | src/model/PlanarFace.java:52-54 | The boundary gains the edge at its end, and the call reports true |
| PlanarGraphs.PlanarGraph.FaceAddEdgeAfter | src/model/PlanarFace.java:64-67 | The boundary gains the edge right behind the anchor's first occurrence |
| PlanarGraphs.PlanarGraph.FaceReverseEdges | src/algorithms/PlanarGraphGeneration.java:428-429 | The boundary is reversed |
| PlanarGraphs.PlanarGraph.FaceRemoveEdge | src/model/PlanarFace.java:73-75 | The first occurrence is removed; the result says whether there was one, and the size drops by one exactly then |
| PlanarGraphs.PlanarGraph.FaceVertices | src/model/PlanarFace.java:32-38 | `getVertices` has one entry per boundary entry: its start |
| PlanarGraphs.PlanarGraph.FaceIsValid | src/model/PlanarFace.java:100-127 | `PlanarFace.isValid` is true exactly when every entry has this face on its left and consecutive entries are each other's next and previous edges; an empty boundary throws |
| PlanarGraphs.PlanarGraph.IsTriangulated | src/model/PlanarGraph.java:100-107 | True exactly when every face has three boundary entries |
| PlanarGraphs.PlanarGraph.IsThreeRegular | src/model/PlanarGraph.java:112-119 | True exactly when every rotation has three entries |
| PlanarGraphs.PlanarGraph.IsValid | src/model/PlanarGraph.java:132-165 | The vertex checks, then the edge checks, then the face checks, then Euler's formula, with the first exception propagated |
| Apollonian.BaseTriangleIsPlaneTriangulation | src/algorithms/PlanarGraphGeneration.java:35-71 | The base triangle is a plane triangulation with 3 vertices, 3 edges and 2 faces |
| Subdivision.Subdivide | src/algorithms/PlanarGraphGeneration.java:74-124 | Subdividing a face adds one vertex, six half-edges (three edges) and two faces |
| Subdivision.SubdividedRotationMembers | src/algorithms/PlanarGraphGeneration.java:106-112 | Each corner's rotation gains exactly its new half-edge, the new vertex lists its three spokes, and the other rotations are unchanged |
| Subdivision.SubdivideWf | src/algorithms/PlanarGraphGeneration.java:74-124 | Subdividing keeps the arena well formed |
| Subdivision.SubdivideLayout | src/algorithms/PlanarGraphGeneration.java:84-100 | Vertex ids, face indices and edge indices stay equal to their positions |
| Subdivision.SubdivideRotationsOk | src/algorithms/PlanarGraphGeneration.java:106-112 | Every rotation still lists, without repetition, exactly the half-edges starting at its vertex |
| Subdivision.SubdivideBoundariesOk | src/algorithms/PlanarGraphGeneration.java:114-124 | Every boundary still lists, without repetition, exactly the half-edges with its face on the left |
| Subdivision.SubdivideConsistent | src/algorithms/PlanarGraphGeneration.java:102-124 | Rotations and boundaries still describe the same faces |
| Subdivision.SubdivideTriangulated | src/algorithms/PlanarGraphGeneration.java:114-124 | Every face stays a triangle: f1 loses two edges and gains two, f2 and f3 get three each |
| Subdivision.SubdivideSimple | src/algorithms/PlanarGraphGeneration.java:94-100 | No loop and no parallel edge appears |
| Subdivision.SubdivideDegrees | src/algorithms/PlanarGraphGeneration.java:106-112 | Every vertex keeps degree at least 3 |
| Subdivision.SubdivideCounts | src/algorithms/PlanarGraphGeneration.java:84-100 | One more vertex, three more edges and two more faces keep the counts 3n - 6 and 2n - 4 |
| Subdivision.SubdividePreserves | src/algorithms/PlanarGraphGeneration.java:74-124 | Subdividing any face of a plane triangulation gives a plane triangulation with one more vertex |
| Subdivision.SubdividedHalfEdgesForm | src/algorithms/PlanarGraphGeneration.java:94-104 | The half-edges after the step: the new ones appended, e1 and e2 moved to f2 and f3 |
| Subdivision.SubdividedVerticesForm | src/algorithms/PlanarGraphGeneration.java:84-112 | The rotations after the step: x's rotation appended, the corners' rotations each extended by one |
| Subdivision.SubdividedFacesForm | src/algorithms/PlanarGraphGeneration.java:88-124 | The boundaries after the step: f2 and f3 appended, f1 replaced |
| PlanarGeneration.CreateApollonianNetwork | src/algorithms/PlanarGraphGeneration.java:25-130 | Fewer than three vertices throw IllegalArgumentException; otherwise the result is a plane triangulation with n vertices, 3n - 6 edges and 2n - 4 faces, whatever the draws |
| PlanarGeneration.BuildBaseTriangle | src/algorithms/PlanarGraphGeneration.java:35-71 | Step 1 builds exactly the base triangle |
| PlanarGeneration.BaseVerticesAndFaces | src/algorithms/PlanarGraphGeneration.java:36-42 | Steps 1 a) and b) add three vertices and two faces |
| PlanarGeneration.BaseEdges | src/algorithms/PlanarGraphGeneration.java:43-46 | Step 1 c) adds the three twin pairs with the inner face on the left |
| PlanarGeneration.BaseRotations | src/algorithms/PlanarGraphGeneration.java:47-53 | Step 1 d) fills the rotations of the base triangle |
| PlanarGeneration.BaseBoundaries | src/algorithms/PlanarGraphGeneration.java:54-62 | Step 1 e) lists the reversed edges on the outer face and the edges on the inner face |
| PlanarGeneration.SubdivideFace | src/algorithms/PlanarGraphGeneration.java:74-124 | One loop iteration turns the arena into `Subdivide` of the chosen face |
| PlanarGeneration.AddSubdivisionEntities | src/algorithms/PlanarGraphGeneration.java:84-104 | Steps 2 b) to e): the new vertex, the two faces, the three edges and the moved left faces |
| PlanarGeneration.AddSubdivisionEdges | src/algorithms/PlanarGraphGeneration.java:94-100 | Step 2 c) appends the three new edges to the edge list |
| PlanarGeneration.RewireRotations | src/algorithms/PlanarGraphGeneration.java:106-112 | Step 2 f) puts each corner's new edge right behind the twin of the boundary edge ending there, and fills x's rotation |
| PlanarGeneration.ReadCorners | src/algorithms/PlanarGraphGeneration.java:75-82 | The corners and boundary twins read during step 2 a) |
| PlanarGeneration.InsertAtCorners | src/algorithms/PlanarGraphGeneration.java:107-109 | The three `addEdgeAfter` calls at three distinct corners |
| PlanarGeneration.AddToNewVertex | src/algorithms/PlanarGraphGeneration.java:110-112 | The rotation of x is the three spokes' twins in clockwise order |
| PlanarGeneration.RewireBoundaries | src/algorithms/PlanarGraphGeneration.java:114-124 | Step 2 g) gives f1, f2 and f3 their three boundary edges each |
| PlanarGeneration.ShrinkFace | src/algorithms/PlanarGraphGeneration.java:115-118 | The split face keeps its first edge, loses the other two and gains two at the end |
| PlanarGeneration.FillFace | src/algorithms/PlanarGraphGeneration.java:119-124 | A new face receives its three boundary edges in order |
| PlanarGeneration.FlipAttempt | src/algorithms/PlanarGraphGeneration.java:177-187 | The neighbourhood lookups of one attempt, and its rejection when v1 already neighbours v3 |
| PlanarGeneration.FlipAt | src/algorithms/PlanarGraphGeneration.java:189-216 | An accepted attempt turns the arena into `Flip` of the attempt |
| PlanarGeneration.FlipRotations | src/algorithms/PlanarGraphGeneration.java:200-204 | Step c): the diagonal leaves v0 and v2 and enters v1 and v3 behind the named anchors |
| PlanarGeneration.FlipBoundaries | src/algorithms/PlanarGraphGeneration.java:212-216 | Step e): f1 trades e2 for e0 and f2 trades e0 for e2 |
| PlanarGeneration.FlipEdges | src/algorithms/PlanarGraphGeneration.java:162-218 | Fewer than five vertices throw IllegalArgumentException; otherwise n, m and f are unchanged, the arena stays well formed with the same handles, ids, indices and twins, and at most `numEdgesToFlip` flips are counted; a plane triangulation stays a plane triangulation through every flip |
| PlanarGeneration.FlipKeeps | src/algorithms/PlanarGraphGeneration.java:176-216 | One accepted flip keeps the arena well formed, the shape of the input and at least five vertices, and a plane triangulation stays one |
| PlanarGeneration.FlipNeverThrows | src/algorithms/PlanarGraphGeneration.java:169-194 | While the graph is a plane triangulation a flip attempt never throws |
| PlanarGeneration.CreateMaxPlanarGraph | src/algorithms/PlanarGraphGeneration.java:144-151 | Below five vertices IllegalArgumentException, and only then; otherwise a plane triangulation with n vertices, 3n - 6 edges and 2n - 4 faces, with ids and indices equal to positions |
| EdgeFlips.TryFlip | src/algorithms/PlanarGraphGeneration.java:177-194 | The lookups of an attempt in source order, the rejection when v1 neighbours v3, and the exception a lookup on an empty rotation raises |
| EdgeFlips.FlipShape | src/algorithms/PlanarGraphGeneration.java:196-216 | A flip keeps the arena well formed and all list sizes, and changes no index, twin, vertex id or face index |
| EdgeFlips.FlipRepoints | src/algorithms/PlanarGraphGeneration.java:196-198 | The flipped edge keeps its index and now runs from v1 to v3 |
| EdgeFlips.FlipDegrees | src/algorithms/PlanarGraphGeneration.java:200-204 | v0 and v2 lose one rotation entry each, v1 and v3 gain one, and all other rotations keep their length |
| EdgeFlips.FlipFaceSizes | src/algorithms/PlanarGraphGeneration.java:212-216 | When the two faces differ, every face keeps its number of boundary entries |
| EdgeFlips.FlipKeepsLayout | src/algorithms/PlanarGraphGeneration.java:196-216 | A flip keeps ids, indices and handles at their positions and the counts 3n - 6 and 2n - 4 |
| EdgeFlips.FlipKeepsTriangles | src/algorithms/PlanarGraphGeneration.java:206-216 | Under the conditions of a proper quadrilateral, a flip keeps every face a triangle |
| EdgeFlips.TryFlipInTriangulation | src/algorithms/PlanarGraphGeneration.java:177-194 | In a plane triangulation no lookup of an attempt throws |
| EdgeFlips.FlipConditions | src/algorithms/PlanarGraphGeneration.java:169-194 | In a plane triangulation with four or more vertices an accepted attempt sees four distinct corners and two distinct faces |
| EdgeFlips.FlipApexesDiffer | src/algorithms/PlanarGraphGeneration.java:177-182 | The apexes v1 and v3 of the two triangles differ |
| FlipTriangulation.FlipOfTriangulation | src/algorithms/PlanarGraphGeneration.java:176-216 | An accepted flip on a plane triangulation with four or more vertices gives a plane triangulation again: rotations, boundaries, consistency, no loops or parallel edges, degrees at least three and the counts; the flipped edge runs v1 -> v3, v0 and v2 lose one rotation entry and v1 and v3 gain one |
| FlipTriangulation.AroundFlip | src/algorithms/PlanarGraphGeneration.java:177-194 | An accepted attempt in a plane triangulation sees a quadrilateral v0 - v1 - v2 - v3 of two triangles: its sides, its two faces and the turns at its corners |
| FlipTriangulation.FlipRotationsOk | src/algorithms/PlanarGraphGeneration.java:200-204 | After step c) every rotation lists, without repetition, exactly the half-edges starting at its vertex |
| FlipTriangulation.FlipBoundariesOk | src/algorithms/PlanarGraphGeneration.java:206-216 | After steps d) and e) every boundary lists, without repetition, exactly the half-edges with its face on the left |
| FlipTriangulation.NewTriangles | src/algorithms/PlanarGraphGeneration.java:212-216 | The rewired faces are the triangles f1 = h -> e3 -> e0 and f2 = t -> e1 -> e2 |
| FlipTriangulation.NewTurns | src/algorithms/PlanarGraphGeneration.java:200-204 | The rewired rotations turn from the partner of e3 to e0 at v0, from the partner of e1 to e2 at v2, through the flipped edge at v1 and at v3 |
| FlipTriangulation.FlipConsistent | src/algorithms/PlanarGraphGeneration.java:196-216 | After the flip, `getNextEdge` of every half-edge is its successor along its face |
| FlipTriangulation.FlipSimple | src/algorithms/PlanarGraphGeneration.java:183-198 | Because v1 and v3 were not neighbours, the flip creates no loop and no parallel edge |
| FlipTriangulation.FlipDegreesOk | src/algorithms/PlanarGraphGeneration.java:200-204 | Every vertex keeps at least three rotation entries |
| FlipTriangulation.FlipDegreeAt | src/algorithms/PlanarGraphGeneration.java:200-204 | The same for one vertex: v0 and v2 lose one entry from at least four, v1 and v3 gain one, the rest keep theirs |
| EdgeFlips.SameShapeKeeps | src/algorithms/PlanarGraphGeneration.java:176-217 | Any number of flips keeps the handles, ids, indices, twins and the counts 3n - 6 and 2n - 4 |
| OnePlanar.Crossing | src/algorithms/PlanarGraphGeneration.java:271-319 | Steps 1 to 3 for position `i` of x's rotation: a candidate with a non-original edge (index at least m) is skipped by one or two positions, and a quadrilateral that does not close throws IllegalStateException |
| OnePlanar.CrossingAtU | src/algorithms/PlanarGraphGeneration.java:286-298 | Steps 2 and 3.1: from u the edge before the twin of xu must end at v, and the one before that leads to y |
| OnePlanar.CrossingAtV | src/algorithms/PlanarGraphGeneration.java:300-319 | Step 3.2: from v the edge after the twin of xv must be the twin of uv, and the one after it must end at y |
| OnePlanar.AddsEdgeWf | src/algorithms/PlanarGraphGeneration.java:327-337 | Adding a crossing edge keeps the arena well formed |
| OnePlanar.AddsEdgeFacts | src/algorithms/PlanarGraphGeneration.java:327-337 | Old half-edges keep start and twin; the new halves run x -> y and y -> x and are listed at their starts |
| OnePlanar.AddsEdgeNeighbors | src/algorithms/PlanarGraphGeneration.java:321-337 | A new edge between non-neighbours makes y a neighbour of x, so x's neighbour set strictly grows |
| OnePlanar.AugmentsStep | src/algorithms/PlanarGraphGeneration.java:321-337 | Adding the crossing edge numbered m + k between non-neighbours extends the augmentation invariant to k + 1 edges |
| OnePlanar.PutAfterPositions | src/algorithms/PlanarGraphGeneration.java:332-334 | The new half-edge lands right behind xu at x, its twin right behind the twin of vy at y |
| OnePlanar.CrossingAddsEdge | src/algorithms/PlanarGraphGeneration.java:327-337 | The two insertions with the appended pair are one augmentation step |
| OnePlanar.AddCrossingEdge | src/algorithms/PlanarGraphGeneration.java:327-337 | Step 5: `edgeFactory(x, y, ...)` with index m + k, the two insertions and `addEdge` |
| OnePlanar.Create1PlanarGraph | src/algorithms/PlanarGraphGeneration.java:233-343 | The graph only gains edges: m, m+1, ... each join two former non-neighbours, no two join the same pair, vertices and faces are unchanged, and the only exceptions are IllegalState and IndexOutOfBounds; on a plane triangulation, added edge j joins the apex x right of the recorded original half-edge `crossed[j]` to the apex y left of it, the two triangles at each crossed edge belong to no other added edge, and twice the number of added edges is at most the number of faces; on a plane triangulation nothing is thrown |
| OnePlanar.ScanRotation | src/algorithms/PlanarGraphGeneration.java:271-338 | The inner loop for x keeps the augmentation invariant, the crossing record, the occupied corners and the apart triangles, and ends; over a plane triangulation it never throws |
| OnePlanar.AddCrossingStep | src/algorithms/PlanarGraphGeneration.java:327-337 | Step 5 across a checked quadrilateral extends the invariant and the crossing record by one edge and gives x one more neighbour |
| OnePlanar.Create1PlanarGraphOfSize | src/algorithms/PlanarGraphGeneration.java:357-360 | Below five vertices IllegalArgumentException, and from five on a graph is always returned: n vertices, 2n - 4 faces and 3n - 6 + k edges, the plane triangulation `base` grown by k crossing edges, each joining the two apexes across the original half-edge it records, their triangles pairwise apart, so k <= n - 2 and m <= 4n - 8 |
| OnePlanar.ProposalCrosses | src/algorithms/PlanarGraphGeneration.java:271-319 | A quadrilateral the scan accepts over a plane triangulation is the pair of triangles at an original edge u -> v: x is the apex on its right and y the apex on its left |
| OnePlanar.CrossesStep | src/algorithms/PlanarGraphGeneration.java:321-337 | Step 5 extends the record of crossed edges by the edge whose apexes it joins |
| OnePlanar.OrderedStep | src/algorithms/PlanarGraphGeneration.java:332-334 | Inserting a crossing half-edge keeps each rotation, read without the crossing half-edges, equal to its original rotation |
| OnePlanar.CrossedOnce | src/algorithms/PlanarGraphGeneration.java:321-323 | No original edge is crossed by two added edges, in either direction |
| OnePlanar.CrossingsNoLoops | src/algorithms/PlanarGraphGeneration.java:321-323 | With four or more vertices no added edge is a loop |
| Crossings.OriginalsNext | src/algorithms/PlanarGraphGeneration.java:272-283 | Two original half-edges that follow each other in a rotation grown by crossing half-edges already followed each other before |
| Crossings.TriangleSteps | src/algorithms/PlanarGraphGeneration.java:286-319 | Three steps along a face of a plane triangulation return to the start |
| Crossings.CrossedQuadrilateral | src/algorithms/PlanarGraphGeneration.java:246-259 | Across an edge u -> v the apexes x and y close the quadrilateral x - u - y - v of original sides |
| Crossings.ApexesDiffer | src/algorithms/PlanarGraphGeneration.java:243-250 | With four or more vertices the apexes on the two sides of an edge differ |
| OnePlanar.AugmentsTargets | src/algorithms/PlanarGraphGeneration.java:327-337 | Old half-edges keep their target during augmentation |
| OnePlanar.AugmentsAdjacent | src/algorithms/PlanarGraphGeneration.java:327-337 | Adjacency only grows during augmentation |
| OnePlanar.ProposalCorners | src/algorithms/PlanarGraphGeneration.java:271-319 | A quadrilateral the scan accepts over a plane triangulation has free corners: the three corners of the triangle right of the crossed edge u -> v and its corners at u and v on the left hold no added half-edge; xu is the side after the crossed edge's partner, reversed, and vy the side after the crossed edge |
| OnePlanar.ProposalChecked | src/algorithms/PlanarGraphGeneration.java:271-319 | The same, in the form step 5 needs, together with the bounds of xv and vy and y as the target of vy |
| OnePlanar.CrossingChecks | src/algorithms/PlanarGraphGeneration.java:271-319 | Over a plane triangulation, steps 1 to 3 never throw, whatever crossing edges were added before |
| OnePlanar.CrossingTotal | src/algorithms/PlanarGraphGeneration.java:271-284 | The same, for a scan already known to run over a plane triangulation: each position of x's rotation gives a skip or a proposal |
| OnePlanar.CrossingCases | src/algorithms/PlanarGraphGeneration.java:271-284 | Step 1 decides alone unless both xu and xv are original edges |
| OnePlanar.TurnAtX | src/algorithms/PlanarGraphGeneration.java:271-284 | Two original half-edges that follow each other at x: the second follows the partner of the first along their common triangle |
| OnePlanar.AtUTotal | src/algorithms/PlanarGraphGeneration.java:286-298 | At u the lookup finds the partner of xu, and the original edge before it ends at v, so step 3.1 does not throw |
| OnePlanar.AtVTotal | src/algorithms/PlanarGraphGeneration.java:300-319 | At v the lookups find their half-edges, the original edge after v -> x is the partner of u -> v, and the one after that ends at y, so step 3.2 does not throw |
| OnePlanar.CornerStep | src/algorithms/PlanarGraphGeneration.java:332-334 | Inserting the two crossing half-edges behind xu and behind the twin of vy keeps every occupied corner occupied and occupies the corner behind each anchor |
| OnePlanar.CornerSteps | src/algorithms/PlanarGraphGeneration.java:332-334 | The same for all corners at once |
| OnePlanar.OccupiesStep | src/algorithms/PlanarGraphGeneration.java:327-337 | After step 5 every added edge, the new one included, occupies its corner at x right of its crossed edge and its corner at y left of it |
| OnePlanar.SidesDiffer | src/algorithms/PlanarGraphGeneration.java:246-250 | The two triangles at an edge of a plane triangulation are different faces |
| OnePlanar.ClosedCorner | src/algorithms/PlanarGraphGeneration.java:286-319 | Every corner of the triangle right of an accepted crossed edge, and of the left triangle off its apex, is free |
| OnePlanar.OpenCornerApart | src/algorithms/PlanarGraphGeneration.java:286-319 | A triangle with an occupied corner is neither triangle of a different accepted crossed edge |
| OnePlanar.TrianglesApart | src/algorithms/PlanarGraphGeneration.java:271-337 | The triangles of an earlier crossed edge and of a newly accepted one are four different faces |
| OnePlanar.ApartFromEarlier | src/algorithms/PlanarGraphGeneration.java:271-337 | A newly accepted crossed edge is apart from every earlier one |
| OnePlanar.ApartStep | src/algorithms/PlanarGraphGeneration.java:327-337 | Recording an apart crossed edge keeps all recorded triangles pairwise apart |
| OnePlanar.CrossedFacesAvoid | src/algorithms/PlanarGraphGeneration.java:327-337 | The triangles of an edge apart from all crossed ones are none of the crossed triangles |
| OnePlanar.CrossedFacesCount | tests/unit/GraphGenerationTest.java:104-106 | k crossed edges with apart triangles use exactly 2k faces of the graph |
| OnePlanar.CrossingsBound | tests/unit/GraphGenerationTest.java:104-106 | Hence 2k is at most the number of faces |
| OnePlanar.CrossingsAtMostHalf | tests/unit/GraphGenerationTest.java:104-106 | The invariant of the scan gives the crossing record, apart triangles and 2k at most the number of faces |
| OnePlanar.TrackedStart | src/algorithms/PlanarGraphGeneration.java:233-241 | Before any edge is added the invariant of the scan holds with an empty record |
| OnePlanar.CrossingStepFacts | src/algorithms/PlanarGraphGeneration.java:321-337 | Step 5 between non-neighbours extends the augmentation invariant and the scan's invariant by one edge, and x gains a neighbour |
| OnePlanar.PlaneStep | src/algorithms/PlanarGraphGeneration.java:327-337 | Over a plane triangulation step 5 keeps the corners occupied and the triangles apart |
| OnePlanar.ApartPlane | src/algorithms/PlanarGraphGeneration.java:327-337 | The new crossed edge is recorded apart from the earlier ones |
| OnePlanar.OccupiesPlane | src/algorithms/PlanarGraphGeneration.java:332-334 | The new crossing edge occupies its two corners and the earlier ones keep theirs |
| OnePlanar.AnchorAtY | src/algorithms/PlanarGraphGeneration.java:334 | The anchor at y, the twin of vy, is the partner of the side after the crossed edge and is listed at y |
| OnePlanar.CrossedNew | src/algorithms/PlanarGraphGeneration.java:321-337 | The newly crossed edge is neither an earlier crossed edge nor its partner |
| OnePlanar.ApartRecord | src/algorithms/PlanarGraphGeneration.java:321-337 | Step 5 across an accepted quadrilateral keeps the recorded triangles apart |
| OnePlanar.RecordStep | src/algorithms/PlanarGraphGeneration.java:327-337 | Step 5 keeps the rotations, read without added half-edges, equal to the originals and extends the crossing record |
| PlanarDual.CreateDualPlanarGraph | src/algorithms/PlanarGraphGeneration.java:369-434 | The method builds exactly the dual `DualOf` describes, or throws the exception it names |
| PlanarDual.AddDualVerticesAndFaces | src/algorithms/PlanarGraphGeneration.java:378-384 | One dual vertex per primal face and one dual face per primal vertex, with the primal index or id |
| PlanarDual.AddDualEdges | src/algorithms/PlanarGraphGeneration.java:386-394 | One dual edge per primal edge, in the same order with the same index; false when a lookup falls outside the dual lists |
| PlanarDual.AddDualEdge | src/algorithms/PlanarGraphGeneration.java:387-394 | Dual edge k runs from the dual vertex of the left face to that of the right face |
| PlanarDual.AddDualRotations | src/algorithms/PlanarGraphGeneration.java:396-412 | The loop over primal faces fills the dual rotations |
| PlanarDual.AddDualRotation | src/algorithms/PlanarGraphGeneration.java:397-411 | One primal face fills the rotation of its dual vertex, which is then reversed |
| PlanarDual.FillRotation | src/algorithms/PlanarGraphGeneration.java:399-409 | The boundary's dual half-edges starting at the dual vertex are appended; otherwise IllegalStateException |
| PlanarDual.AddDualBoundaries | src/algorithms/PlanarGraphGeneration.java:414-430 | The loop over primal vertices fills the dual boundaries |
| PlanarDual.AddDualBoundary | src/algorithms/PlanarGraphGeneration.java:415-429 | One primal vertex fills the boundary of its dual face, which is then reversed |
| PlanarDual.FillBoundary | src/algorithms/PlanarGraphGeneration.java:417-427 | The rotation's dual half-edges with the dual face on the left are appended; otherwise IllegalStateException |
| PlanarDual.Choice | src/algorithms/PlanarGraphGeneration.java:400-406 | The dual edge of a primal edge, replaced by its twin when it does not match; IndexOutOfBounds or IllegalState otherwise |
| PlanarDual.CollectMeaning | src/algorithms/PlanarGraphGeneration.java:399-409 | The inner loop succeeds exactly when every position has a matching half, and then lists them in order |
| PlanarDual.RotationPhaseShape | src/algorithms/PlanarGraphGeneration.java:396-412 | The rotation phase keeps vertex count and ids, adds only half-edges starting at the listing vertex, and throws only IndexOutOfBounds or IllegalState |
| PlanarDual.BoundaryPhaseShape | src/algorithms/PlanarGraphGeneration.java:414-430 | The boundary phase keeps face count and indices and adds only half-edges with the listing face on the left |
| PlanarDual.RotationPhaseForm | src/algorithms/PlanarGraphGeneration.java:396-412 | With indices equal to positions, dual vertex f lists the reversed choices for primal face f |
| PlanarDual.BoundaryPhaseForm | src/algorithms/PlanarGraphGeneration.java:414-430 | With ids equal to positions, dual face v lists the reversed choices for primal vertex v |
| PlanarDual.DualOfCounts | src/algorithms/PlanarGraphGeneration.java:378-394 | The counts swap: dual vertices are primal faces, dual faces are primal vertices, and edges correspond one to one |
| PlanarDual.DualOfIds | src/algorithms/PlanarGraphGeneration.java:378-384 | Dual vertex f carries the index of face f, and dual face v the id of vertex v |
| PlanarDual.DualOfCrossing | src/algorithms/PlanarGraphGeneration.java:386-394 | Dual edge k carries index k and crosses primal edge k: it runs from the left face's dual vertex to the right face's, and its left face is the dual face of the primal target |
| PlanarDual.DualHalvesFit | src/algorithms/PlanarGraphGeneration.java:386-394 | Each dual half-edge starts at a dual vertex, has a dual face on its left, and its twin points back |
| PlanarDual.DualOfEntries | src/algorithms/PlanarGraphGeneration.java:396-430 | Every dual rotation entry starts at its dual vertex, and every dual boundary entry has its dual face on the left |
| PlanarDual.DualOfWf | src/algorithms/PlanarGraphGeneration.java:369-434 | A dual that is built is well formed |
| PlanarDual.DualOfLayout | src/algorithms/PlanarGraphGeneration.java:386-394 | The dual of a graph whose edge indices are positions has them as positions too |
| PlanarDual.DualOfErrors | src/algorithms/PlanarGraphGeneration.java:370-372 | IllegalArgumentException is thrown exactly when some face is not a triangle |
| PlanarDual.DualOfSucceeds | src/algorithms/PlanarGraphGeneration.java:369-434 | A triangulated graph with positional ids and correct lists has a dual |
| PlanarDual.DualRotationOrder | src/algorithms/PlanarGraphGeneration.java:396-411 | Around dual vertex f the dual edges cross the boundary of face f in reverse order, so the dual degree equals the face size |
| PlanarDual.DualBoundaryOrder | src/algorithms/PlanarGraphGeneration.java:414-429 | Around dual face v the dual edges cross the rotation of vertex v in reverse order, so the dual face size equals the degree |
| PlanarDual.DualOfTriangulation | src/algorithms/PlanarGraphGeneration.java:369-434 | The dual of a plane triangulation exists and is three-regular with 2n - 4 vertices, 3n - 6 edges and n faces |
| PlanarConversion.AddConverted | src/algorithms/PlanarGraphGeneration.java:453-455 | The loop adds one flat edge per planar edge between the end ids; an id outside the graph throws |
| PlanarConversion.ConvertPlanarGraphToGraph | src/algorithms/PlanarGraphGeneration.java:445-458 | Null throws IllegalArgumentException; otherwise an undirected graph on `getN()` vertices holding one edge per planar edge, between the same end ids |
| PlanarConversion.ConvertedTriangulation | src/algorithms/PlanarGraphGeneration.java:445-458 | Converting a plane triangulation succeeds, with 3n - 6 edges, none repeated and none a loop |
| PlanarWrappers.ConvertedIdsInRange | src/algorithms/PlanarGraphGeneration.java:453-455 | With ids equal to positions, every converted id is a vertex and edge k joins the ends of planar edge k |
| PlanarWrappers.CreateApollonianGraph | src/algorithms/GraphGeneration.java:287-296 | Fewer than three vertices throw IllegalArgumentException; otherwise n vertices and 3n - 6 edges, none repeated and none a loop |
| PlanarWrappers.CreateMaxPlanarGraphFlat | src/algorithms/GraphGeneration.java:315-325 | Below five vertices IllegalArgumentException, and only then; otherwise n vertices and 3n - 6 edges, none repeated and none a loop |
| PlanarWrappers.CreateMaxOnePlanarGraph | src/algorithms/GraphGeneration.java:480-494 | Below five vertices IllegalArgumentException, and from five on a graph is always returned: n vertices and 3n - 6 + k edges, none repeated and none a loop: the edges of a plane triangulation, then k edges each joining the two apexes across a different original edge, with k <= n - 2 and so at most 4n - 8 edges |
| PlanarWrappers.AugmentedPairs | src/algorithms/PlanarGraphGeneration.java:453-455 | Converting a grown triangulation gives its planar edges first and then the apex pairs of the crossing edges |
| PlanarWrappers.PlanarPrefix | src/algorithms/PlanarGraphGeneration.java:453-455 | The first 3n - 6 converted pairs of the grown graph are those of the triangulation |
| PlanarWrappers.CrossingSuffix | src/algorithms/PlanarGraphGeneration.java:453-455 | Converted pair 3n - 6 + j joins the two apexes across the crossed half-edge `cs[j]` |
| PlanarWrappers.ConvertedNewEdge | src/algorithms/PlanarGraphGeneration.java:453-455 | The converted pair of an added edge is its pair of ends |
| PlanarWrappers.AugmentedPairsSimple | src/algorithms/GraphGeneration.java:480-494 | The converted 1-planar graph has no loop and no repeated edge |
| PlanarWrappers.PlanarAndCrossing | src/algorithms/PlanarGraphGeneration.java:321-323 | A crossing edge never joins the ends of a planar edge |
| PlanarWrappers.PlanarAndCrossingPair | src/algorithms/PlanarGraphGeneration.java:321-323 | No converted pair of the triangulation is the same edge as a converted crossing pair |
| PlanarWrappers.PlanarApartFromCrossing | src/algorithms/PlanarGraphGeneration.java:321-323 | The same for all pairs at once |
| PlanarWrappers.CrossingPairsSimple | src/algorithms/PlanarGraphGeneration.java:321-323 | The crossing edges, none a loop, repeat no pair |
| PlanarWrappers.AugmentedCrossingPairs | tests/unit/GraphGenerationTest.java:102-107 | The converted 1-planar graph records its base triangulation and the edges it crosses, each at most once |
| FlatModel.IntCompare | src/model/Edge.java:134-143 | `Integer.compare` is -1, 0 or 1 by the order of its arguments |
| FlatModel.Int32 | src/model/Edge.java:146-151 | Java `int` arithmetic: the value reduced into 32 bits, unchanged when it already fits |
| FlatModel.NewEdge | src/model/Edge.java:26-40 | A null end, or a negative id other than -2, throws IllegalArgumentException; otherwise the edge has the given ends and id |
| FlatModel.GetOtherEnd | src/model/Edge.java:92-100 | The opposite end; a vertex that is not an end throws IllegalArgumentException |
| FlatModel.OtherEndTwice | src/model/Edge.java:92-100 | Going to the other end and back returns to the start |
| FlatModel.EdgeHash | src/model/Edge.java:146-151 | `hashCode` depends only on the two end ids |
| FlatModel.EdgeCompare | src/model/Edge.java:134-143 | `compareTo` is lexicographic on (start id, target id) |
| FlatModel.EdgeIdentityAgrees | src/model/Edge.java:120-151 | Equal edges hash alike and compare as 0, comparison is 0 only for equal edges, and it is antisymmetric |
| FlatModel.NewVertex | src/model/Vertex.java:18-23 | A negative id throws IllegalArgumentException; otherwise a vertex without edges |
| FlatModel.VertexCompare | src/model/Vertex.java:144-146 | `compareTo` orders by id |
| FlatModel.VertexIdentityById | src/model/Vertex.java:126-146 | Equality, hashing and order of vertices depend on the id alone |
| FlatModel.AddEdgeTo | src/model/Vertex.java:29-35 | An edge not ending at the vertex throws IllegalArgumentException; otherwise it is appended |
| FlatModel.FirstEqual | src/model/Vertex.java:37-39 | The first position of an equal edge, or -1 when there is none |
| FlatModel.RemoveEqualSpec | src/model/Vertex.java:37-39 | `List.remove` cuts out exactly the first equal edge and keeps the order of the rest |
| FlatModel.NeighborIsOtherEnd | src/model/Vertex.java:53-65 | The neighbour reported for an edge is its other end |
| FlatModel.GetNeighbors | src/model/Vertex.java:53-65 | One neighbour per edge, in edge-list order, each the other end |
| FlatModel.IsNeighbor | src/model/Vertex.java:67-74 | True exactly when some edge leads to the given id |
| FlatModel.CheckEdge | src/model/Vertex.java:85-111 | One edge passes exactly when it is no loop, its other end lists the vertex back, and no other edge leads to the same neighbour |
| FlatModel.IsVertexValid | src/model/Vertex.java:82-114 | `Vertex.isValid` is true exactly when no edge is a loop, none is repeated and every neighbour lists this vertex back |
| FlatGraphs.Incidences | src/model/Edge.java:38-39 | Each vertex record lists, in order, the edges of the graph ending at it |
| FlatGraphs.Graph.constructor | src/model/Graph.java:30-36 | Vertex i has id i and there are no edges |
| FlatGraphs.Graph.GetM | src/model/Graph.java:142-144 | `getM` is the length of the edge list |
| FlatGraphs.Graph.AddEdge | src/model/Graph.java:42-54 | The edge is stored from the lower id in an undirected graph, gets the counter as id, is registered at both ends, and the counter and m advance |
| FlatGraphs.Graph.AddEdgeById | src/model/Graph.java:38-40 | An id outside `[0, n)` throws ArrayIndexOutOfBoundsException and leaves the graph unchanged |
| FlatGraphs.Graph.RemoveEdge | src/model/Graph.java:56-60 | The first equal edge leaves the graph's list and both ends' lists; m is not refreshed |
| FlatGraphs.Graph.IsValid | src/model/Graph.java:72-121 | The checks in source order, false at the first failure |
| FlatGraphs.Graph.Copy | src/model/Graph.java:249-259 | A new graph with the same n and directedness and the same (start id, target id) pairs in order; its m and id counter equal its edge count, and it passes isValid exactly when those pairs form a simple graph |
| FlatGraphs.SimpleByEnds | src/model/Graph.java:249-259 | Renumbering the edges keeps a graph simple or not simple |
| FlatGraphs.InitVerticesArray | src/algorithms/GraphUtils.java:18-23 | Slot i gets a new vertex with id i, and the same array is returned |
| FlatGraphs.GetInitialVertexArray | src/algorithms/GraphUtils.java:25-28 | A negative length throws NegativeArraySizeException; otherwise n vertices with ids 0 .. n - 1 |
| FlatGraphs.NewGraph | src/model/Graph.java:30-36 | A negative n or m throws; otherwise vertex i has id i and there are no edges |
| FlatGraphs.RemoveLeavesStale | src/model/Graph.java:56-60 | After `removeEdge`, `isValid` fails because m still counts the removed edge |
| FlatGraphs.CheckEdges | src/model/Graph.java:95-108 | The edge loop counts ids and checks each edge; the scan finds an id used twice |
| FlatGraphs.EdgeValid | src/model/Edge.java:51-59 | `Edge.isValid(directed)`: an undirected edge starts at its lower id, and both end vertices list an equal edge |
| FlatGraphs.DegreeSumEdges | src/model/Graph.java:111-118 | The degrees of a graph kept by its operations sum to twice the number of edges |
| FlatGraphs.EdgesRegistered | src/model/Edge.java:38-39 | Every edge is in the lists of both its ends |
| FlatGraphs.IncidentMembers | src/model/Graph.java:42-54 | The entries of a vertex's list are exactly the graph's edges ending there |
| FlatGraphs.RemoveIncidences | src/model/Graph.java:56-60 | The vertex records after `removeEdge` are those of the shortened edge list |
| FlatGraphs.SimpleVertexValid | src/model/Vertex.java:82-114 | In a simple graph every vertex passes its check |
| FlatGraphs.ValidVerticesSimple | src/model/Vertex.java:82-114 | A graph whose vertices all pass their check is simple |
| FlatGraphs.ValidGraphIffSimple | src/model/Graph.java:72-121 | On a graph kept by its operations, `isValid` holds exactly when m is up to date and there is no loop and no multi-edge |
| GraphChecks.IncidencesSymmetric | src/model/Edge.java:38-39 | Neighbourship is symmetric in a graph kept by its operations |
| GraphChecks.Search | src/algorithms/GraphChecks.java:23-41 | Afterwards exactly the vertices reachable from vertex 0 are visited, and `numVisited` counts them |
| GraphChecks.VisitNeighbors | src/algorithms/GraphChecks.java:30-38 | Every unvisited neighbour is counted, marked and pushed |
| GraphChecks.CountTrueFull | src/algorithms/GraphChecks.java:41 | The count reaches n exactly when every vertex is visited |
| GraphChecks.IsConnected | src/algorithms/GraphChecks.java:18-42 | Null throws IllegalArgumentException, the empty graph throws on vertex 0; otherwise true exactly when every vertex is reachable from vertex 0 |
| GraphChecks.IsTree | src/algorithms/GraphChecks.java:84-90 | True exactly when there are n - 1 edges and the graph is connected |
| GraphChecks.UtilsIsTree | src/algorithms/GraphUtils.java:53-77 | `GraphUtils.isTree` gives the same answer as `GraphChecks.isTree` |
| Bipartiteness.ClosedWalksEven | src/algorithms/GraphChecks.java:51-74 | Under a proper 2-colouring every closed walk is even |
| Bipartiteness.OddWalkNotBipartite | src/algorithms/GraphChecks.java:51-74 | An odd closed walk rules out every proper 2-colouring |
| Bipartiteness.OddWalkNotComponentBipartite | src/algorithms/GraphChecks.java:51-74 | An odd closed walk through vertex 0 rules out a proper colouring of its component |
| Bipartiteness.ColourNeighbors | src/algorithms/GraphChecks.java:61-70 | Each neighbour with the colour of u is a conflict; each uncoloured one gets the other colour and is pushed |
| Bipartiteness.ColourFrom | src/algorithms/GraphChecks.java:54-73 | The search from a root either finds an odd closed walk through it or colours its component properly |
| Bipartiteness.IsBipartite | src/algorithms/GraphChecks.java:51-74 | The empty graph is bipartite; otherwise the answer says whether the component of vertex 0 is bipartite |
| Bipartiteness.IsBipartiteAll | src/algorithms/GraphChecks.java:44-50 | Restarting the search at every uncoloured vertex answers whether the whole graph is bipartite |
| Bipartiteness.TriangleBesideIsolatedVertex | src/algorithms/GraphUtils.java:30-51 | On a triangle beside an isolated vertex 0 the source's search answers true, although the graph is not bipartite |
| JavaRandom.Random.NextInt | src/algorithms/RandomUtil.java:51-59 | `nextInt(bound)` lies in `[0, bound)`; a bound that is not positive throws IllegalArgumentException |
| RandomUtil.UnequalTo | src/algorithms/RandomUtil.java:51-59 | The result lies in `[least, bound)` and differs from `not`; an empty range throws IllegalArgumentException |
| RandomUtil.UnequalToCovers | src/algorithms/RandomUtil.java:51-59 | Every admissible value is the result of some draw |
| RandomUtil.RandomIntUnequalTo | src/algorithms/RandomUtil.java:51-59 | One call of `nextInt`, giving `UnequalTo` of that draw |
| RandomUtil.Iota | src/algorithms/RandomUtil.java:72-75 | The array `0, 1, ..., k - 1` |
| RandomUtil.PermutationOfIota | src/algorithms/RandomUtil.java:70-85 | A rearrangement of `0 .. k - 1` lists each of them exactly once |
| RandomUtil.Identity | src/algorithms/RandomUtil.java:72-75 | `new int[k]` filled with `0 .. k - 1` |
| RandomUtil.Swap | src/algorithms/RandomUtil.java:79-81 | A swap exchanges two entries and keeps the multiset |
| RandomUtil.Shuffle | src/algorithms/RandomUtil.java:77-82 | The Fisher-Yates loop keeps the multiset of entries |
| RandomUtil.RandomPermutation | src/algorithms/RandomUtil.java:70-85 | The result has length k and lists each of `0 .. k - 1` exactly once |
| RandomUtil.ShuffleList | src/algorithms/PlanarGraphGeneration.java:240-241 | `Collections.shuffle` keeps the multiset of entries |
| GraphGeneration.Fresh | src/model/Graph.java:30-36 | A new graph holds no pairs |
| GraphGeneration.Push | src/model/Graph.java:38-54 | `addEdge(a, b)` adds the pair `(a, b)` |
| GraphGeneration.CreateEdgelessGraph | src/algorithms/GraphGeneration.java:25-33 | A negative size throws IllegalArgumentException; otherwise n vertices and no edges |
| GraphGeneration.PathShape | src/algorithms/GraphGeneration.java:43-57 | The path has `max(len - 1, 0)` edges, joins exactly consecutive vertices and repeats no edge |
| GraphGeneration.CreatePathGraph | src/algorithms/GraphGeneration.java:43-57 | A negative length throws; otherwise the edges `(i, i + 1)` in order |
| GraphGeneration.AddPath | src/algorithms/GraphGeneration.java:50-54 | The loop adds `(i, i + 1)` for every i < len - 1 |
| GraphGeneration.CycleShape | src/algorithms/GraphGeneration.java:67-83 | n edges for n >= 3, one for n = 2 and none below; exactly the cyclically consecutive pairs are joined, and no edge repeats |
| GraphGeneration.CreateCycle | src/algorithms/GraphGeneration.java:67-83 | A negative size throws; otherwise the path closed by `(0, n - 1)` when n > 2 |
| GraphGeneration.StarShape | src/algorithms/GraphGeneration.java:158-169 | `max(n - 1, 0)` edges joining the centre to every other vertex and no two others |
| GraphGeneration.CreateStar | src/algorithms/GraphGeneration.java:158-169 | A negative size throws; otherwise the edges `(0, i)` |
| GraphGeneration.CompleteShape | src/algorithms/GraphGeneration.java:971-987 | `n (n - 1) / 2` edges, every two distinct vertices joined, no edge repeated |
| GraphGeneration.CreateCompleteGraph | src/algorithms/GraphGeneration.java:971-987 | Fewer than one vertex throws; otherwise every pair u < v in order |
| GraphGeneration.AddCompleteRows | src/algorithms/GraphGeneration.java:981-985 | The nested loops join every u to every larger v |
| GraphGeneration.Pow2 | src/algorithms/GraphGeneration.java:676 | `(int) Math.pow(2, i)` is a positive power of two, doubling with i |
| GraphGeneration.Bit | src/algorithms/GraphGeneration.java:684 | Bit i of u is 0 or 1 |
| GraphGeneration.FlipBitFacts | src/algorithms/GraphGeneration.java:684 | `u ^ 2^i` adds `2^i` when the bit is clear and subtracts it when set; flipping twice restores u |
| GraphGeneration.FlipBitsDiffer | src/algorithms/GraphGeneration.java:684 | Flipping two different bits gives different values |
| GraphGeneration.HypercubeCount | src/algorithms/GraphGeneration.java:669-692 | The hypercube of dimension d has `d 2^(d-1)` edges |
| GraphGeneration.HypercubeNeighbors | src/algorithms/GraphGeneration.java:669-692 | Every vertex below `2^d` is joined to its d bit flips, which are pairwise different |
| GraphGeneration.HypercubeOnlyFlips | src/algorithms/GraphGeneration.java:669-692 | The hypercube joins only vertices below `2^d` that differ in one bit, and repeats no edge |
| GraphGeneration.CreateHypercube | src/algorithms/GraphGeneration.java:669-692 | A negative dimension throws; otherwise `2^d` vertices and the pairs u < u ^ 2^i |
| GraphGeneration.CccVertexPlace | src/algorithms/GraphGeneration.java:725-730 | The cycle vertices are distinct vertices of the graph |
| GraphGeneration.CubeConnectedCount | src/algorithms/GraphGeneration.java:708-752 | `d 2^d` vertices and one and a half times as many edges |
| GraphGeneration.CubeConnectedNeighbors | src/algorithms/GraphGeneration.java:708-752 | Vertex j of cycle i is joined to the next vertex of its cycle and to vertex j of cycle `i ^ 2^j` |
| GraphGeneration.CubeConnectedOnly | src/algorithms/GraphGeneration.java:708-752 | Every edge is a cycle edge or a link |
| GraphGeneration.AddCycle | src/algorithms/GraphGeneration.java:733-737 | Closes one cycle |
| GraphGeneration.AddLinks | src/algorithms/GraphGeneration.java:740-749 | Links one cycle to the larger cycles it differs from in one bit |
| GraphGeneration.CreateCubeConnectedCycles | src/algorithms/GraphGeneration.java:708-752 | A dimension below 2 throws; dimension 2 is the cycle on 8 vertices; otherwise the cycles and links |
| GraphGeneration.AddAllCycles | src/algorithms/GraphGeneration.java:733-737 | The first pass closes every cycle |
| GraphGeneration.AddAllLinks | src/algorithms/GraphGeneration.java:740-749 | The second pass links the cycles along the hypercube's edges |
| GraphGeneration.PermutationShape | src/algorithms/GraphGeneration.java:926-946 | Positions i < j are joined exactly when the permutation inverts them, and no edge repeats |
| GraphGeneration.AddInversions | src/algorithms/GraphGeneration.java:935-942 | Adds one row of the permutation graph |
| GraphGeneration.CreatePermutationGraph | src/algorithms/GraphGeneration.java:926-946 | Fewer than one vertex throws; otherwise a permutation of `0 .. n - 1` and its inversion pairs |
| GraphGeneration.NonCrossingWiden | src/algorithms/GraphGeneration.java:234-273 | Chords of a smaller polygon are chords of the larger one |
| GraphGeneration.Triangulated | src/algorithms/GraphGeneration.java:234-273 | Cutting along the triangle (begin, pick, end) and triangulating both sides gives `length - 3` non-crossing chords |
| GraphGeneration.AddEdgeToInnerFace | src/algorithms/GraphGeneration.java:234-273 | A span shorter than 3 throws IllegalStateException; otherwise `length - 3` non-crossing chords are added |
| GraphGeneration.CreateMaxOuterplanarGraph | src/algorithms/GraphGeneration.java:195-225 | A negative size throws; otherwise the cycle followed by n - 3 non-crossing chords |
| GraphGeneration.MaxOuterplanarShape | src/algorithms/GraphGeneration.java:195-225 | `max(0, 2n - 3)` edges, none repeated |
| GraphGeneration.AttachmentsForm | src/algorithms/GraphGeneration.java:643-645 | Each attachment edge runs from a vertex of the picked clique to the new vertex |
| GraphGeneration.AttachmentsDistinct | src/algorithms/GraphGeneration.java:643-645 | No attachment edge repeats when each picked clique is distinct |
| GraphGeneration.KTreeCount | src/algorithms/GraphGeneration.java:603-657 | A k-tree on `k + 1 + p` vertices has `k (k + 1) / 2 + k p` edges |
| GraphGeneration.KTreeSimple | src/algorithms/GraphGeneration.java:603-657 | A k-tree repeats no edge and has no loop |
| GraphGeneration.KTreeFirstClique | src/algorithms/GraphGeneration.java:617-622 | The first k + 1 vertices form a clique |
| GraphGeneration.AttachmentEnds | src/algorithms/GraphGeneration.java:643-645 | An attachment edge runs from a clique vertex up to the new vertex |
| GraphGeneration.KTreeAttached | src/algorithms/GraphGeneration.java:636-655 | Each later vertex is joined to exactly the vertices of its picked clique among earlier ones |
| GraphGeneration.KTreeCliques | src/algorithms/GraphGeneration.java:624-654 | Every stored clique is a k-clique of the finished k-tree |
| GraphGeneration.JoinedSymmetric | src/model/Graph.java:42-50 | Joined is symmetric |
| GraphGeneration.KTreeDegree | src/algorithms/GraphGeneration.java:603-657 | Every vertex of a k-tree has k distinct neighbours |
| GraphGeneration.SkipOne | src/algorithms/GraphGeneration.java:625-632 | The clique `0 .. k` without i, as the loop fills its array |
| GraphGeneration.AddAttachment | src/algorithms/GraphGeneration.java:643-645 | The inner loop joins the new vertex to the picked clique |
| GraphGeneration.SwapIn | src/algorithms/GraphGeneration.java:648-652 | Replacing one clique vertex by the new vertex gives a k-clique of the extended graph |
| GraphGeneration.AddKTreeVertex | src/algorithms/GraphGeneration.java:638-654 | One round attaches a vertex to a drawn clique and stores the k swapped cliques |
| GraphGeneration.CreateKTree | src/algorithms/GraphGeneration.java:603-657 | A negative size or k + 1 > n throws; otherwise the first clique and the attachments to drawn cliques |
| PrueferTrees.Initial | src/algorithms/GraphGeneration.java:109-115 | Each vertex starts at one plus its occurrences in the code |
| PrueferTrees.LeafFrom | src/algorithms/GraphGeneration.java:119-126 | The first vertex from j on with degree 1, or the end |
| PrueferTrees.PruneStep | src/algorithms/GraphGeneration.java:118-127 | A round removes the first leaf, which does not occur in the rest of the code, and keeps the state balanced |
| PrueferTrees.LastEdgeFound | src/algorithms/GraphGeneration.java:130-145 | After the last round exactly two vertices remain and the last edge joins them |
| PrueferTrees.PrueferCount | src/algorithms/GraphGeneration.java:96-147 | The tree has n - 1 edges |
| PrueferTrees.PrueferDegrees | src/algorithms/GraphGeneration.java:96-147 | Each vertex has degree one more than its occurrences in the code |
| PrueferTrees.PrueferConnected | src/algorithms/GraphGeneration.java:96-147 | Every two vertices are connected |
| PrueferTrees.PrueferTree | src/algorithms/GraphGeneration.java:96-147 | Every code gives a tree on n vertices |
| PrueferTrees.PermutationCodeGivesPath | src/algorithms/GraphGeneration.java:106 | A code that is a permutation of `0 .. n - 3` gives every vertex degree at most 2, so a path |
| PrueferTrees.EveryCodeDrawn | src/algorithms/GraphGeneration.java:106 | With independent draws every code occurs |
| PrueferTrees.DrawnCodeGivesStar | src/algorithms/GraphGeneration.java:106 | With independent draws a star occurs for every n >= 3 |
| PrueferTrees.DrawnCode | src/algorithms/GraphGeneration.java:106 | The code drawn by n - 2 independent `nextInt(n)` calls |
| PrueferTrees.PruneRound | src/algorithms/GraphGeneration.java:119-126 | One round joins the first leaf to the code entry and lowers both degrees |
| PrueferTrees.InitialDegrees | src/algorithms/GraphGeneration.java:109-115 | The degree array of a code |
| PrueferTrees.DecodeInto | src/algorithms/GraphGeneration.java:109-145 | The rounds, then the edge between the last two leaves |
| PrueferTrees.FindLastEdge | src/algorithms/GraphGeneration.java:130-144 | The first two vertices of degree 1, or -1 for each one not found |
| PrueferTrees.CreatePrueferTree | src/algorithms/GraphGeneration.java:96-147 | A negative size throws IllegalArgumentException, sizes 0 and 1 throw NegativeArraySizeException; otherwise the decoding of a permutation code |
| PrueferTrees.CreatePrueferTreeDrawn | src/algorithms/GraphGeneration.java:96-147 | With independent draws the same decoding gives a tree with n - 1 edges |
| GraphOperators.CopiesAt | src/algorithms/GraphOperators.java:116-122 | Pair `k n2 + i` of the first loop is edge k in copy i |
| GraphOperators.LinksAt | src/algorithms/GraphOperators.java:125-131 | Pair `k n1 + i` of the second loop joins vertex i of the copies of the ends of edge k |
| GraphOperators.ProductCount | src/algorithms/GraphOperators.java:105-133 | The product has `m1 n2 + m2 n1` edges |
| GraphOperators.ProductCopyAt | src/algorithms/GraphOperators.java:116-122 | First-graph edge (u, v) appears as `(u + i n1, v + i n1)` for every i < n2 |
| GraphOperators.ProductLinkAt | src/algorithms/GraphOperators.java:125-131 | Second-graph edge (u, v) appears as `(u n1 + i, v n1 + i)` for every i < n1 |
| GraphOperators.ProductBelow | src/algorithms/GraphOperators.java:105-133 | Every pair joins two of the `n1 n2` vertices |
| GraphOperators.CopyIndex | src/algorithms/GraphOperators.java:116-131 | Every index below `count * width` splits into a copy and a position |
| GraphOperators.AddShifted | src/algorithms/GraphOperators.java:119-121 | The inner loop shifts one edge into every copy |
| GraphOperators.AddLifted | src/algorithms/GraphOperators.java:128-130 | The inner loop lifts one edge to every position |
| GraphOperators.AddCopies | src/algorithms/GraphOperators.java:116-122 | The loop making n2 copies of the first graph |
| GraphOperators.AddLinks | src/algorithms/GraphOperators.java:125-131 | The loop connecting the copies |
| GraphOperators.CreateGraphProduct | src/algorithms/GraphOperators.java:105-133 | A missing graph throws; otherwise `n1 n2` vertices, directed only when both are, and the copies then the links |
| CirculantGraphs.Fold | src/algorithms/GraphGeneration.java:876-878 | A step longer than half the circle is replaced by `n - x`, so it lies in `1 .. n / 2` |
| CirculantGraphs.Folded | src/algorithms/GraphGeneration.java:876-878 | The folded steps, sorted and without repetition |
| CirculantGraphs.FoldedShape | src/algorithms/GraphGeneration.java:876-878 | Folding valid steps gives an ascending step set holding exactly their folds |
| CirculantGraphs.Gap | src/algorithms/GraphGeneration.java:854-912 | The distance round the circle, at most n / 2 |
| CirculantGraphs.Shift | src/algorithms/GraphGeneration.java:889-894 | `(i + s) % n` for a vertex and a step shorter than the circle |
| CirculantGraphs.RowGaps | src/algorithms/GraphGeneration.java:886-902 | Every edge of a row joins two distinct vertices at distance s |
| CirculantGraphs.RowJoined | src/algorithms/GraphGeneration.java:886-902 | A row joins u < v exactly when their distance is s |
| CirculantGraphs.RowSimple | src/algorithms/GraphGeneration.java:886-902 | A row repeats no edge |
| CirculantGraphs.CirculantGaps | src/algorithms/GraphGeneration.java:854-912 | Every edge joins distinct vertices at a step's distance |
| CirculantGraphs.CirculantJoined | src/algorithms/GraphGeneration.java:854-912 | u < v are joined exactly when their distance is a step |
| CirculantGraphs.CirculantSimple | src/algorithms/GraphGeneration.java:854-912 | No edge repeats and none is a loop |
| CirculantGraphs.CirculantCount | src/algorithms/GraphGeneration.java:880-886 | The number of edges is the capacity the source computes: n per step, less n / 2 for a half step |
| CirculantGraphs.AddRow | src/algorithms/GraphGeneration.java:886-902 | The inner loop adds the row of one step |
| CirculantGraphs.CreateCirculantGraph | src/algorithms/GraphGeneration.java:854-912 | Fewer than one vertex or a step outside `1 .. n - 1` throws; no steps gives the edgeless graph; otherwise the rows of the folded steps |
| Trees.Tree.constructor | src/model/Tree.java:12-16 | Parent, vertex and colour are stored unchanged |
| Trees.Tree.SetLeftEdge | src/model/Tree.java:18-22 | The edge is recorded and a new left child for its target is returned, with this node as parent and the same colour; the right side is untouched |
| Trees.Tree.SetRightEdge | src/model/Tree.java:24-28 | The same on the right side; the left side is untouched |

## Left out

- `GraphMLWriter` is not part of this model: it is XML and file I/O.
- `createKPlanarGraph` and its `Point` class: random doubles and line-segment intersection geometry.
- `thinOutGraph` and `Graph.getDensity`: floating-point probabilities and ratios.
- `shuffleGraph` and `Vertex.shuffleEdges`: they use the unseeded thread-local generator, and `shuffleGraph` adds the permuted edges to its input instead of its result.
- `createKAryNCube`, `createSquareGrid` and `createToroidalGrid`: they call `GraphOperators.createCartesianGraphProduct`, which is not part of this model.
- `createTuranGraph`: `firstVertexId` advances once per added edge, so the loop does not build the documented partition and there is no property to state.
- `createHamiltonianMaxPlanarGraph` and `findDualEdge`: they call `Graph.getEdgeByEndvertices`, which is not part of this model.
- The Java `Random` algorithm, seeds, `RandomUtil.getRandom` and the thread-local overloads: draws are arbitrary values in the requested range.
- `toString`, `printTree`, `setName`, `getName`, graph classes and the `System.out` diagnostics: they only produce text.
- `PlanarVertex.getDegree` and `PlanarFace.getSize` are the length of the rotation or boundary (`|Rotation(E, v)|`, `|Boundary(E, f)|`). `PlanarFace.setEdges` is not called by any modelled code.
- `Graph.getVertexById`, `getEdgeById`, `getVertices`, `getEdges` and `Edge.isVertexOfEdge` are plain reads of the state.
- Face validity after `create1PlanarGraph`: the source leaves the faces broken on purpose, so nothing is claimed about them.
- Java `int` overflow in the generators' arithmetic (`2 * numVertices - 3`, `dimension * 2^dimension`, `Math.pow`) is not modelled: sizes are unbounded integers. Edge hashes are reduced to 32 bits (`FlatModel.Int32`).
- The null varargs array of `createCirculantGraph` is not modelled: the steps are a sequence.
- `ArrayList` capacity arguments (the `m` given to `new Graph`) are not modelled. `CirculantGraphs.CirculantCount` states that the computed capacity equals the number of edges.
- PlanarGeneration.FlipEdges: a run that is rejected again and again would not end on an adversarial draw stream. The model gives the retry loop a budget of `attempts` draws.
- PlanarWrappers.CreateMaxOnePlanarGraph: the two seeds the source draws from its own generator are separate generators.
- OnePlanar.Create1PlanarGraph: the shuffled work list is any rearrangement of the vertices.
- PlanarGraphs.PlanarGraph.constructor: the source builds the lists first and wraps them at the end (`PlanarGraphGeneration.java:129`, `:432`). The generators here allocate the graph with empty lists and fill them in place, which gives the same lists.
- PlanarDual.CreateDualPlanarGraph: takes a non-null primal graph. The source dereferences its argument and would throw NullPointerException on null.
- GraphGeneration.KTreeDegree: the degree bound is stated as k distinct joined neighbours of each vertex, not as the length of the vertex's edge list.
- GraphGeneration.HypercubeNeighbors: the degree is stated as d distinct joined bit flips, not as the length of the vertex's edge list.
- GraphGeneration.MaxOuterplanarShape: maximal outerplanarity is stated as the edge count and non-crossing chords inside the cycle, not through a planar embedding.
- RandomUtil.Shuffle: states the permutation of the entries, not which draw lands where.
- RandomUtil.RandomPermutation: takes a length of at least 0. The negative length `createPrueferTree` passes for sizes 0 and 1 is handled in `PrueferTrees.CreatePrueferTree`.

## Findings

| source | as written | input that shows it | evidently intended | confidence | as-written member | corrected member |
|---|---|---|---|---|---|---|
| src/algorithms/GraphChecks.java:51-74 | the colouring search starts at vertex 0 only, so only vertex 0's component is checked | a triangle on vertices 1, 2, 3 beside the isolated vertex 0: the answer is true | restart the search at every uncoloured vertex, so every component is checked, as the documentation describes | not executed | Bipartiteness.TriangleBesideIsolatedVertex | Bipartiteness.IsBipartiteAll |
| src/algorithms/GraphGeneration.java:106 | the Prüfer code is `randomPermutation(n - 2)`, so every vertex below n - 2 appears exactly once and every tree is a path | any n >= 4: vertex 0 never has degree 3, so the star is never produced | n - 2 independent draws from `0 .. n - 1`, so every labelled tree can occur | not executed | PrueferTrees.PermutationCodeGivesPath | PrueferTrees.CreatePrueferTreeDrawn |
