# quadtree-js in Dafny

A model of the quadtree spatial index of quadtree-js (`src/QuadTree.ts`) and
of the two range shapes it is queried with, boxes (`src/Box.ts`) and circles
(`src/Circle.ts`).

A quadtree node covers a container box. It is either a leaf that holds a list
of points or a divided node that owns four children `ne`, `nw`, `se` and `sw`,
one per half-size quadrant of the container. A leaf takes points up to its
`capacity`. A full leaf divides, unless its `maximumDepth` is used up: -1 means
unlimited and 0 means never divide. Division hands a copy of the whole point
list to each child, so a point on a quadrant edge is stored by every quadrant
that holds it. `remove` drops every point with the given coordinates. With
`removeEmptyNodes` set, it turns a node whose four children are all empty
leaves back into a leaf. `query` collects the points a range contains and
skips every subtree whose container the range does not intersect.

The project has three layers:

- **Geometry.**
  - `Points`, `Boxes`, `Circles` and `Shapes` hold the points and the two range shapes.
  - The `Shape` interface of `src/types.ts` becomes a datatype with a box variant and a circle variant.
  - Coordinates are `real`, so halving a box is exact.
- **The tree as values.** `QuadTreeModel` describes a node as a datatype, a leaf or a divided node. Each operation of the source is a function from the old node to the new one.
  - `QuadTreeInsertion` proves what insertion guarantees.
  - `QuadTreeProperties` proves what the other operations guarantee.
  - `QuadTreeExamples` computes concrete trees.
- **The class.** `QuadTrees.QuadTree` has the fields of the source. Its methods change them in place.
  - Each node carries a ghost footprint `Repr` and a ghost `model`, the value of its subtree.
  - Every method is proved to change `model` exactly as the matching `QuadTreeModel` function does. The lemmas about those functions then carry over to the objects.

Both `queryRecursive` and `getAllPointsRecursive` push into an array owned by the caller. In the model they take the accumulated list and return it extended.

## Model

| member | source | states |
|---|---|---|
| QuadTreeModel.CompleteConfig | src/QuadTree.ts:4-8 | the fields a caller leaves out take the defaults: capacity 4, removeEmptyNodes false, maximumDepth -1; given fields are kept |
| QuadTreeModel.AllFields | src/QuadTree.ts:112 | a complete configuration passed on to a child is taken over unchanged |
| QuadTreeModel.ChildConfig | src/QuadTree.ts:111-112 | a child keeps capacity and removeEmptyNodes; its depth is one less, and -1 stays -1 |
| QuadTreeModel.Insert | src/QuadTree.ts:217-239 | the result of insertRecursive is well formed, on the same container and configuration |
| QuadTreeModel.Divide | src/QuadTree.ts:110-130 | divide yields a divided node, well formed, on the same container and configuration |
| QuadTreeModel.Without | src/QuadTree.ts:160-166 | the splice loop keeps exactly the points whose coordinates differ from the removed point |
| QuadTreeModel.Matching | src/QuadTree.ts:266 | the filter keeps exactly the points the range contains |
| QuadTreeModel.Remove | src/QuadTree.ts:155-190 | remove keeps the container and the configuration, and changes nothing when the container does not hold the point (src/QuadTree.ts:156-158) |
| QuadTreeModel.Clear | src/QuadTree.ts:276-284 | clear keeps the container and the configuration |
| QuadTreeModel.NodePointAmount | src/QuadTree.ts:102-104 | a divided node reports 0 own points; a leaf reports the length of its list |
| QuadTreeModel.InsertIntoChildren | src/QuadTree.ts:231-235 | offering a point to ne, nw, se and sw in turn gives a well-formed node on the same container and configuration; QuadTreeInsertion.InsertIntoChildrenTakes and QuadTreeProperties.InsertGoesToFirstQuadrant state which child takes it |
| QuadTreeModel.New | src/QuadTree.ts:36-46 | a new tree is well formed and has the given container and configuration; it is the empty leaf after the initial points are inserted one by one |
| QuadTreeModel.InsertAll | src/QuadTree.ts:198-202 | inserting a batch in order gives a well-formed tree on the same container and configuration; QuadTreeInsertion.InsertAllKeepsInvariant states what is added |
| QuadTreeModel.RemoveAll | src/QuadTree.ts:139-142 | removing a batch in order keeps the container and the configuration; QuadTreeProperties.RemoveAllFiltersAllPoints states what is removed |
| QuadTreeModel.AllPoints | src/QuadTree.ts:85-95 | the definition of getAllPoints: a leaf's list, or the four children's lists in the order ne, nw, se, sw. QuadTreeInsertion.PointSetOfDivided and QuadTreeProperties.TreeCountsAllPoints state its properties |
| QuadTreeModel.Query | src/QuadTree.ts:258-271 | the definition of query: nothing from a container the range misses, a leaf's matching points, or the four children's results in order. QuadTreeProperties.QueryIsFilteredAllPoints and QuerySoundAndComplete state what it returns |
| QuadTreeModel.GetTree | src/QuadTree.ts:52-68 | the definition of getTree: a leaf's count, or the four children's trees. QuadTreeProperties.TreeCountsAllPoints relates it to getAllPoints |
| QuadTreeInsertion.InsertKeepsInvariant | src/QuadTree.ts:217-239 | for a finite depth, insertion keeps the tree valid (well formed, points in their containers, leaves within capacity, no empty divided node when empty nodes are removed). The set of stored points grows by exactly the point when it is taken. It is taken exactly when the container holds it, unless a full leaf has maximumDepth below -1 |
| QuadTreeInsertion.InsertIntoChildrenTakes | src/QuadTree.ts:231-235 | a divided node always places a point its container holds, and it adds exactly that point |
| QuadTreeInsertion.DivideSpreadsPoints | src/QuadTree.ts:110-130 | after divide each child is valid and holds exactly the former points that its quadrant contains; together the children hold them all |
| QuadTreeInsertion.InsertAllKeepsInvariant | src/QuadTree.ts:198-206 | batch insertion keeps the tree valid and adds only inserted points; at a non-negative depth it adds exactly those the container holds |
| QuadTreeInsertion.PointSetOfDivided | src/QuadTree.ts:91-94 | a divided node holds exactly the points of its four children |
| QuadTreeProperties.AllPointsInContainer | src/QuadTree.ts:218-219 | every point stored anywhere in a tree lies in the root's container |
| QuadTreeProperties.MatchingAppend | src/QuadTree.ts:266-268 | filtering a concatenation is concatenating the filtered parts |
| QuadTreeProperties.MatchingNone | src/QuadTree.ts:266 | filtering a list none of whose points is in range gives nothing |
| QuadTreeProperties.QueryIsFilteredAllPoints | src/QuadTree.ts:258-271 | query returns exactly the stored points the range contains, in getAllPoints order; pruning loses nothing |
| QuadTreeProperties.QuerySoundAndComplete | src/QuadTree.ts:246-271 | a point is in the query result if and only if it is stored and the range contains it |
| QuadTreeProperties.WithoutAppend | src/QuadTree.ts:161-166 | removing from a concatenation removes from each part |
| QuadTreeProperties.WithoutNothingMatching | src/QuadTree.ts:161-166 | removing a point no entry matches leaves the list as it was |
| QuadTreeProperties.RemoveFiltersAllPoints | src/QuadTree.ts:155-190 | after remove, getAllPoints is the old list without the points with the removed coordinates, the rest in order |
| QuadTreeProperties.RemoveDeletesExactlyMatches | src/QuadTree.ts:155-174 | after remove a point is stored if and only if it was stored and does not have the removed coordinates |
| QuadTreeProperties.EmptyIsEmptyLeaf | src/QuadTree.ts:176-189 | an empty tree without empty divided nodes is one empty leaf, whose getTree is 0 |
| QuadTreeProperties.RemoveKeepsInvariant | src/QuadTree.ts:155-190 | remove keeps a valid tree valid, including the absence of empty divided nodes when removeEmptyNodes is set |
| QuadTreeProperties.RemoveKeepsShape | src/QuadTree.ts:176 | without removeEmptyNodes, remove never changes the shape of the tree, only the leaf counts |
| QuadTreeProperties.WithoutAny | src/QuadTree.ts:139-142 | a list without every point that has the coordinates of one of a batch keeps exactly the others |
| QuadTreeProperties.RemoveAllFiltersAllPoints | src/QuadTree.ts:138-146 | batch removal keeps the tree valid and removes from getAllPoints every point that matches one of the batch |
| QuadTreeProperties.RemovingEverythingCollapses | src/QuadTree.ts:176-189 | with removeEmptyNodes set, removing every stored point leaves getAllPoints empty and getTree 0 |
| QuadTreeProperties.TreeCountsAllPoints | src/QuadTree.ts:52-68 | the counts of getTree add up to the length of getAllPoints |
| QuadTreeProperties.DepthWithinMaximum | src/QuadTree.ts:111 | the tree is never deeper than a non-negative maximumDepth; a maximumDepth below -1 keeps the root a leaf |
| QuadTreeModel.Inside | src/QuadTree.ts:218-224 | the points of a list a box contains, in order; all of them when the box contains every one |
| QuadTreeProperties.DepthZeroNeverDivides | src/QuadTree.ts:222-224 | with maximumDepth 0 a leaf never divides: it appends every point its container holds, and getTree is the count |
| QuadTreeProperties.InsertGoesToFirstQuadrant | src/QuadTree.ts:231-235 | a divided node gives the point to the first of ne, nw, se, sw whose quadrant holds it, and leaves the other three children as they were |
| QuadTreeProperties.InsertIntoLeaf | src/QuadTree.ts:217-224 | a point outside the container is refused and nothing changes; a leaf below capacity, or at depth 0, appends the point at the end |
| QuadTreeProperties.ClearEmpties | src/QuadTree.ts:276-284 | a cleared tree is valid, with no points and a getTree of 0 |
| QuadTreeExamples.FirstFourFillTheRoot | src/QuadTree.ts:221-224 | four points in a fresh tree of capacity 4 stay in the root leaf, in order |
| QuadTreeExamples.FifthDividesTheRoot | src/QuadTree.ts:225-235 | the fifth point divides the root; each child holds the former points of its quadrant, and the point goes to nw |
| QuadTreeExamples.SixthDividesNw | src/QuadTree.ts:225-235 | the sixth point divides the nw child |
| QuadTreeExamples.NewLeaf | src/QuadTree.ts:122-125 | a child built from four points stays a leaf holding the ones its quadrant contains |
| QuadTreeExamples.GetTreeAfterSixInserts | test/QuadTree.test.ts:196-208 | six points on y = 5 give getTree {ne: 2, nw: {ne: 0, nw: 0, se: 3, sw: 2}, se: 2, sw: 3}, and getAllPoints lists 12 entries. The example uses maximumDepth 3, where the test uses the default -1; the tree only reaches depth 2, so the limit never applies and both give the same tree |
| QuadTrees.QuadTree.constructor | src/QuadTree.ts:36-46 | a new tree has the container and the completed configuration, its model is an empty leaf after inserting the initial points one by one, and it satisfies the invariant (valid, points in their containers, leaves within capacity) |
| QuadTrees.QuadTree.GetTree | src/QuadTree.ts:52-68 | getTree of the object structure is getTree of its model |
| QuadTrees.QuadTree.GetAllPoints | src/QuadTree.ts:74-78 | getAllPoints returns every leaf's points, children in the order ne, nw, se, sw |
| QuadTrees.QuadTree.GetAllPointsRecursive | src/QuadTree.ts:85-95 | the subtree's points are appended to the accumulated list |
| QuadTrees.QuadTree.GetNodePointAmount | src/QuadTree.ts:102-104 | the count of the node's own points, 0 for a divided node |
| QuadTrees.QuadTree.Divide | src/QuadTree.ts:110-130 | the node becomes divided, its footprint grows only by new objects, and its model is the model's Divide of the former points |
| QuadTrees.NewChild | src/QuadTree.ts:122-125 | one child of a dividing node is a new, valid tree whose model is the model's New on its quadrant, the child configuration and the copied points |
| QuadTrees.QuadTree.OthersUnaffected | src/QuadTree.ts:231-235 | after one child inserted a point within its own footprint, the four children are again valid and disjoint, and the other three keep their models |
| QuadTrees.NewQuadrants | src/QuadTree.ts:111-125 | four new, valid, disjoint children, one per quadrant, each built from the points with the child configuration |
| QuadTrees.QuadTree.InsertRecursive | src/QuadTree.ts:217-239 | the new model and the returned flag are those of the model's Insert; the footprint grows only by new objects |
| QuadTrees.QuadTree.InsertIntoChildren | src/QuadTree.ts:231-235 | ne, nw, se and sw are offered the point in turn, as the model's InsertIntoChildren |
| QuadTrees.QuadTree.OfferToChild | src/QuadTree.ts:232-235 | one child inserts the point; the other three children and this node's fields stay as they were |
| QuadTrees.QuadTree.RemoveRecursive | src/QuadTree.ts:155-190 | the new model is the model's Remove; the footprint only shrinks |
| QuadTrees.QuadTree.RemoveFromLeaf | src/QuadTree.ts:160-168 | a leaf's list loses exactly the points with the removed coordinates and the leaf stays a leaf |
| QuadTrees.QuadTree.SpliceMatches | src/QuadTree.ts:161-166 | the backward loop with splice leaves exactly the points with other coordinates, in their order |
| QuadTrees.QuadTree.RemoveFromChildren | src/QuadTree.ts:171-189 | all four children remove the point; the node collapses into an empty leaf exactly when removeEmptyNodes is set and all four are empty leaves |
| QuadTrees.QuadTree.CollapseIfEmpty | src/QuadTree.ts:176-189 | the node becomes an empty leaf exactly when removeEmptyNodes is set and all four children are empty leaves, and is unchanged otherwise |
| QuadTrees.QuadTree.RemoveFromChild | src/QuadTree.ts:171-174 | one child removes the point; the other three children stay as they were |
| QuadTrees.QuadTree.Query | src/QuadTree.ts:246-250 | query returns the model's query, which is exactly the stored points the range contains, in getAllPoints order |
| QuadTrees.QuadTree.QueryRecursive | src/QuadTree.ts:258-271 | the subtree's query result is appended to the accumulated list |
| QuadTrees.QuadTree.QueryChildren | src/QuadTree.ts:260-264 | the four children append their results in the order ne, nw, se, sw |
| QuadTrees.QuadTree.Clear | src/QuadTree.ts:276-284 | the node becomes an empty leaf that owns nothing else, and the invariant holds |
| QuadTrees.QuadTree.Insert | src/QuadTree.ts:198-206 | one point is inserted; the invariant is kept and the stored points grow by exactly that point when it is taken |
| QuadTrees.QuadTree.InsertAll | src/QuadTree.ts:198-202 | the batch is inserted in order; the invariant is kept and, at a non-negative depth, exactly the points the container holds are added |
| QuadTrees.QuadTree.Remove | src/QuadTree.ts:138-146 | one point is removed; the invariant is kept and getAllPoints loses exactly the points with its coordinates |
| QuadTrees.QuadTree.RemoveAll | src/QuadTree.ts:139-142 | the batch is removed in order; the invariant is kept and getAllPoints loses exactly the points matching one of the batch |
| QuadTrees.QuadTree.Attach | src/QuadTree.ts:114-129 | the node is marked divided, takes the four new children and empties its list; the children stay valid |
| QuadTrees.QuadTree.AdoptChildren | src/QuadTree.ts:171-174 | after a child changed, the node's footprint and model again cover its four children |
| QuadTrees.SpliceStep | src/QuadTree.ts:162-165 | one backward step of the splice loop extends the filtered suffix by one element |
| Boxes.Box.Contains | src/Box.ts:37-42 | the definition of box containment, inclusive on all four edges. Boxes.ContainsIsInclusive states its edge behaviour |
| Boxes.Box.Intersects | src/Box.ts:49-54 | the definition of box intersection: the boxes are not strictly apart along either axis. Boxes.IntersectsIffSharedPoint states what it means |
| Boxes.NeQuadrant | src/QuadTree.ts:116-122 | the north-east quadrant (x + w/2, y, w/2, h/2). Boxes.QuadrantsCoverBox and QuadrantsInsideBox state its properties |
| Boxes.NwQuadrant | src/QuadTree.ts:116-123 | the north-west quadrant (x, y, w/2, h/2). Same lemmas as NeQuadrant |
| Boxes.SeQuadrant | src/QuadTree.ts:116-124 | the south-east quadrant (x + w/2, y + h/2, w/2, h/2). Same lemmas as NeQuadrant |
| Boxes.SwQuadrant | src/QuadTree.ts:116-125 | the south-west quadrant (x, y + h/2, w/2, h/2). Same lemmas as NeQuadrant |
| Boxes.ContainsOnlyInProper | src/Box.ts:37-42 | a box that contains a point has a non-negative width and height |
| Boxes.ContainsIsInclusive | src/Box.ts:37-42 | all four edges belong to the box, and a point any positive distance beyond an edge does not |
| Boxes.IntersectsIsSymmetric | src/Box.ts:49-54 | a.intersects(b) equals b.intersects(a) |
| Boxes.SharedPointIntersects | src/Box.ts:37-54 | two boxes that contain a common point intersect |
| Boxes.IntersectsIffSharedPoint | src/Box.ts:49-54 | boxes of non-negative size intersect if and only if they share a point |
| Boxes.QuadrantsCoverBox | src/QuadTree.ts:116-125 | a box contains a point if and only if one of its four quadrants does |
| Boxes.QuadrantsInsideBox | src/QuadTree.ts:116-125 | each quadrant lies inside the box it was cut from |
| Circles.Circle.Contains | src/Circle.ts:37-39 | the definition of circle containment: the squared distance to the centre is at most the cached rPow2. Circles.NewCircle and ContainsIsInclusive state what it means |
| Circles.Circle.Intersects | src/Circle.ts:46-53 | the definition of the clamp test: the centre is clamped into the box, and the squared distance to it is compared with rPow2. Circles.IntersectsIffSharedPoint states what it means |
| Circles.NewCircle | src/Circle.ts:20-26 | the constructor keeps x, y and r and caches r * r; the circle contains exactly the points within squared distance r * r |
| Circles.EuclideanDistancePow2 | src/Circle.ts:28-30 | the squared distance is never negative |
| Circles.ContainsIsInclusive | src/Circle.ts:37-39 | for a circle with r >= 0 whose cache is r * r, the four circumference points (x ± r, y) and (x, y ± r) are contained, and each of them moved any positive distance further out is not |
| Circles.SharedPointIntersects | src/Circle.ts:46-53 | a circle that contains a point of a box intersects the box |
| Circles.IntersectsIffSharedPoint | src/Circle.ts:46-53 | the clamp test holds if and only if the circle and the box share a point, for a box of non-negative size |
| Circles.CentreInBoxIntersects | src/Circle.ts:50-52 | a box holding the centre always intersects a circle whose radius cache is r * r |
| Circles.ClampIsNearest | src/Circle.ts:47-51 | the clamped centre coordinate is no farther from the centre than any coordinate in the interval |
| Circles.IntersectsExamples | src/Circle.ts:46-53 | the circle (100, 50, 25) intersects the box it encapsulates, misses a box inside its bounding square beyond the radius, and touches a box at distance exactly 25 |
| Points.SameCoordinates | src/QuadTree.ts:163 | the definition of the match remove uses: equal x and equal y, whatever the payload |
| Shapes.Shape.Contains | src/types.ts:10-14 | a range's containment test is its box's or its circle's |
| Shapes.Shape.Intersects | src/types.ts:10-14 | a range's intersection test is its box's or its circle's. Shapes.PruningIsSafe and IntersectsIffSharedPoint state what it means |
| Shapes.PruningIsSafe | src/types.ts:10-14 | a range that contains a point of a box intersects that box, for both shapes |
| Shapes.IntersectsIffSharedPoint | src/types.ts:10-14 | for both shapes, intersecting a box of non-negative size means sharing a point with it |

## Left out

- QuadTrees.QuadTree.InsertRecursive: requires a maximumDepth other than -1. With unlimited depth, more than `capacity` points with the same coordinates make divide, the constructor and insertRecursive call one another forever.
- QuadTrees.QuadTree.Insert: requires a maximumDepth other than -1, for the same non-termination reason.
- QuadTrees.QuadTree.InsertAll: requires a maximumDepth other than -1 when the batch is not empty, for the same reason.
- QuadTrees.QuadTree.constructor: requires a maximumDepth other than -1 when initial points are given, for the same reason.
- QuadTreeModel.Insert: requires a maximumDepth other than -1, for the same non-termination reason.
- QuadTreeModel.InsertIntoChildren: requires a maximumDepth other than -1, for the same reason.
- QuadTreeModel.InsertAll: requires a maximumDepth other than -1 when the batch is not empty, for the same reason.
- QuadTreeModel.New: requires a maximumDepth other than -1 when initial points are given, for the same reason.
- QuadTreeInsertion.InsertKeepsInvariant: requires a maximumDepth other than -1, for the same reason.
- QuadTreeInsertion.InsertIntoChildrenTakes: requires a maximumDepth other than -1, for the same reason.
- QuadTreeInsertion.DivideSpreadsPoints: requires a positive maximumDepth. The source also divides at -1, which is left out for the same non-termination reason.
- QuadTreeInsertion.InsertAllKeepsInvariant: requires a maximumDepth other than -1 when the batch is not empty, for the same reason.
- QuadTreeInsertion.InsertKeepsInvariant: states the stored points as a set. A point on a quadrant edge can be stored by several leaves, and this multiplicity is not counted.
- The point, box and circle payload `data`: the index never reads it.
- IEEE-754 doubles: coordinates are exact reals and `Math.pow(d, 2)` is `d * d`. Rounding at quadrant edges is not modelled.
- `capacity` and `maximumDepth` are integers. A fractional capacity is not modelled.
- A configuration field passed explicitly as `undefined` overrides the default through `Object.assign`. The model treats it as a missing field.
- `insert` and `remove` decide with `Array.isArray` whether they got one point or an array. They are modelled as separate methods: `Insert` and `InsertAll`, `Remove` and `RemoveAll`.
- `query` and `getAllPoints` push into an array the caller owns. Their recursive helpers return the extended list instead, so aliasing of that array is not modelled.
- `delete this.ne` and its siblings become `null` references.
- The Box constructor is the datatype constructor `Box(x, y, w, h)`.
- User-defined shapes beyond boxes and circles: `Shape` is a closed datatype with two variants.
- The compiled copies under `build/`, the older `src/*.js` variants, `index.js` and the build scripts are not part of this model.
