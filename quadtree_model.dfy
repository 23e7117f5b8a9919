/**
  The quadtree of src/QuadTree.ts as values: a node is a leaf holding a list
  of points or a divided node owning four children, and each operation of the
  source is a function from the old node to the new one. The class in
  quadtree.dfy is proved against these functions; the lemmas in
  quadtree_insert.dfy and quadtree_lemmas.dfy state what they guarantee.
 */
module QuadTreeModel {
  import opened Options
  import opened Points
  import opened Boxes
  import opened Shapes

  /** The complete configuration every node carries. */
  datatype Config = Config(capacity: int, removeEmptyNodes: bool, maximumDepth: int)

  /** A configuration as the caller passes it: any field may be missing. */
  datatype ConfigOverrides = ConfigOverrides(capacity: Option<int>, removeEmptyNodes: Option<bool>, maximumDepth: Option<int>)

  /** No field given. */
  const NoOverrides: ConfigOverrides := ConfigOverrides(None, None, None)

  /** Capacity 4, empty nodes kept, no depth limit (-1). */
  const DefaultConfig: Config := Config(4, false, -1)

  /** The given fields laid over the defaults (Object.assign of the constructor). */
  function CompleteConfig(o: ConfigOverrides): (c: Config)
    ensures o == NoOverrides ==> c == DefaultConfig
    ensures o.capacity.None? ==> c.capacity == 4
    ensures o.removeEmptyNodes.None? ==> !c.removeEmptyNodes
    ensures o.maximumDepth.None? ==> c.maximumDepth == -1
    ensures o.capacity.Some? ==> c.capacity == o.capacity.value
    ensures o.removeEmptyNodes.Some? ==> c.removeEmptyNodes == o.removeEmptyNodes.value
    ensures o.maximumDepth.Some? ==> c.maximumDepth == o.maximumDepth.value
  {
    Config(o.capacity.GetOr(DefaultConfig.capacity),
           o.removeEmptyNodes.GetOr(DefaultConfig.removeEmptyNodes),
           o.maximumDepth.GetOr(DefaultConfig.maximumDepth))
  }

  /** Every field of `c` given explicitly, as divide passes a child's configuration. */
  function AllFields(c: Config): (o: ConfigOverrides)
    ensures CompleteConfig(o) == c
  {
    ConfigOverrides(Some(c.capacity), Some(c.removeEmptyNodes), Some(c.maximumDepth))
  }

  /** A child's configuration: one level less of depth, unless the depth is unlimited. */
  function ChildConfig(c: Config): (r: Config)
    ensures r.capacity == c.capacity && r.removeEmptyNodes == c.removeEmptyNodes
    ensures c.maximumDepth == -1 ==> r.maximumDepth == -1
    ensures c.maximumDepth != -1 ==> r.maximumDepth == c.maximumDepth - 1
  {
    c.(maximumDepth := if c.maximumDepth == -1 then -1 else c.maximumDepth - 1)
  }

  /** Whether a full leaf with this configuration divides: depth unlimited or some depth left. */
  predicate CanDivide(c: Config) {
    c.maximumDepth == -1 || c.maximumDepth > 0
  }

  /** The number of further divisions a finite depth allows. */
  function DepthBudget(c: Config): nat {
    if c.maximumDepth > 0 then c.maximumDepth else 0
  }

  /** A node of the tree. A divided node's own point list is always empty, so it is not stored. */
  datatype Node =
    | Leaf(container: Box, config: Config, points: seq<Point>)
    | Divided(container: Box, config: Config, ne: Node, nw: Node, se: Node, sw: Node)

  /**
    The shape a node can take: a divided node was allowed to divide, its
    children sit on its four quadrants in the order ne, nw, se, sw, and they
    carry the child configuration.
   */
  ghost predicate WellFormed(n: Node) {
    match n
    case Leaf(_, _, _) => true
    case Divided(b, c, ne, nw, se, sw) =>
      CanDivide(c) &&
      ne.container == NeQuadrant(b) && nw.container == NwQuadrant(b) &&
      se.container == SeQuadrant(b) && sw.container == SwQuadrant(b) &&
      ne.config == ChildConfig(c) && nw.config == ChildConfig(c) &&
      se.config == ChildConfig(c) && sw.config == ChildConfig(c) &&
      WellFormed(ne) && WellFormed(nw) && WellFormed(se) && WellFormed(sw)
  }

  /** Insertion terminates: the depth of the node is bounded. */
  predicate FiniteDepth(n: Node) {
    n.config.maximumDepth != -1
  }

  /** The number of points stored in the node itself (getNodePointAmount). */
  function NodePointAmount(n: Node): (k: nat)
    ensures n.Divided? ==> k == 0
  {
    if n.Leaf? then |n.points| else 0
  }

  // ---------------------------------------------------------------- insert

  /**
    insertRecursive: the new node and whether the point was taken. A point
    outside the container is refused. A leaf below capacity, or at depth 0,
    appends the point; a full leaf that may divide does so and passes the
    point on; a full leaf that may not divide (maximumDepth below -1) drops it.
   */
  function Insert(n: Node, p: Point): (r: (Node, bool))
    requires WellFormed(n) && FiniteDepth(n)
    ensures WellFormed(r.0) && r.0.container == n.container && r.0.config == n.config
    decreases DepthBudget(n.config), 3
  {
    if !n.container.Contains(p) then (n, false)
    else match n
      case Leaf(b, c, pts) =>
        if NodePointAmount(n) < c.capacity || c.maximumDepth == 0 then (Leaf(b, c, pts + [p]), true)
        else if CanDivide(c) then InsertIntoChildren(Divide(b, c, pts), p)
        else (n, false)
      case Divided(_, _, _, _, _, _) => InsertIntoChildren(n, p)
  }

  /** The point offered to ne, nw, se and sw in turn, stopping at the first child that takes it. */
  function InsertIntoChildren(n: Node, p: Point): (r: (Node, bool))
    requires n.Divided? && WellFormed(n) && FiniteDepth(n)
    ensures WellFormed(r.0) && r.0.container == n.container && r.0.config == n.config
    decreases DepthBudget(n.config), 1
  {
    var ne := Insert(n.ne, p);
    if ne.1 then (n.(ne := ne.0), true) else
    var nw := Insert(n.nw, p);
    if nw.1 then (n.(ne := ne.0, nw := nw.0), true) else
    var se := Insert(n.se, p);
    if se.1 then (n.(ne := ne.0, nw := nw.0, se := se.0), true) else
    var sw := Insert(n.sw, p);
    (n.(ne := ne.0, nw := nw.0, se := se.0, sw := sw.0), sw.1)
  }

  /**
    divide: four children on the half-size quadrants, each built from a copy
    of the leaf's whole point list; the node keeps no points of its own.
   */
  function Divide(b: Box, c: Config, pts: seq<Point>): (d: Node)
    requires c.maximumDepth > 0
    ensures d.Divided? && WellFormed(d) && d.container == b && d.config == c
    decreases DepthBudget(c), 2
  {
    var childConfig := ChildConfig(c);
    Divided(b, c,
            New(NeQuadrant(b), childConfig, pts),
            New(NwQuadrant(b), childConfig, pts),
            New(SeQuadrant(b), childConfig, pts),
            New(SwQuadrant(b), childConfig, pts))
  }

  /** The constructor: an empty leaf that then receives the initial points one by one. */
  function New(b: Box, c: Config, pts: seq<Point>): (n: Node)
    requires pts == [] || c.maximumDepth != -1
    ensures WellFormed(n) && n.container == b && n.config == c
    decreases DepthBudget(c), 5
  {
    InsertAll(Leaf(b, c, []), pts)
  }

  /** The points inserted in order, as the batch form of insert does. */
  function InsertAll(n: Node, ps: seq<Point>): (r: Node)
    requires WellFormed(n) && (ps == [] || FiniteDepth(n))
    ensures WellFormed(r) && r.container == n.container && r.config == n.config
    decreases DepthBudget(n.config), 4, |ps|
  {
    if ps == [] then n
    else Insert(InsertAll(n, ps[..|ps| - 1]), ps[|ps| - 1]).0
  }

  // ---------------------------------------------------------------- remove

  /** The list without the points that have `p`'s coordinates, the others kept in order. */
  function Without(pts: seq<Point>, p: Point): (r: seq<Point>)
    ensures |r| <= |pts|
    ensures forall q :: q in r <==> q in pts && !SameCoordinates(p, q)
  {
    if pts == [] then []
    else (if SameCoordinates(p, pts[0]) then [] else [pts[0]]) + Without(pts[1..], p)
  }

  /** A leaf with no points. */
  predicate IsEmptyLeaf(n: Node) {
    NodePointAmount(n) == 0 && !n.Divided?
  }

  /**
    removeRecursive: nothing happens outside the container; a leaf drops
    every point with `p`'s coordinates; a divided node removes from all four
    children and, if removeEmptyNodes is set and all four are now empty
    leaves, becomes an empty leaf again.
   */
  function Remove(n: Node, p: Point): (r: Node)
    ensures r.container == n.container && r.config == n.config
    ensures !n.container.Contains(p) ==> r == n
  {
    if !n.container.Contains(p) then n
    else match n
      case Leaf(b, c, pts) => Leaf(b, c, Without(pts, p))
      case Divided(b, c, ne, nw, se, sw) =>
        var ne', nw', se', sw' := Remove(ne, p), Remove(nw, p), Remove(se, p), Remove(sw, p);
        if c.removeEmptyNodes && IsEmptyLeaf(ne') && IsEmptyLeaf(nw') && IsEmptyLeaf(se') && IsEmptyLeaf(sw')
        then Leaf(b, c, [])
        else Divided(b, c, ne', nw', se', sw')
  }

  /** The points removed in order, as the batch form of remove does. */
  function RemoveAll(n: Node, ps: seq<Point>): (r: Node)
    ensures r.container == n.container && r.config == n.config
  {
    if ps == [] then n
    else Remove(RemoveAll(n, ps[..|ps| - 1]), ps[|ps| - 1])
  }

  // ---------------------------------------------------------------- read

  /** getAllPoints: every leaf's list, children in the order ne, nw, se, sw. */
  function AllPoints(n: Node): seq<Point> {
    match n
    case Leaf(_, _, pts) => pts
    case Divided(_, _, ne, nw, se, sw) => AllPoints(ne) + AllPoints(nw) + AllPoints(se) + AllPoints(sw)
  }

  /** The points of a list that a range contains, in order (Array.filter). */
  function Matching(pts: seq<Point>, s: Shape): (r: seq<Point>)
    ensures |r| <= |pts|
    ensures forall q :: q in r <==> q in pts && s.Contains(q)
  {
    if pts == [] then []
    else (if s.Contains(pts[0]) then [pts[0]] else []) + Matching(pts[1..], s)
  }

  /**
    query: nothing from a node whose container the range does not
    intersect; otherwise the matching points of a leaf, or the children's
    results in the order ne, nw, se, sw.
   */
  function Query(n: Node, s: Shape): seq<Point> {
    if !s.Intersects(n.container) then []
    else match n
      case Leaf(_, _, pts) => Matching(pts, s)
      case Divided(_, _, ne, nw, se, sw) => Query(ne, s) + Query(nw, s) + Query(se, s) + Query(sw, s)
  }

  /** The result of getTree: a leaf's point count, or the four children's trees. */
  datatype TreeView = Count(amount: nat) | Quad(ne: TreeView, nw: TreeView, se: TreeView, sw: TreeView)

  function GetTree(n: Node): TreeView {
    match n
    case Leaf(_, _, _) => Count(NodePointAmount(n))
    case Divided(_, _, ne, nw, se, sw) => Quad(GetTree(ne), GetTree(nw), GetTree(se), GetTree(sw))
  }

  /** clear: an empty leaf on the same container with the same configuration. */
  function Clear(n: Node): (r: Node)
    ensures r.container == n.container && r.config == n.config
  {
    Leaf(n.container, n.config, [])
  }

  // ---------------------------------------------------------------- invariants

  /** Every stored point lies in the container of the leaf that stores it. */
  ghost predicate PointsInContainers(n: Node) {
    match n
    case Leaf(b, _, pts) => forall q :: q in pts ==> b.Contains(q)
    case Divided(_, _, ne, nw, se, sw) =>
      PointsInContainers(ne) && PointsInContainers(nw) && PointsInContainers(se) && PointsInContainers(sw)
  }

  /** The most points a leaf that is not at depth 0 can hold. */
  function CapacityBound(c: Config): nat {
    if c.capacity < 0 then 0 else c.capacity
  }

  /** Only a leaf at depth 0 may hold more than `capacity` points. */
  ghost predicate WithinCapacity(n: Node) {
    match n
    case Leaf(_, c, pts) => c.maximumDepth != 0 ==> |pts| <= CapacityBound(c)
    case Divided(_, _, ne, nw, se, sw) =>
      WithinCapacity(ne) && WithinCapacity(nw) && WithinCapacity(se) && WithinCapacity(sw)
  }

  /** No divided node whose subtree holds no point. */
  ghost predicate NoEmptyDivided(n: Node) {
    match n
    case Leaf(_, _, _) => true
    case Divided(_, _, ne, nw, se, sw) =>
      AllPoints(n) != [] &&
      NoEmptyDivided(ne) && NoEmptyDivided(nw) && NoEmptyDivided(se) && NoEmptyDivided(sw)
  }

  /**
    The invariant of every tree the operations build: well formed, points in
    their containers, leaves within capacity, and, when empty nodes are
    removed, no empty divided node left behind.
   */
  ghost predicate Valid(n: Node) {
    WellFormed(n) && PointsInContainers(n) && WithinCapacity(n) &&
    (n.config.removeEmptyNodes ==> NoEmptyDivided(n))
  }

  /** The set of points a node holds. */
  ghost function PointSet(n: Node): set<Point> {
    set q | q in AllPoints(n)
  }

  /** The points of a list that a box contains, in order. */
  function Inside(ps: seq<Point>, b: Box): (r: seq<Point>)
    ensures |r| <= |ps|
    ensures forall q :: q in r <==> q in ps && b.Contains(q)
    ensures (forall q :: q in ps ==> b.Contains(q)) ==> r == ps
  {
    if ps == [] then []
    else Inside(ps[..|ps| - 1], b) + (if b.Contains(ps[|ps| - 1]) then [ps[|ps| - 1]] else [])
  }

  /** The set of the points of a list that a box contains. */
  ghost function InsideOf(ps: seq<Point>, b: Box): set<Point> {
    set q | q in ps && b.Contains(q)
  }
}
