/**
  The QuadTree class of src/QuadTree.ts. A node owns its point list or its
  four children and changes them in place. Each node carries the ghost
  footprint `Repr` of the objects it owns and the ghost value `model` of the
  subtree it represents; every method is proved to act on `model` exactly as
  the corresponding function of QuadTreeModel, whose properties are proved in
  quadtree_insert.dfy and quadtree_lemmas.dfy.
 */
module QuadTrees {
  import opened Points
  import opened Boxes
  import opened Shapes
  import opened QuadTreeModel
  import QuadTreeInsertion
  import QuadTreeProperties

  class QuadTree {
    const container: Box
    const config: Config
    var isDivided: bool
    var points: seq<Point>
    var ne: QuadTree?
    var nw: QuadTree?
    var se: QuadTree?
    var sw: QuadTree?

    ghost var Repr: set<object>
    ghost var model: Node

    /**
      The object structure: a leaf has no children and its model is its
      point list; a divided node has no points of its own and four children
      with pairwise disjoint footprints, and its model is built from theirs.
     */
    ghost predicate Valid()
      reads this, Repr
      decreases Repr
    {
      this in Repr &&
      if !isDivided then
        ne == null && nw == null && se == null && sw == null &&
        model == Leaf(container, config, points)
      else
        points == [] &&
        ne != null && nw != null && se != null && sw != null &&
        ne in Repr && nw in Repr && se in Repr && sw in Repr &&
        ne.Repr <= Repr && nw.Repr <= Repr && se.Repr <= Repr && sw.Repr <= Repr &&
        this !in ne.Repr && this !in nw.Repr && this !in se.Repr && this !in sw.Repr &&
        ne.Repr !! nw.Repr && ne.Repr !! se.Repr && ne.Repr !! sw.Repr &&
        nw.Repr !! se.Repr && nw.Repr !! sw.Repr && se.Repr !! sw.Repr &&
        ne.Valid() && nw.Valid() && se.Valid() && sw.Valid() &&
        model == Divided(container, config, ne.model, nw.model, se.model, sw.model)
    }

    /** The structure is sound and the tree it represents keeps the invariants of QuadTreeModel. */
    ghost predicate Invariant()
      reads this, Repr
    {
      Valid() && QuadTreeModel.Valid(model)
    }

    /**
      A new tree: the missing configuration fields take their defaults and the
      initial points are inserted one by one.
     */
    constructor (container: Box, overrides: ConfigOverrides, points: seq<Point>)
      requires points == [] || CompleteConfig(overrides).maximumDepth != -1
      ensures Invariant() && fresh(Repr)
      ensures this.container == container && config == CompleteConfig(overrides)
      ensures model == New(container, CompleteConfig(overrides), points)
      decreases DepthBudget(CompleteConfig(overrides)), 5
    {
      this.container := container;
      config := CompleteConfig(overrides);
      isDivided := false;
      this.points := [];
      ne, nw, se, sw := null, null, null, null;
      Repr := {this};
      model := Leaf(container, CompleteConfig(overrides), []);
      new;
      for i := 0 to |points|
        invariant Valid() && fresh(Repr)
        invariant model == QuadTreeModel.InsertAll(Leaf(container, config, []), points[..i])
      {
        assert points[..i + 1][..i] == points[..i];
        var _ := InsertRecursive(points[i]);
      }
      assert points[..|points|] == points;
      QuadTreeInsertion.InsertAllKeepsInvariant(Leaf(container, config, []), points);
    }

    /** getTree: the point count of a leaf, or the trees of the four children. */
    function GetTree(): (t: TreeView)
      reads this, Repr
      requires Valid()
      ensures t == QuadTreeModel.GetTree(model)
      decreases Repr
    {
      if isDivided then
        Quad(ne.GetTree(), nw.GetTree(), se.GetTree(), sw.GetTree())
      else
        Count(GetNodePointAmount())
    }

    /** getAllPoints. */
    method GetAllPoints() returns (pointsList: seq<Point>)
      requires Valid()
      ensures pointsList == AllPoints(model)
    {
      pointsList := GetAllPointsRecursive([]);
    }

    /** Appends this subtree's points, children in the order ne, nw, se, sw, to `pointsList`. */
    method GetAllPointsRecursive(pointsList: seq<Point>) returns (result: seq<Point>)
      requires Valid()
      ensures result == pointsList + AllPoints(model)
      decreases Repr
    {
      if !isDivided {
        result := pointsList + points;
        return;
      }
      assert AllPoints(model) == AllPoints(ne.model) + AllPoints(nw.model) + AllPoints(se.model) + AllPoints(sw.model);
      result := ne.GetAllPointsRecursive(pointsList);
      result := nw.GetAllPointsRecursive(result);
      result := se.GetAllPointsRecursive(result);
      result := sw.GetAllPointsRecursive(result);
    }

    /** getNodePointAmount: the length of this node's own list. */
    function GetNodePointAmount(): (k: nat)
      reads this, Repr
      requires Valid()
      ensures k == NodePointAmount(model)
    {
      |points|
    }

    /**
      divide: four children on the quadrants of the container, one level less
      of depth, each built from a copy of this node's points; this node keeps
      none.
     */
    method Divide()
      requires Valid() && !isDivided && config.maximumDepth > 0
      modifies this
      ensures Valid() && fresh(Repr - old(Repr))
      ensures model == QuadTreeModel.Divide(container, config, old(points))
      decreases DepthBudget(config), 2
    {
      var a, b, c, d := NewQuadrants(container, config, points);
      Attach(a, b, c, d);
      AdoptChildren();
    }

    /**
      insertRecursive: a point outside the container is refused; a leaf below
      capacity, or at depth 0, appends it; a full leaf divides when its depth
      allows and otherwise drops it; a divided node offers it to ne, nw, se and
      sw in turn and stops at the first that takes it.
     */
    method InsertRecursive(p: Point) returns (ok: bool)
      requires Valid() && WellFormed(model) && FiniteDepth(model)
      modifies Repr
      ensures Valid() && fresh(Repr - old(Repr))
      ensures (model, ok) == QuadTreeModel.Insert(old(model), p)
      decreases DepthBudget(config), 3
    {
      if !container.Contains(p) {
        return false;
      }
      if !isDivided {
        if GetNodePointAmount() < config.capacity || config.maximumDepth == 0 {
          points := points + [p];
          model := Leaf(container, config, points);
          return true;
        } else if config.maximumDepth == -1 || config.maximumDepth > 0 {
          Divide();
        }
      }

      if isDivided {
        ok := InsertIntoChildren(p);
      } else {
        ok := false;
      }
    }

    /** The divided case of insertRecursive: ne, nw, se and sw are offered the point in turn. */
    method InsertIntoChildren(p: Point) returns (ok: bool)
      requires Valid() && isDivided && WellFormed(model) && FiniteDepth(model)
      modifies Repr
      ensures Valid() && fresh(Repr - old(Repr))
      ensures (model, ok) == QuadTreeModel.InsertIntoChildren(old(model), p)
      decreases DepthBudget(config), 1
    {
      ok := OfferToChild(ne, p);
      if ok {
        return;
      }
      ok := OfferToChild(nw, p);
      if ok {
        return;
      }
      ok := OfferToChild(se, p);
      if ok {
        return;
      }
      ok := OfferToChild(sw, p);
    }

    /** One child's insertRecursive call, after which this node's footprint and model cover it again. */
    method OfferToChild(child: QuadTree, p: Point) returns (ok: bool)
      requires Valid() && isDivided && WellFormed(model) && FiniteDepth(model)
      requires child == ne || child == nw || child == se || child == sw
      modifies Repr
      ensures Valid() && fresh(Repr - old(Repr)) && isDivided
      ensures ne == old(ne) && nw == old(nw) && se == old(se) && sw == old(sw)
      ensures (child.model, ok) == QuadTreeModel.Insert(old(child.model), p)
      ensures ne != child ==> ne.model == old(ne.model)
      ensures nw != child ==> nw.model == old(nw.model)
      ensures se != child ==> se.model == old(se.model)
      ensures sw != child ==> sw.model == old(sw.model)
      decreases DepthBudget(config), 0
    {
      label Offered:
      ok := child.InsertRecursive(p);
      OthersUnaffected@Offered(child);
      AdoptChildren();
    }

    /**
      removeRecursive: nothing happens outside the container; a leaf splices
      out, walking its list backwards, every point with the coordinates of
      `p`; a divided node removes from its four children and, when
      removeEmptyNodes is set and all four are now empty leaves, drops them
      and becomes an empty leaf.
     */
    method RemoveRecursive(p: Point)
      requires Valid()
      modifies Repr
      ensures Valid() && Repr <= old(Repr)
      ensures model == QuadTreeModel.Remove(old(model), p)
      decreases Repr, 2
    {
      if !container.Contains(p) {
        return;
      }
      if !isDivided {
        RemoveFromLeaf(p);
        return;
      }
      RemoveFromChildren(p);
    }

    /** The leaf case of removeRecursive. */
    method RemoveFromLeaf(p: Point)
      requires Valid() && !isDivided
      modifies this
      ensures Valid() && Repr == old(Repr) && !isDivided
      ensures points == Without(old(points), p)
      ensures model == Leaf(container, config, points)
    {
      SpliceMatches(p);
      model := Leaf(container, config, points);
    }

    /** The list of a leaf is walked backwards and every point with `p`'s coordinates spliced out. */
    method SpliceMatches(p: Point)
      modifies this`points
      ensures points == Without(old(points), p)
    {
      ghost var orig := points;
      var i := |points| - 1;
      while i >= 0
        invariant -1 <= i < |orig|
        invariant points == orig[..i + 1] + Without(orig[i + 1..], p)
      {
        SpliceStep(orig, i, p);
        var cur := points;
        if p.x == cur[i].x && p.y == cur[i].y {
          points := cur[..i] + cur[i + 1..];
        }
        i := i - 1;
      }
      assert orig[0..] == orig;
    }

    /** The divided case of removeRecursive: the point is removed from all four children. */
    method RemoveFromChildren(p: Point)
      requires Valid() && isDivided
      modifies Repr
      ensures Valid() && Repr <= old(Repr)
      ensures var n := old(model);
        var ne', nw', se', sw' := QuadTreeModel.Remove(n.ne, p), QuadTreeModel.Remove(n.nw, p),
                                  QuadTreeModel.Remove(n.se, p), QuadTreeModel.Remove(n.sw, p);
        model == if config.removeEmptyNodes && IsEmptyLeaf(ne') && IsEmptyLeaf(nw') && IsEmptyLeaf(se') && IsEmptyLeaf(sw')
                 then Leaf(container, config, [])
                 else Divided(container, config, ne', nw', se', sw')
      decreases Repr, 1
    {
      RemoveFromChild(ne, p);
      RemoveFromChild(nw, p);
      RemoveFromChild(se, p);
      RemoveFromChild(sw, p);
      CollapseIfEmpty();
    }

    /**
      When removeEmptyNodes is set and the four children are empty leaves,
      they are dropped and this node becomes an empty leaf again.
     */
    method CollapseIfEmpty()
      requires Valid() && isDivided
      modifies this
      ensures Valid() && Repr <= old(Repr)
      ensures model ==
        if config.removeEmptyNodes && IsEmptyLeaf(old(model).ne) && IsEmptyLeaf(old(model).nw) &&
           IsEmptyLeaf(old(model).se) && IsEmptyLeaf(old(model).sw)
        then Leaf(container, config, [])
        else old(model)
    {
      if config.removeEmptyNodes {
        if ne.GetNodePointAmount() == 0 && !ne.isDivided &&
           nw.GetNodePointAmount() == 0 && !nw.isDivided &&
           se.GetNodePointAmount() == 0 && !se.isDivided &&
           sw.GetNodePointAmount() == 0 && !sw.isDivided
        {
          isDivided := false;
          ne, nw, se, sw := null, null, null, null;
          Repr := {this};
          model := Leaf(container, config, []);
        }
      }
    }

    /** One child's removeRecursive call, after which this node's footprint and model cover it again. */
    method RemoveFromChild(child: QuadTree, p: Point)
      requires Valid() && isDivided
      requires child == ne || child == nw || child == se || child == sw
      modifies Repr
      ensures Valid() && Repr <= old(Repr) && isDivided
      ensures ne == old(ne) && nw == old(nw) && se == old(se) && sw == old(sw)
      ensures child.model == QuadTreeModel.Remove(old(child.model), p)
      ensures ne != child ==> ne.model == old(ne.model)
      ensures nw != child ==> nw.model == old(nw.model)
      ensures se != child ==> se.model == old(se.model)
      ensures sw != child ==> sw.model == old(sw.model)
      decreases Repr, 0
    {
      label Offered:
      child.RemoveRecursive(p);
      if ne != child { StillValid@Offered(ne); }
      if nw != child { StillValid@Offered(nw); }
      if se != child { StillValid@Offered(se); }
      if sw != child { StillValid@Offered(sw); }
      AdoptChildren();
    }

    /** query. */
    method Query(range: Shape) returns (pointsFound: seq<Point>)
      requires Invariant()
      ensures pointsFound == QuadTreeModel.Query(model, range)
      ensures pointsFound == Matching(AllPoints(model), range)
    {
      pointsFound := QueryRecursive(range, []);
      QuadTreeProperties.QueryIsFilteredAllPoints(model, range);
    }

    /**
      queryRecursive: nothing from a node whose container the range misses;
      otherwise a leaf's points that the range contains, or the children's
      results in the order ne, nw, se, sw, appended to `pointsFound`.
     */
    method QueryRecursive(range: Shape, pointsFound: seq<Point>) returns (result: seq<Point>)
      requires Valid()
      ensures result == pointsFound + QuadTreeModel.Query(model, range)
      decreases Repr, 1
    {
      result := pointsFound;
      if range.Intersects(container) {
        if isDivided {
          result := QueryChildren(range, result);
          assert QuadTreeModel.Query(model, range) == QuadTreeModel.Query(ne.model, range) + QuadTreeModel.Query(nw.model, range) +
                                                      QuadTreeModel.Query(se.model, range) + QuadTreeModel.Query(sw.model, range);
        } else {
          var found := Matching(points, range);
          result := result + found;
        }
      }
    }

    /** The divided case of queryRecursive: the four children append their results in turn. */
    method QueryChildren(range: Shape, pointsFound: seq<Point>) returns (result: seq<Point>)
      requires Valid() && isDivided
      ensures result == pointsFound + QuadTreeModel.Query(ne.model, range) + QuadTreeModel.Query(nw.model, range) +
                        QuadTreeModel.Query(se.model, range) + QuadTreeModel.Query(sw.model, range)
      decreases Repr, 0
    {
      result := ne.QueryRecursive(range, pointsFound);
      result := nw.QueryRecursive(range, result);
      result := se.QueryRecursive(range, result);
      result := sw.QueryRecursive(range, result);
    }

    /** clear: this node becomes an empty leaf and lets go of its children. */
    method Clear()
      requires Valid()
      modifies this
      ensures Invariant() && Repr == {this}
      ensures model == QuadTreeModel.Clear(old(model))
    {
      points := [];
      isDivided := false;
      ne, nw, se, sw := null, null, null, null;
      Repr := {this};
      model := Leaf(container, config, []);
      QuadTreeProperties.ClearEmpties(old(model));
    }

    /** insert, for one point. */
    method Insert(p: Point)
      requires Invariant() && FiniteDepth(model)
      modifies Repr
      ensures Invariant() && fresh(Repr - old(Repr))
      ensures model == QuadTreeModel.Insert(old(model), p).0
      ensures PointSet(model) == PointSet(old(model)) +
        (if container.Contains(p) && (config.maximumDepth >= 0 || NodePointAmount(old(model)) < config.capacity)
         then {p} else {})
    {
      var _ := InsertRecursive(p);
      QuadTreeInsertion.InsertKeepsInvariant(old(model), p);
    }

    /** insert, for an array of points: each is inserted in turn. */
    method InsertAll(ps: seq<Point>)
      requires Invariant() && (ps == [] || FiniteDepth(model))
      modifies Repr
      ensures Invariant() && fresh(Repr - old(Repr))
      ensures model == QuadTreeModel.InsertAll(old(model), ps)
      ensures PointSet(model) <= PointSet(old(model)) + set q | q in ps
      ensures config.maximumDepth >= 0 ==> PointSet(model) == PointSet(old(model)) + InsideOf(ps, container)
    {
      for i := 0 to |ps|
        invariant Valid() && fresh(Repr - old(Repr))
        invariant model == QuadTreeModel.InsertAll(old(model), ps[..i])
      {
        assert ps[..i + 1][..i] == ps[..i];
        var _ := InsertRecursive(ps[i]);
      }
      assert ps[..|ps|] == ps;
      QuadTreeInsertion.InsertAllKeepsInvariant(old(model), ps);
    }

    /** remove, for one point: getAllPoints loses exactly the points with its coordinates. */
    method Remove(p: Point)
      requires Invariant()
      modifies Repr
      ensures Invariant() && Repr <= old(Repr)
      ensures model == QuadTreeModel.Remove(old(model), p)
      ensures AllPoints(model) == Without(AllPoints(old(model)), p)
    {
      RemoveRecursive(p);
      QuadTreeProperties.RemoveKeepsInvariant(old(model), p);
      QuadTreeProperties.RemoveFiltersAllPoints(old(model), p);
    }

    /** remove, for an array of points: each is removed in turn. */
    method RemoveAll(ps: seq<Point>)
      requires Invariant()
      modifies Repr
      ensures Invariant() && Repr <= old(Repr)
      ensures model == QuadTreeModel.RemoveAll(old(model), ps)
      ensures AllPoints(model) == QuadTreeProperties.WithoutAny(AllPoints(old(model)), ps)
    {
      for i := 0 to |ps|
        invariant Valid() && Repr <= old(Repr)
        invariant model == QuadTreeModel.RemoveAll(old(model), ps[..i])
      {
        assert ps[..i + 1][..i] == ps[..i];
        RemoveRecursive(ps[i]);
      }
      assert ps[..|ps|] == ps;
      QuadTreeProperties.RemoveAllFiltersAllPoints(old(model), ps);
    }

    /** The four new children become this node's quadrants and its point list is emptied. */
    method Attach(a: QuadTree, b: QuadTree, c: QuadTree, d: QuadTree)
      requires a.Valid() && b.Valid() && c.Valid() && d.Valid()
      requires this !in a.Repr && this !in b.Repr && this !in c.Repr && this !in d.Repr
      modifies this`isDivided, this`ne, this`nw, this`se, this`sw, this`points
      ensures isDivided && points == [] && ne == a && nw == b && se == c && sw == d
      ensures a.Valid() && b.Valid() && c.Valid() && d.Valid()
    {
      label Built:
      isDivided, ne, nw, se, sw, points := true, a, b, c, d, [];
      StillValid@Built(a);
      StillValid@Built(b);
      StillValid@Built(c);
      StillValid@Built(d);
    }

    /**
      After one child of a divided node changed within its own footprint and
      grew only by new objects, the node's four children are again valid and
      apart, and the other three are as they were.
     */
    twostate lemma OthersUnaffected(child: QuadTree)
      requires old(this.Valid()) && old(this.isDivided)
      requires child == old(this.ne) || child == old(this.nw) || child == old(this.se) || child == old(this.sw)
      requires unchanged(this)
      requires unchanged(old(this.Repr - child.Repr))
      requires child.Valid() && fresh(child.Repr - old(child.Repr))
      ensures this.ne.Valid() && this.nw.Valid() && this.se.Valid() && this.sw.Valid()
      ensures this !in this.ne.Repr && this !in this.nw.Repr && this !in this.se.Repr && this !in this.sw.Repr
      ensures this.ne.Repr !! this.nw.Repr && this.ne.Repr !! this.se.Repr && this.ne.Repr !! this.sw.Repr
      ensures this.nw.Repr !! this.se.Repr && this.nw.Repr !! this.sw.Repr && this.se.Repr !! this.sw.Repr
      ensures this.ne != child ==> this.ne.model == old(this.ne.model)
      ensures this.nw != child ==> this.nw.model == old(this.nw.model)
      ensures this.se != child ==> this.se.model == old(this.se.model)
      ensures this.sw != child ==> this.sw.model == old(this.sw.model)
    {
      if this.ne != child { StillValid(this.ne); }
      if this.nw != child { StillValid(this.nw); }
      if this.se != child { StillValid(this.se); }
      if this.sw != child { StillValid(this.sw); }
    }

    /** After a child changed: the footprint and the model of this node again cover its four children. */
    ghost method AdoptChildren()
      requires isDivided && points == []
      requires ne != null && nw != null && se != null && sw != null
      requires ne.Valid() && nw.Valid() && se.Valid() && sw.Valid()
      requires this !in ne.Repr && this !in nw.Repr && this !in se.Repr && this !in sw.Repr
      requires ne.Repr !! nw.Repr && ne.Repr !! se.Repr && ne.Repr !! sw.Repr
      requires nw.Repr !! se.Repr && nw.Repr !! sw.Repr && se.Repr !! sw.Repr
      modifies this`Repr, this`model
      ensures Repr == {this} + ne.Repr + nw.Repr + se.Repr + sw.Repr
      ensures model == Divided(container, config, ne.model, nw.model, se.model, sw.model)
      ensures Valid()
    {
      label Before:
      Repr, model := {this} + ne.Repr + nw.Repr + se.Repr + sw.Repr,
                     Divided(container, config, ne.model, nw.model, se.model, sw.model);
      StillValid@Before(ne);
      StillValid@Before(nw);
      StillValid@Before(se);
      StillValid@Before(sw);
    }
  }

  /**
    The children divide creates for a node with this container and
    configuration: one level less of depth, one child per quadrant, each a new
    tree built from the node's points.
   */
  method NewQuadrants(container: Box, config: Config, points: seq<Point>)
    returns (ne: QuadTree, nw: QuadTree, se: QuadTree, sw: QuadTree)
    requires config.maximumDepth > 0
    ensures ne.Valid() && nw.Valid() && se.Valid() && sw.Valid()
    ensures fresh(ne.Repr) && fresh(nw.Repr) && fresh(se.Repr) && fresh(sw.Repr)
    ensures ne.Repr !! nw.Repr && ne.Repr !! se.Repr && ne.Repr !! sw.Repr
    ensures nw.Repr !! se.Repr && nw.Repr !! sw.Repr && se.Repr !! sw.Repr
    ensures ne.model == New(NeQuadrant(container), ChildConfig(config), points)
    ensures nw.model == New(NwQuadrant(container), ChildConfig(config), points)
    ensures se.model == New(SeQuadrant(container), ChildConfig(config), points)
    ensures sw.model == New(SwQuadrant(container), ChildConfig(config), points)
    decreases DepthBudget(config), 1
  {
    var childMaximumDepth := if config.maximumDepth == -1 then -1 else config.maximumDepth - 1;
    var childConfig := config.(maximumDepth := childMaximumDepth);
    assert childConfig == ChildConfig(config);

    var x := container.x;
    var y := container.y;
    var w := container.w / 2.0;
    var h := container.h / 2.0;

    ne := NewChild(Box(x + w, y, w, h), childConfig, points);
    label NeBuilt:
    nw := NewChild(Box(x, y, w, h), childConfig, points);
    label NwBuilt:
    se := NewChild(Box(x + w, y + h, w, h), childConfig, points);
    label SeBuilt:
    sw := NewChild(Box(x, y + h, w, h), childConfig, points);
    StillValid@NeBuilt(ne);
    StillValid@NwBuilt(nw);
    StillValid@SeBuilt(se);
  }

  /**
    One backward step of the splice loop: with the suffix after `i` already
    filtered, deciding on `pts[i]` filters the suffix from `i`.
   */
  lemma SpliceStep(pts: seq<Point>, i: nat, p: Point)
    requires i < |pts|
    ensures var cur := pts[..i + 1] + Without(pts[i + 1..], p);
      cur[i] == pts[i] && cur == cur[..i] + [cur[i]] + cur[i + 1..] &&
      cur[..i] + (if SameCoordinates(p, pts[i]) then [] else [pts[i]]) + cur[i + 1..]
        == pts[..i] + Without(pts[i..], p)
  {
    var cur := pts[..i + 1] + Without(pts[i + 1..], p);
    assert cur[..i] == pts[..i];
    assert cur[i + 1..] == Without(pts[i + 1..], p);
    assert pts[i..][1..] == pts[i + 1..];
    Decompose(cur, i);
  }

  /** A sequence is its prefix before `i`, its element at `i` and the rest. */
  lemma Decompose<T>(s: seq<T>, i: nat)
    requires i < |s|
    ensures s == s[..i] + [s[i]] + s[i + 1..]
  {
    assert s[..i + 1] == s[..i] + [s[i]];
    assert s == s[..i + 1] + s[i + 1..];
  }

  /** One child of a dividing node: a new tree on `container` with a complete configuration. */
  method NewChild(container: Box, config: Config, points: seq<Point>) returns (t: QuadTree)
    requires config.maximumDepth != -1
    ensures t.Valid() && fresh(t.Repr)
    ensures t.model == New(container, config, points)
    decreases DepthBudget(config), 6
  {
    t := new QuadTree(container, AllFields(config), points);
  }

  /** A node stays valid while nothing in its footprint changes. */
  twostate lemma StillValid(t: QuadTree)
    requires old(t.Valid())
    requires unchanged(old(t.Repr))
    ensures t.Valid()
  {
  }
}
