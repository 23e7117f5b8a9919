/**
  What insertion guarantees. Insert, Divide and the constructor call one
  another, so their lemmas do too, on the same decreasing depth budget as the
  functions themselves.
 */
module QuadTreeInsertion {
  import opened Points
  import opened Boxes
  import opened QuadTreeModel

  /** The points of a divided node are those of its four children. */
  lemma PointSetOfDivided(n: Node)
    requires n.Divided?
    ensures PointSet(n) == PointSet(n.ne) + PointSet(n.nw) + PointSet(n.se) + PointSet(n.sw)
  {
    var a, b, c, d := AllPoints(n.ne), AllPoints(n.nw), AllPoints(n.se), AllPoints(n.sw);
    assert AllPoints(n) == a + b + c + d;
    forall q ensures q in AllPoints(n) <==> q in a || q in b || q in c || q in d {
    }
  }

  /**
    Inserting into a valid tree of finite depth keeps it valid and adds
    exactly the inserted point to the set of stored points when the point
    is taken. The point is taken exactly when the container holds it,
    except that a full leaf whose maximumDepth is below -1 drops it.
   */
  lemma {:induction false} InsertKeepsInvariant(n: Node, p: Point)
    requires Valid(n) && FiniteDepth(n)
    ensures var r := Insert(n, p);
      Valid(r.0) &&
      PointSet(r.0) == PointSet(n) + (if r.1 then {p} else {}) &&
      (r.1 <==> n.container.Contains(p) && (n.config.maximumDepth >= 0 || NodePointAmount(n) < n.config.capacity))
    decreases DepthBudget(n.config), 3
  {
    if !n.container.Contains(p) {
      return;
    }
    match n
    case Leaf(b, c, pts) =>
      if NodePointAmount(n) < c.capacity || c.maximumDepth == 0 {
        var leaf := Leaf(b, c, pts + [p]);
        assert AllPoints(leaf) == pts + [p];
        assert PointSet(leaf) == PointSet(n) + {p};
      } else if CanDivide(c) {
        DivideSpreadsPoints(b, c, pts);
        var d := Divide(b, c, pts);
        InsertIntoChildrenTakes(d, p);
      } else {
        assert c.maximumDepth < -1;
      }
    case Divided(_, _, ne, nw, se, sw) =>
      InsertIntoChildrenTakes(n, p);
  }

  /**
    A divided node of finite depth always places a point its container
    holds: the first quadrant holding it takes it.
   */
  lemma {:induction false} InsertIntoChildrenTakes(n: Node, p: Point)
    requires n.Divided? && WellFormed(n) && FiniteDepth(n) && n.container.Contains(p)
    requires Valid(n.ne) && Valid(n.nw) && Valid(n.se) && Valid(n.sw)
    ensures var r := InsertIntoChildren(n, p);
      r.1 && Valid(r.0) && PointSet(r.0) == PointSet(n) + {p}
    decreases DepthBudget(n.config), 1
  {
    QuadrantsCoverBox(n.container, p);
    var r := InsertIntoChildren(n, p);
    InsertKeepsInvariant(n.ne, p);
    var ne := Insert(n.ne, p);
    if !ne.1 {
      InsertKeepsInvariant(n.nw, p);
      var nw := Insert(n.nw, p);
      if !nw.1 {
        InsertKeepsInvariant(n.se, p);
        var se := Insert(n.se, p);
        if !se.1 {
          InsertKeepsInvariant(n.sw, p);
        }
      }
    }
    assert r.0.Divided?;
    PointSetOfDivided(n);
    PointSetOfDivided(r.0);
    assert p in PointSet(r.0);
  }

  /**
    divide: each child holds exactly the former points of the leaf that its
    quadrant contains, so together they hold all of them.
   */
  lemma {:induction false} DivideSpreadsPoints(b: Box, c: Config, pts: seq<Point>)
    requires c.maximumDepth > 0
    requires forall q :: q in pts ==> b.Contains(q)
    ensures var d := Divide(b, c, pts);
      Valid(d.ne) && Valid(d.nw) && Valid(d.se) && Valid(d.sw) &&
      PointSet(d.ne) == InsideOf(pts, NeQuadrant(b)) && PointSet(d.nw) == InsideOf(pts, NwQuadrant(b)) &&
      PointSet(d.se) == InsideOf(pts, SeQuadrant(b)) && PointSet(d.sw) == InsideOf(pts, SwQuadrant(b)) &&
      PointSet(d) == set q | q in pts
    decreases DepthBudget(c), 2
  {
    var cc := ChildConfig(c);
    var d := Divide(b, c, pts);
    InsertAllKeepsInvariant(Leaf(NeQuadrant(b), cc, []), pts);
    InsertAllKeepsInvariant(Leaf(NwQuadrant(b), cc, []), pts);
    InsertAllKeepsInvariant(Leaf(SeQuadrant(b), cc, []), pts);
    InsertAllKeepsInvariant(Leaf(SwQuadrant(b), cc, []), pts);
    PointSetOfDivided(d);
    forall q | q in pts ensures q in PointSet(d) {
      QuadrantsCoverBox(b, q);
    }
  }

  /**
    The points inserted one after another: the tree stays valid and, at a
    finite non-negative depth, stores exactly its former points and the new
    points its container holds.
   */
  lemma {:induction false} InsertAllKeepsInvariant(n: Node, ps: seq<Point>)
    requires Valid(n) && (ps == [] || FiniteDepth(n))
    ensures Valid(InsertAll(n, ps))
    ensures PointSet(InsertAll(n, ps)) <= PointSet(n) + set q | q in ps
    ensures n.config.maximumDepth >= 0 ==> PointSet(InsertAll(n, ps)) == PointSet(n) + InsideOf(ps, n.container)
    decreases DepthBudget(n.config), 4, |ps|
  {
    if ps != [] {
      var k := |ps| - 1;
      InsertAllKeepsInvariant(n, ps[..k]);
      var m := InsertAll(n, ps[..k]);
      InsertKeepsInvariant(m, ps[k]);
      assert ps == ps[..k] + [ps[k]];
      assert forall q :: q in ps <==> q in ps[..k] || q == ps[k];
    }
  }
}
