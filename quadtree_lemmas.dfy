/**
  What removal, querying, enumeration and the depth limit guarantee about the
  value model of the quadtree.
 */
module QuadTreeProperties {
  import opened Points
  import opened Boxes
  import opened Shapes
  import opened QuadTreeModel
  import QuadTreeInsertion

  // ---------------------------------------------------------------- containment

  /** In a well-formed tree every stored point lies in the root's container. */
  lemma {:induction false} AllPointsInContainer(n: Node)
    requires WellFormed(n) && PointsInContainers(n)
    ensures forall q :: q in AllPoints(n) ==> n.container.Contains(q)
  {
    match n
    case Leaf(_, _, _) =>
    case Divided(b, _, ne, nw, se, sw) =>
      AllPointsInContainer(ne);
      AllPointsInContainer(nw);
      AllPointsInContainer(se);
      AllPointsInContainer(sw);
      forall q | q in AllPoints(n) ensures b.Contains(q) {
        QuadrantsInsideBox(b, q);
      }
  }

  // ---------------------------------------------------------------- query

  lemma {:induction false} MatchingAppend(a: seq<Point>, b: seq<Point>, s: Shape)
    ensures Matching(a + b, s) == Matching(a, s) + Matching(b, s)
  {
    if a == [] {
      assert a + b == b;
    } else {
      assert (a + b)[0] == a[0];
      assert (a + b)[1..] == a[1..] + b;
      MatchingAppend(a[1..], b, s);
    }
  }

  lemma {:induction false} MatchingNone(a: seq<Point>, s: Shape)
    requires forall q :: q in a ==> !s.Contains(q)
    ensures Matching(a, s) == []
  {
    if a != [] {
      MatchingNone(a[1..], s);
    }
  }

  /**
    query returns exactly the stored points the range contains, in the order
    getAllPoints lists them: pruning a subtree whose container the range
    misses loses nothing, and nothing outside the range is returned.
   */
  lemma {:induction false} QueryIsFilteredAllPoints(n: Node, s: Shape)
    requires WellFormed(n) && PointsInContainers(n)
    ensures Query(n, s) == Matching(AllPoints(n), s)
  {
    if !s.Intersects(n.container) {
      AllPointsInContainer(n);
      forall q | q in AllPoints(n) ensures !s.Contains(q) {
        if s.Contains(q) {
          PruningIsSafe(s, n.container, q);
        }
      }
      MatchingNone(AllPoints(n), s);
    } else {
      match n
      case Leaf(_, _, _) =>
      case Divided(_, _, ne, nw, se, sw) =>
        QueryIsFilteredAllPoints(ne, s);
        QueryIsFilteredAllPoints(nw, s);
        QueryIsFilteredAllPoints(se, s);
        QueryIsFilteredAllPoints(sw, s);
        MatchingAppend(AllPoints(ne), AllPoints(nw), s);
        MatchingAppend(AllPoints(ne) + AllPoints(nw), AllPoints(se), s);
        MatchingAppend(AllPoints(ne) + AllPoints(nw) + AllPoints(se), AllPoints(sw), s);
    }
  }

  /** A point is in the query result exactly when it is stored and the range contains it. */
  lemma QuerySoundAndComplete(n: Node, s: Shape, q: Point)
    requires WellFormed(n) && PointsInContainers(n)
    ensures q in Query(n, s) <==> q in AllPoints(n) && s.Contains(q)
  {
    QueryIsFilteredAllPoints(n, s);
  }

  // ---------------------------------------------------------------- remove

  lemma {:induction false} WithoutAppend(a: seq<Point>, b: seq<Point>, p: Point)
    ensures Without(a + b, p) == Without(a, p) + Without(b, p)
  {
    if a == [] {
      assert a + b == b;
    } else {
      assert (a + b)[0] == a[0];
      assert (a + b)[1..] == a[1..] + b;
      WithoutAppend(a[1..], b, p);
    }
  }

  lemma {:induction false} WithoutNothingMatching(a: seq<Point>, p: Point)
    requires forall q :: q in a ==> !SameCoordinates(p, q)
    ensures Without(a, p) == a
  {
    if a != [] {
      WithoutNothingMatching(a[1..], p);
    }
  }

  /**
    remove takes out of getAllPoints every point with the coordinates of
    `p`, and only those, keeping the others in their order; the collapse of
    empty children loses nothing.
   */
  lemma {:induction false} RemoveFiltersAllPoints(n: Node, p: Point)
    requires WellFormed(n) && PointsInContainers(n)
    ensures AllPoints(Remove(n, p)) == Without(AllPoints(n), p)
  {
    if !n.container.Contains(p) {
      AllPointsInContainer(n);
      WithoutNothingMatching(AllPoints(n), p);
    } else {
      match n
      case Leaf(_, _, _) =>
      case Divided(_, _, ne, nw, se, sw) =>
        RemoveFiltersAllPoints(ne, p);
        RemoveFiltersAllPoints(nw, p);
        RemoveFiltersAllPoints(se, p);
        RemoveFiltersAllPoints(sw, p);
        WithoutAppend(AllPoints(ne), AllPoints(nw), p);
        WithoutAppend(AllPoints(ne) + AllPoints(nw), AllPoints(se), p);
        WithoutAppend(AllPoints(ne) + AllPoints(nw) + AllPoints(se), AllPoints(sw), p);
    }
  }

  /** After remove no stored point has the coordinates of `p`, and every other point stays. */
  lemma RemoveDeletesExactlyMatches(n: Node, p: Point, q: Point)
    requires WellFormed(n) && PointsInContainers(n)
    ensures q in AllPoints(Remove(n, p)) <==> q in AllPoints(n) && !SameCoordinates(p, q)
  {
    RemoveFiltersAllPoints(n, p);
  }

  /** An empty subtree without empty divided nodes is a single empty leaf. */
  lemma EmptyIsEmptyLeaf(n: Node)
    requires NoEmptyDivided(n) && AllPoints(n) == []
    ensures n.Leaf? && n.points == [] && GetTree(n) == Count(0)
  {
  }

  /** remove keeps a valid tree valid. */
  lemma {:induction false} RemoveKeepsInvariant(n: Node, p: Point)
    requires Valid(n)
    ensures Valid(Remove(n, p))
  {
    if n.container.Contains(p) {
      match n
      case Leaf(b, c, pts) =>
      case Divided(b, c, ne, nw, se, sw) =>
        RemoveKeepsInvariant(ne, p);
        RemoveKeepsInvariant(nw, p);
        RemoveKeepsInvariant(se, p);
        RemoveKeepsInvariant(sw, p);
        var r := Remove(n, p);
        if r.Divided? && c.removeEmptyNodes {
          if AllPoints(r) == [] {
            EmptyIsEmptyLeaf(r.ne);
            EmptyIsEmptyLeaf(r.nw);
            EmptyIsEmptyLeaf(r.se);
            EmptyIsEmptyLeaf(r.sw);
            assert false;
          }
        }
    }
  }

  /** The shape of a getTree result, with every count set to zero. */
  function Skeleton(t: TreeView): TreeView {
    match t
    case Count(_) => Count(0)
    case Quad(ne, nw, se, sw) => Quad(Skeleton(ne), Skeleton(nw), Skeleton(se), Skeleton(sw))
  }

  /** Without removeEmptyNodes, remove never changes the shape of the tree, only leaf counts. */
  lemma {:induction false} RemoveKeepsShape(n: Node, p: Point)
    requires WellFormed(n) && !n.config.removeEmptyNodes
    ensures Skeleton(GetTree(Remove(n, p))) == Skeleton(GetTree(n))
  {
    if n.container.Contains(p) {
      match n
      case Leaf(_, _, _) =>
      case Divided(_, _, ne, nw, se, sw) =>
        RemoveKeepsShape(ne, p);
        RemoveKeepsShape(nw, p);
        RemoveKeepsShape(se, p);
        RemoveKeepsShape(sw, p);
    }
  }

  /** A list without every point that has the coordinates of some point of `ps`. */
  function WithoutAny(s: seq<Point>, ps: seq<Point>): (r: seq<Point>)
    ensures forall q :: q in r <==> q in s && forall p :: p in ps ==> !SameCoordinates(p, q)
  {
    if ps == [] then s
    else
      var k := |ps| - 1;
      assert forall p :: p in ps <==> p in ps[..k] || p == ps[k] by {
        assert ps == ps[..k] + [ps[k]];
      }
      Without(WithoutAny(s, ps[..k]), ps[k])
  }

  /** The batch form of remove removes from getAllPoints every point matching one of the list. */
  lemma {:induction false} RemoveAllFiltersAllPoints(n: Node, ps: seq<Point>)
    requires Valid(n)
    ensures Valid(RemoveAll(n, ps))
    ensures AllPoints(RemoveAll(n, ps)) == WithoutAny(AllPoints(n), ps)
  {
    if ps != [] {
      var k := |ps| - 1;
      RemoveAllFiltersAllPoints(n, ps[..k]);
      RemoveKeepsInvariant(RemoveAll(n, ps[..k]), ps[k]);
      RemoveFiltersAllPoints(RemoveAll(n, ps[..k]), ps[k]);
    }
  }

  /** The first element of a non-empty list is one of its elements. */
  lemma HeadIsMember(s: seq<Point>)
    requires s != []
    ensures s[0] in s
  {
  }

  /**
    With removeEmptyNodes set, removing every stored point leaves a single
    empty leaf: getAllPoints is empty and getTree is 0.
   */
  lemma RemovingEverythingCollapses(n: Node, ps: seq<Point>)
    requires Valid(n) && n.config.removeEmptyNodes
    requires forall q :: q in AllPoints(n) ==> exists p :: p in ps && SameCoordinates(p, q)
    ensures AllPoints(RemoveAll(n, ps)) == [] && GetTree(RemoveAll(n, ps)) == Count(0)
  {
    RemoveAllFiltersAllPoints(n, ps);
    var r := RemoveAll(n, ps);
    if AllPoints(r) != [] {
      HeadIsMember(AllPoints(r));
      assert false;
    }
    EmptyIsEmptyLeaf(r);
  }

  // ---------------------------------------------------------------- getTree and depth

  /** The sum of the counts of a getTree result. */
  function Total(t: TreeView): nat {
    match t
    case Count(k) => k
    case Quad(ne, nw, se, sw) => Total(ne) + Total(nw) + Total(se) + Total(sw)
  }

  /** The number of levels below the root of a getTree result. */
  function Height(t: TreeView): nat {
    match t
    case Count(_) => 0
    case Quad(ne, nw, se, sw) =>
      1 + Max4(Height(ne), Height(nw), Height(se), Height(sw))
  }

  function Max4(a: nat, b: nat, c: nat, d: nat): nat {
    var ab := if a >= b then a else b;
    var cd := if c >= d then c else d;
    if ab >= cd then ab else cd
  }

  /** getTree counts every stored point once: its counts add up to the length of getAllPoints. */
  lemma {:induction false} TreeCountsAllPoints(n: Node)
    ensures Total(GetTree(n)) == |AllPoints(n)|
  {
    match n
    case Leaf(_, _, _) =>
    case Divided(_, _, ne, nw, se, sw) =>
      TreeCountsAllPoints(ne);
      TreeCountsAllPoints(nw);
      TreeCountsAllPoints(se);
      TreeCountsAllPoints(sw);
  }

  /**
    The tree never grows deeper than a non-negative maximumDepth, and a
    maximumDepth below -1 keeps the root a leaf.
   */
  lemma {:induction false} DepthWithinMaximum(n: Node)
    requires WellFormed(n)
    ensures n.config.maximumDepth >= 0 ==> Height(GetTree(n)) <= n.config.maximumDepth
    ensures n.config.maximumDepth < -1 ==> n.Leaf?
  {
    match n
    case Leaf(_, _, _) =>
    case Divided(_, _, ne, nw, se, sw) =>
      DepthWithinMaximum(ne);
      DepthWithinMaximum(nw);
      DepthWithinMaximum(se);
      DepthWithinMaximum(sw);
  }

  /**
    With maximumDepth 0 a leaf never divides: inserting a list appends the
    points its container holds, in order, so getTree is that leaf's count.
   */
  lemma {:induction false} DepthZeroNeverDivides(b: Box, c: Config, pts: seq<Point>, ps: seq<Point>)
    requires c.maximumDepth == 0
    ensures InsertAll(Leaf(b, c, pts), ps) == Leaf(b, c, pts + Inside(ps, b))
    ensures GetTree(InsertAll(Leaf(b, c, pts), ps)) == Count(|pts| + |Inside(ps, b)|)
  {
    if ps != [] {
      DepthZeroNeverDivides(b, c, pts, ps[..|ps| - 1]);
    }
  }

  // ---------------------------------------------------------------- insertion order

  /**
    In a divided node the point goes to the first of ne, nw, se, sw whose
    quadrant holds it, and the other three children are left as they were.
   */
  lemma InsertGoesToFirstQuadrant(n: Node, p: Point)
    requires Valid(n) && FiniteDepth(n) && n.Divided? && n.container.Contains(p)
    ensures Insert(n, p).1
    ensures Insert(n, p).0 ==
      if n.ne.container.Contains(p) then n.(ne := Insert(n.ne, p).0)
      else if n.nw.container.Contains(p) then n.(nw := Insert(n.nw, p).0)
      else if n.se.container.Contains(p) then n.(se := Insert(n.se, p).0)
      else n.(sw := Insert(n.sw, p).0)
  {
    QuadrantsCoverBox(n.container, p);
    QuadTreeInsertion.InsertKeepsInvariant(n.ne, p);
    QuadTreeInsertion.InsertKeepsInvariant(n.nw, p);
    QuadTreeInsertion.InsertKeepsInvariant(n.se, p);
    QuadTreeInsertion.InsertKeepsInvariant(n.sw, p);
  }

  /**
    A point outside the container is refused and changes nothing; a leaf
    below capacity, or at depth 0, takes the point at the end of its list.
   */
  lemma InsertIntoLeaf(n: Node, p: Point)
    requires WellFormed(n) && FiniteDepth(n)
    ensures !n.container.Contains(p) ==> Insert(n, p) == (n, false)
    ensures n.Leaf? && n.container.Contains(p) && (|n.points| < n.config.capacity || n.config.maximumDepth == 0) ==>
      Insert(n, p) == (n.(points := n.points + [p]), true)
  {
  }

  /** A cleared node is an empty leaf: no points and a getTree of 0. */
  lemma ClearEmpties(n: Node)
    ensures Valid(Clear(n)) && AllPoints(Clear(n)) == [] && GetTree(Clear(n)) == Count(0)
  {
  }
}
