/** Worked examples: particular trees built by insert, computed through the model. */
module QuadTreeExamples {
  import opened Points
  import opened Boxes
  import opened QuadTreeModel
  import QuadTreeProperties

  const Root := Box(0.0, 0.0, 10.0, 10.0)
  const Depth3 := Config(4, false, 3)
  const Depth2 := Config(4, false, 2)
  const Depth1 := Config(4, false, 1)
  const P1 := Point(5.0, 5.0)
  const P2 := Point(6.0, 5.0)
  const P3 := Point(4.0, 5.0)
  const P4 := Point(3.0, 5.0)
  const P5 := Point(2.0, 5.0)
  const P6 := Point(1.0, 5.0)

  /** The tree after the fifth point: the root has divided. */
  function AfterFive(): Node {
    Divided(Root, Depth3,
            Leaf(NeQuadrant(Root), Depth2, [P1, P2]),
            Leaf(NwQuadrant(Root), Depth2, [P1, P3, P4, P5]),
            Leaf(SeQuadrant(Root), Depth2, [P1, P2]),
            Leaf(SwQuadrant(Root), Depth2, [P1, P3, P4]))
  }

  lemma FirstFourFillTheRoot()
    ensures InsertAll(Leaf(Root, Depth3, []), [P1, P2, P3, P4]) == Leaf(Root, Depth3, [P1, P2, P3, P4])
  {
    var ps := [P1, P2, P3, P4];
    assert ps[..3] == [P1, P2, P3] && [P1, P2, P3][..2] == [P1, P2] && [P1, P2][..1] == [P1];
    assert InsertAll(Leaf(Root, Depth3, []), [P1]) == Leaf(Root, Depth3, [P1]);
    assert InsertAll(Leaf(Root, Depth3, []), [P1, P2]) == Leaf(Root, Depth3, [P1, P2]);
    assert InsertAll(Leaf(Root, Depth3, []), [P1, P2, P3]) == Leaf(Root, Depth3, [P1, P2, P3]);
  }

  lemma FifthDividesTheRoot()
    ensures Insert(Leaf(Root, Depth3, [P1, P2, P3, P4]), P5) == (AfterFive(), true)
  {
    var pts := [P1, P2, P3, P4];
    assert ChildConfig(Depth3) == Depth2;
    NewLeaf(NeQuadrant(Root), Depth2, pts, [P1, P2]);
    NewLeaf(NwQuadrant(Root), Depth2, pts, [P1, P3, P4]);
    NewLeaf(SeQuadrant(Root), Depth2, pts, [P1, P2]);
    NewLeaf(SwQuadrant(Root), Depth2, pts, [P1, P3, P4]);
    var d := Divide(Root, Depth3, pts);
    assert d == Divided(Root, Depth3,
                        Leaf(NeQuadrant(Root), Depth2, [P1, P2]),
                        Leaf(NwQuadrant(Root), Depth2, [P1, P3, P4]),
                        Leaf(SeQuadrant(Root), Depth2, [P1, P2]),
                        Leaf(SwQuadrant(Root), Depth2, [P1, P3, P4]));
    assert Insert(d.ne, P5) == (d.ne, false);
    assert NwQuadrant(Root).Contains(P5) && NodePointAmount(d.nw) == 3;
    assert [P1, P3, P4] + [P5] == [P1, P3, P4, P5];
    assert Insert(d.nw, P5) == (Leaf(NwQuadrant(Root), Depth2, [P1, P3, P4, P5]), true);
    assert Insert(Leaf(Root, Depth3, pts), P5) == InsertIntoChildren(d, P5);
  }

  lemma SixthDividesNw()
    ensures GetTree(Insert(AfterFive(), P6).0)
            == Quad(Count(2), Quad(Count(0), Count(0), Count(3), Count(2)), Count(2), Count(3))
  {
    var nw := NwQuadrant(Root);
    var pts := [P1, P3, P4, P5];
    NewLeaf(NeQuadrant(nw), Depth1, pts, []);
    NewLeaf(NwQuadrant(nw), Depth1, pts, []);
    NewLeaf(SeQuadrant(nw), Depth1, pts, [P1, P3, P4]);
    NewLeaf(SwQuadrant(nw), Depth1, pts, [P5]);
  }

  /** A child built from four points that receives no more than its capacity stays a leaf. */
  lemma NewLeaf(b: Box, c: Config, pts: seq<Point>, kept: seq<Point>)
    requires c.capacity == 4 && c.maximumDepth > 0 && |pts| == 4
    requires kept == Inside4(pts, b)
    ensures New(b, c, pts) == Leaf(b, c, kept)
  {
    var l := Leaf(b, c, []);
    assert pts[..3][..2][..1] == pts[..1] && pts[..3][..2] == pts[..2] && pts[..4] == pts;
    assert InsertAll(l, pts[..1]) == Leaf(b, c, Keep(pts[0], b));
    assert InsertAll(l, pts[..2]) == Leaf(b, c, Keep(pts[0], b) + Keep(pts[1], b));
    assert InsertAll(l, pts[..3]) == Leaf(b, c, Keep(pts[0], b) + Keep(pts[1], b) + Keep(pts[2], b));
    assert InsertAll(l, pts) == Insert(InsertAll(l, pts[..3]), pts[3]).0;
  }

  /** `p` if the box contains it, else nothing. */
  function Keep(p: Point, b: Box): seq<Point> {
    if b.Contains(p) then [p] else []
  }

  /** Inside, unrolled for a list of four points so that the examples compute by evaluation. */
  function Inside4(pts: seq<Point>, b: Box): seq<Point>
    requires |pts| == 4
  {
    Keep(pts[0], b) + Keep(pts[1], b) + Keep(pts[2], b) + Keep(pts[3], b)
  }

  /**
    Six points on the line y = 5 in the box (0, 0, 10, 10) with capacity 4:
    the fifth divides the root, the sixth divides its nw child, and the
    points on quadrant edges are kept by every quadrant that holds them. The
    depth limit 3 is never reached, so this is also the unlimited tree.
    getAllPoints then lists 12 entries for the 6 points inserted.
   */
  lemma GetTreeAfterSixInserts()
    ensures GetTree(InsertAll(Leaf(Root, Depth3, []), [P1, P2, P3, P4, P5, P6]))
            == Quad(Count(2), Quad(Count(0), Count(0), Count(3), Count(2)), Count(2), Count(3))
    ensures |AllPoints(InsertAll(Leaf(Root, Depth3, []), [P1, P2, P3, P4, P5, P6]))| == 12
  {
    var ps := [P1, P2, P3, P4, P5, P6];
    assert ps[..5][..4] == [P1, P2, P3, P4] && ps[..5] == [P1, P2, P3, P4, P5];
    FirstFourFillTheRoot();
    FifthDividesTheRoot();
    SixthDividesNw();
    QuadTreeProperties.TreeCountsAllPoints(InsertAll(Leaf(Root, Depth3, []), ps));
  }
}
