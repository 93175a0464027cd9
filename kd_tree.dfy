/** Model of src/kd_tree.py: a 2-D kd-tree that stores one point in every node.

    `build_kd_tree` sorts the points on the axis chosen by the depth, keeps the
    middle element in the node and recurses on the elements before and after
    it.  `update_plot_range` splits the drawing box of a node at its point; the
    drawing itself is not modelled. */
module KdTree {
  import opened Sorting

  /** A point `(x, y)`. */
  datatype Point = Point(x: real, y: real)

  datatype Option<T> = None | Some(value: T)

  /** A `KDNode`; `Nil` stands for Python's `None`. */
  datatype KdNode = Nil | KdNode(point: Point, axis: int, left: KdNode, right: KdNode)

  /** `point[axis]` for the two axes the builder uses. */
  function Coord(p: Point, axis: int): real {
    if axis == 0 then p.x else p.y
  }

  /** The sort key `lambda point: point[axis]`. */
  function AxisKey(axis: int): Point -> real {
    p => Coord(p, axis)
  }

  /** The points stored in the nodes of `t`, with repetitions. */
  function Points(t: KdNode): multiset<Point> {
    match t
    case Nil => multiset{}
    case KdNode(p, _, left, right) => multiset{p} + Points(left) + Points(right)
  }

  /** The number of nodes of `t`. */
  function Size(t: KdNode): nat {
    match t
    case Nil => 0
    case KdNode(_, _, left, right) => 1 + Size(left) + Size(right)
  }

  // ---------------------------------------------------------------------------
  // build_kd_tree
  // ---------------------------------------------------------------------------

  /** `build_kd_tree(points, depth)` on a list nobody else observes (the
      recursive calls, which receive fresh slices). */
  function Build(points: seq<Point>, depth: int): (t: KdNode)
    ensures t == Nil <==> |points| == 0
    decreases |points|
  {
    if |points| == 0 then Nil
    else
      var axis := depth % 2;
      var sorted := SortBy(points, AxisKey(axis));
      var median := |sorted| / 2;
      KdNode(sorted[median], axis,
             Build(sorted[..median], depth + 1),
             Build(sorted[median + 1..], depth + 1))
  }

  /** The top-level call `build_kd_tree(points, ax=ax)` with the drawing
      removed: the caller's list is sorted in place on the root axis (a
      stable sort), and the tree is the one the recursion builds. */
  method BuildKdTree(points: array<Point>, depth: int) returns (t: KdNode)
    modifies points
    ensures points[..] == SortBy(old(points[..]), AxisKey(depth % 2))
    ensures t == Build(old(points[..]), depth)
    ensures t != Nil ==> t.point == points[points.Length / 2]
    ensures t != Nil ==> Points(t.left) == multiset(points[..points.Length / 2])
    ensures t != Nil ==> Points(t.right) == multiset(points[points.Length / 2 + 1..])
  {
    if points.Length == 0 {
      return Nil;
    }
    ghost var given := points[..];
    var axis := depth % 2;
    SortInPlace(points, AxisKey(axis));
    var median := points.Length / 2;
    var left := Build(points[..median], depth + 1);
    var right := Build(points[median + 1..], depth + 1);
    t := KdNode(points[median], axis, left, right);
    BuildRoot(given, depth);
    BuildKeepsEveryPoint(points[..median], depth + 1);
    BuildKeepsEveryPoint(points[median + 1..], depth + 1);
  }

  /** `points.sort(key=...)`: a stable sort of the caller's list in place. */
  method SortInPlace(points: array<Point>, key: Point -> real)
    modifies points
    ensures points[..] == SortBy(old(points[..]), key)
  {
    var sorted := SortBy(points[..], key);
    forall i | 0 <= i < points.Length {
      points[i] := sorted[i];
    }
    assert points[..] == sorted;
  }

  /** One level of `Build`: the root holds the median of the sorted input and
      the children are built from the elements before and after it. */
  lemma BuildRoot(points: seq<Point>, depth: int)
    requires |points| > 0
    ensures var sorted := SortBy(points, AxisKey(depth % 2));
            var median := |sorted| / 2;
            Build(points, depth)
              == KdNode(sorted[median], depth % 2, Build(sorted[..median], depth + 1), Build(sorted[median + 1..], depth + 1))
  {
  }

  /** Every input point is stored in exactly one node: the multiset of stored
      points is the input multiset, and there is one node per input point. */
  lemma {:induction false} BuildKeepsEveryPoint(points: seq<Point>, depth: int)
    ensures Points(Build(points, depth)) == multiset(points)
    ensures Size(Build(points, depth)) == |points|
    decreases |points|
  {
    if |points| > 0 {
      var sorted := SortBy(points, AxisKey(depth % 2));
      var median := |sorted| / 2;
      var t := Build(points, depth);
      assert t.point == sorted[median];
      assert t.left == Build(sorted[..median], depth + 1);
      assert t.right == Build(sorted[median + 1..], depth + 1);
      BuildKeepsEveryPoint(sorted[..median], depth + 1);
      BuildKeepsEveryPoint(sorted[median + 1..], depth + 1);
      SplitAround(sorted, median);
    }
  }

  /** A node at depth `d` splits on axis `d % 2`, so axes alternate along every path. */
  ghost predicate AxesFollowDepth(t: KdNode, depth: int) {
    t.KdNode? ==>
      && t.axis == depth % 2
      && AxesFollowDepth(t.left, depth + 1)
      && AxesFollowDepth(t.right, depth + 1)
  }

  /** The children of every node split on the other axis. */
  ghost predicate AxesAlternate(t: KdNode) {
    t.KdNode? ==>
      && (t.left.KdNode? ==> t.left.axis == 1 - t.axis)
      && (t.right.KdNode? ==> t.right.axis == 1 - t.axis)
      && AxesAlternate(t.left)
      && AxesAlternate(t.right)
  }

  lemma {:induction false} AxesFollowDepthAlternate(t: KdNode, depth: int)
    requires AxesFollowDepth(t, depth)
    ensures AxesAlternate(t)
  {
    if t.KdNode? {
      AxesFollowDepthAlternate(t.left, depth + 1);
      AxesFollowDepthAlternate(t.right, depth + 1);
    }
  }

  lemma {:induction false} BuildAxes(points: seq<Point>, depth: int)
    ensures AxesFollowDepth(Build(points, depth), depth)
    ensures AxesAlternate(Build(points, depth))
    decreases |points|
  {
    var t := Build(points, depth);
    if |points| > 0 {
      var sorted := SortBy(points, AxisKey(depth % 2));
      var median := |sorted| / 2;
      BuildAxes(sorted[..median], depth + 1);
      BuildAxes(sorted[median + 1..], depth + 1);
    }
    AxesFollowDepthAlternate(t, depth);
  }

  /** Every node separates its subtrees on its own axis: points on the left
      are at most, points on the right at least, the node's coordinate. */
  ghost predicate Ordered(t: KdNode) {
    t.KdNode? ==>
      && (forall p | p in Points(t.left) :: Coord(p, t.axis) <= Coord(t.point, t.axis))
      && (forall p | p in Points(t.right) :: Coord(t.point, t.axis) <= Coord(p, t.axis))
      && Ordered(t.left)
      && Ordered(t.right)
  }

  /** The root of a built tree separates its two subtrees on its axis. */
  lemma RootSeparates(points: seq<Point>, depth: int)
    requires |points| > 0
    ensures var t := Build(points, depth);
            && (forall p | p in Points(t.left) :: Coord(p, t.axis) <= Coord(t.point, t.axis))
            && (forall p | p in Points(t.right) :: Coord(t.point, t.axis) <= Coord(p, t.axis))
  {
    var axis := depth % 2;
    var key := AxisKey(axis);
    var sorted := SortBy(points, key);
    var median := |sorted| / 2;
    var t := Build(points, depth);
    var front, back := sorted[..median], sorted[median + 1..];
    assert t.left == Build(front, depth + 1) && t.right == Build(back, depth + 1);
    SortBySorted(points, key);
    SortedAround(sorted, key, median);
    BuildKeepsEveryPoint(front, depth + 1);
    BuildKeepsEveryPoint(back, depth + 1);
  }

  lemma {:induction false} BuildOrdered(points: seq<Point>, depth: int)
    ensures Ordered(Build(points, depth))
    decreases |points|
  {
    if |points| > 0 {
      var sorted := SortBy(points, AxisKey(depth % 2));
      var median := |sorted| / 2;
      RootSeparates(points, depth);
      BuildOrdered(sorted[..median], depth + 1);
      BuildOrdered(sorted[median + 1..], depth + 1);
    }
  }

  /** Every node's left subtree has `n // 2` nodes and its right subtree
      `n - n // 2 - 1`, where `n` is the node's subtree size. */
  ghost predicate Balanced(t: KdNode) {
    t.KdNode? ==>
      && Size(t.left) == Size(t) / 2
      && Size(t.right) == Size(t) - Size(t) / 2 - 1
      && Balanced(t.left)
      && Balanced(t.right)
  }

  lemma {:induction false} BuildBalanced(points: seq<Point>, depth: int)
    ensures Balanced(Build(points, depth))
    ensures Build(points, depth).KdNode? ==>
              var t := Build(points, depth);
              -1 <= Size(t.left) - Size(t.right) <= 1
    decreases |points|
  {
    if |points| > 0 {
      var sorted := SortBy(points, AxisKey(depth % 2));
      var median := |sorted| / 2;
      var t := Build(points, depth);
      assert t.left == Build(sorted[..median], depth + 1);
      assert t.right == Build(sorted[median + 1..], depth + 1);
      BuildKeepsEveryPoint(points, depth);
      BuildKeepsEveryPoint(sorted[..median], depth + 1);
      BuildKeepsEveryPoint(sorted[median + 1..], depth + 1);
      BuildBalanced(sorted[..median], depth + 1);
      BuildBalanced(sorted[median + 1..], depth + 1);
    }
  }

  /** Building again from the list the top-level call has sorted in place
      gives the same tree. */
  lemma {:induction false} RebuildFromSortedList(points: seq<Point>, depth: int)
    ensures Build(SortBy(points, AxisKey(depth % 2)), depth) == Build(points, depth)
  {
    var key := AxisKey(depth % 2);
    var sorted := SortBy(points, key);
    SortBySorted(points, key);
    SortBySortedIsIdentity(sorted, key);
    BuildDependsOnSortedOrder(sorted, points, depth);
  }

  /** `Build` looks at its input only through the sorted order of the root axis. */
  lemma BuildDependsOnSortedOrder(a: seq<Point>, b: seq<Point>, depth: int)
    requires SortBy(a, AxisKey(depth % 2)) == SortBy(b, AxisKey(depth % 2))
    ensures Build(a, depth) == Build(b, depth)
  {
    assert |a| == |SortBy(a, AxisKey(depth % 2))|;
  }

  // ---------------------------------------------------------------------------
  // update_plot_range
  // ---------------------------------------------------------------------------

  /** A drawing box `[x_min, x_max, y_min, y_max]`. */
  datatype Range = Range(xMin: real, xMax: real, yMin: real, yMax: real)

  /** The dictionary `{'left': ..., 'right': ...}`. */
  datatype Halves = Halves(left: Range, right: Range)

  /** The box used when no range is given. */
  const DefaultRange: Range := Range(0.0, 10.0, 0.0, 10.0)

  /** `plot_range`, with `[0, 10, 0, 10]` standing in for a missing one. */
  function Resolve(plotRange: Option<Range>): Range {
    if plotRange.None? then DefaultRange else plotRange.value
  }

  predicate Inside(r: Range, p: Point) {
    r.xMin <= p.x <= r.xMax && r.yMin <= p.y <= r.yMax
  }

  /** `update_plot_range`: the box is cut at the point's coordinate on the
      split axis (x for axis 0, y otherwise). Both halves keep the box's
      bounds on the other axis, and when the point lies within the box on the
      split axis the halves tile the box: a point is in the box exactly when
      it is in one of the halves, the halves meet only on the split line, the
      low side goes to the left half and the high side to the right half. */
  function UpdatePlotRange(plotRange: Option<Range>, axis: int, point: Point): (h: Halves)
    ensures var b := Resolve(plotRange);
            if axis == 0 then
              && h.left.yMin == b.yMin && h.left.yMax == b.yMax
              && h.right.yMin == b.yMin && h.right.yMax == b.yMax
            else
              && h.left.xMin == b.xMin && h.left.xMax == b.xMax
              && h.right.xMin == b.xMin && h.right.xMax == b.xMax
    ensures var b := Resolve(plotRange);
            (if axis == 0 then b.xMin <= point.x <= b.xMax else b.yMin <= point.y <= b.yMax) ==>
              forall p: Point ::
                && (Inside(b, p) <==> Inside(h.left, p) || Inside(h.right, p))
                && (Inside(h.left, p) && Inside(h.right, p) ==> Coord(p, axis) == Coord(point, axis))
                && (Inside(b, p) && Coord(p, axis) <= Coord(point, axis) ==> Inside(h.left, p))
                && (Inside(b, p) && Coord(point, axis) <= Coord(p, axis) ==> Inside(h.right, p))
  {
    var r := Resolve(plotRange);
    if axis == 0 then
      Halves(Range(r.xMin, point.x, r.yMin, r.yMax), Range(point.x, r.xMax, r.yMin, r.yMax))
    else
      Halves(Range(r.xMin, r.xMax, r.yMin, point.y), Range(r.xMin, r.xMax, point.y, r.yMax))
  }

  /** Every point of a subtree lies in the box drawn for that subtree, the box
      of a child being the matching half of its parent's box. */
  ghost predicate PointsWithinRanges(t: KdNode, plotRange: Option<Range>) {
    t.KdNode? ==>
      && (forall p | p in Points(t) :: Inside(Resolve(plotRange), p))
      && var h := UpdatePlotRange(plotRange, t.axis, t.point);
         PointsWithinRanges(t.left, Some(h.left)) && PointsWithinRanges(t.right, Some(h.right))
  }

  lemma {:induction false} OrderedWithinRanges(t: KdNode, plotRange: Option<Range>)
    requires Ordered(t)
    requires forall p | p in Points(t) :: Inside(Resolve(plotRange), p)
    ensures PointsWithinRanges(t, plotRange)
  {
    if t.KdNode? {
      var h := UpdatePlotRange(plotRange, t.axis, t.point);
      assert t.point in Points(t);
      forall p | p in Points(t.left) ensures Inside(h.left, p) {
        assert p in Points(t);
      }
      forall p | p in Points(t.right) ensures Inside(h.right, p) {
        assert p in Points(t);
      }
      OrderedWithinRanges(t.left, Some(h.left));
      OrderedWithinRanges(t.right, Some(h.right));
    }
  }

  /** If the starting box holds every input point, every node's box holds
      every point of its subtree. */
  lemma BuildWithinRanges(points: seq<Point>, depth: int, plotRange: Option<Range>)
    requires forall p | p in points :: Inside(Resolve(plotRange), p)
    ensures PointsWithinRanges(Build(points, depth), plotRange)
  {
    var t := Build(points, depth);
    BuildKeepsEveryPoint(points, depth);
    BuildOrdered(points, depth);
    OrderedWithinRanges(t, plotRange);
  }
}
