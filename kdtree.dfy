/** Model of src/kdtree.cpp: a 2-D bucket kd-tree over point indices, and a
    k-nearest-neighbour search over it with a bounded max-heap.

    As the source is written:
    - an internal node stores no index, and the index at the median position
      is passed to neither child, so it never reaches a leaf;
    - the result set admits up to k + 1 neighbours (`size() <= k`);
    - the far branch is pruned against `worstDist()`, which is finite as soon
      as one neighbour is held. */
module KdTreeKnn {
  import opened Sorting

  /** A `Point` of two doubles, as reals. */
  datatype Point = Point(x: real, y: real)

  /** A C++ `int`. */
  type CppInt = n: int | -0x8000_0000 <= n < 0x8000_0000

  /** A `Node*`; `Nil` is `nullptr`. */
  datatype Node = Nil | Node(axis: int, value: real, left: Node, right: Node, pointIndices: seq<int>)

  /** A `Neighbor`: a distance to the query and a point index. */
  datatype Neighbor = Neighbor(distance: real, index: int)

  /** A double that may be +infinity. */
  datatype Dist = Finite(value: real) | Infinity

  /** `x < w` for a finite `x`. */
  predicate LessThan(x: real, w: Dist) {
    w.Infinity? || x < w.value
  }

  function Abs(x: real): real {
    if x < 0.0 then -x else x
  }

  function Min(a: nat, b: nat): nat {
    if a <= b then a else b
  }

  /** The value of an `int` once converted to a 64-bit `std::size_t`, as it
      is when compared with a container's `size()`. */
  function AsSize(n: CppInt): (r: nat)
    ensures r < 0x1_0000_0000_0000_0000
    ensures (r - n) % 0x1_0000_0000_0000_0000 == 0
    ensures n >= 0 ==> r == n
  {
    if n >= 0 then n else n + 0x1_0000_0000_0000_0000
  }

  /** C++ `%` on `int`, which truncates toward zero. */
  function CppRem(a: int, b: int): (r: int)
    requires b > 0
    ensures -b < r < b
    ensures a >= 0 ==> r == a % b
  {
    if a >= 0 then a % b else -((-a) % b)
  }

  /** `(axis + 1) % 2`: swaps the axes 0 and 1. */
  function NextAxis(axis: int): (r: int)
    ensures axis == 0 || axis == 1 ==> r == 1 - axis
  {
    CppRem(axis + 1, 2)
  }

  /** `axis == 0 ? p.x : p.y` */
  function Coord(p: Point, axis: int): real {
    if axis == 0 then p.x else p.y
  }

  /** The coordinate of point `i` on `axis` (0 for an index outside `points`). */
  function AxisValue(points: seq<Point>, i: int, axis: int): real {
    if 0 <= i < |points| then Coord(points[i], axis) else 0.0
  }

  /** The sort key used by `kdtreeRecursiveBuild`. */
  function ByAxis(points: seq<Point>, axis: int): int -> real {
    i => AxisValue(points, i, axis)
  }

  ghost predicate ValidIndices(idxs: seq<int>, n: nat) {
    forall j :: 0 <= j < |idxs| ==> 0 <= idxs[j] < n
  }

  lemma ValidPermutation(a: seq<int>, b: seq<int>, n: nat)
    requires ValidIndices(a, n) && multiset(a) == multiset(b)
    ensures ValidIndices(b, n)
  {
    forall j | 0 <= j < |b| ensures 0 <= b[j] < n {
      assert b[j] in multiset(a);
    }
  }

  // ---------------------------------------------------------------------------
  // The tree and what it holds
  // ---------------------------------------------------------------------------

  /** The indices `knnSearch` offers when it visits every node of `t`: a node
      with indices is treated as a leaf, any other node by its children. */
  function Indices(t: Node): multiset<int> {
    match t
    case Nil => multiset{}
    case Node(_, _, left, right, idxs) =>
      if |idxs| > 0 then multiset(idxs) else Indices(left) + Indices(right)
  }

  /** The number of nodes that have a child. */
  function InternalCount(t: Node): nat {
    match t
    case Nil => 0
    case Node(_, _, left, right, _) =>
      if left == Nil && right == Nil then 0 else 1 + InternalCount(left) + InternalCount(right)
  }

  /** Every index stored in the tree addresses a point. */
  ghost predicate ValidTree(t: Node, n: nat) {
    t.Node? ==> ValidIndices(t.pointIndices, n) && ValidTree(t.left, n) && ValidTree(t.right, n)
  }

  lemma {:induction false} IndicesInRange(t: Node, n: nat)
    requires ValidTree(t, n)
    ensures forall i | i in Indices(t) :: 0 <= i < n
  {
    if t.Node? {
      IndicesInRange(t.left, n);
      IndicesInRange(t.right, n);
      if |t.pointIndices| > 0 {
        forall i | i in Indices(t) ensures 0 <= i < n {
          assert i in t.pointIndices;
        }
      }
    }
  }

  /** A leaf has no children and at most `bound` indices; any other node has
      no indices and two children. */
  ghost predicate WellShaped(t: Node, bound: nat) {
    match t
    case Nil => true
    case Node(_, _, left, right, idxs) =>
      if left == Nil && right == Nil then |idxs| <= bound
      else idxs == [] && left.Node? && right.Node? && WellShaped(left, bound) && WellShaped(right, bound)
  }

  /** The root splits on `axis` and each child on the next axis. */
  ghost predicate AxesFrom(t: Node, axis: int) {
    t.Node? ==>
      && t.axis == axis
      && AxesFrom(t.left, NextAxis(axis))
      && AxesFrom(t.right, NextAxis(axis))
  }

  /** At every node without indices, the left subtree's indices have axis
      coordinate at most `value` and the right subtree's at least `value`. */
  ghost predicate Ordered(t: Node, points: seq<Point>) {
    match t
    case Nil => true
    case Node(axis, value, left, right, idxs) =>
      |idxs| > 0 || (
        && (forall i | i in Indices(left) :: AxisValue(points, i, axis) <= value)
        && (forall i | i in Indices(right) :: value <= AxisValue(points, i, axis))
        && Ordered(left, points)
        && Ordered(right, points))
  }

  // ---------------------------------------------------------------------------
  // kdtreeRecursiveBuild
  // ---------------------------------------------------------------------------

  /** `s` is `idxs` sorted by axis coordinate, in some order of ties. */
  ghost predicate IsSortedCopy(points: seq<Point>, s: seq<int>, idxs: seq<int>, axis: int) {
    multiset(s) == multiset(idxs) && SortedBy(s, ByAxis(points, axis))
  }

  /** `t` is a tree `kdtreeRecursiveBuild(points, idxs, axis, leafSize)` may
      return, whatever order `std::sort` leaves equal coordinates in. */
  ghost predicate IsBuild(t: Node, points: seq<Point>, idxs: seq<int>, axis: int, leafSize: CppInt)
    decreases |idxs|, 1
  {
    if |idxs| <= AsSize(leafSize) then t == Node(axis, 0.0, Nil, Nil, idxs)
    else
      && t.Node? && t.axis == axis && t.pointIndices == []
      && exists s: seq<int> :: SplitBy(t, points, idxs, axis, leafSize, s)
  }

  /** The internal node `t` was split from `s`, a sorted copy of `idxs`: its
      value is the median's coordinate and its children are built from the
      two halves around the median. */
  ghost predicate SplitBy(t: Node, points: seq<Point>, idxs: seq<int>, axis: int, leafSize: CppInt, s: seq<int>)
    decreases |idxs|, 0
  {
    && 0 < |s| == |idxs| && IsSortedCopy(points, s, idxs, axis)
    && t.Node?
    && t.value == AxisValue(points, s[|s| / 2], axis)
    && IsBuild(t.left, points, s[..|s| / 2], NextAxis(axis), leafSize)
    && IsBuild(t.right, points, s[|s| / 2 + 1..], NextAxis(axis), leafSize)
  }

  /** The sorted copy an internal node was split from. */
  lemma BuildSplit(t: Node, points: seq<Point>, idxs: seq<int>, axis: int, leafSize: CppInt) returns (s: seq<int>)
    requires IsBuild(t, points, idxs, axis, leafSize)
    requires |idxs| > AsSize(leafSize)
    ensures t.Node? && t.axis == axis && t.pointIndices == []
    ensures |s| == |idxs| && IsSortedCopy(points, s, idxs, axis)
    ensures t.value == AxisValue(points, s[|s| / 2], axis)
    ensures IsBuild(t.left, points, s[..|s| / 2], NextAxis(axis), leafSize)
    ensures IsBuild(t.right, points, s[|s| / 2 + 1..], NextAxis(axis), leafSize)
  {
    s :| SplitBy(t, points, idxs, axis, leafSize, s);
  }

  /** `kdtreeRecursiveBuild`, sorting with the stable `SortBy`. */
  function KdtreeRecursiveBuild(points: seq<Point>, pointIndices: seq<int>, axis: int, leafSize: CppInt): (t: Node)
    requires ValidIndices(pointIndices, |points|)
    ensures IsBuild(t, points, pointIndices, axis, leafSize)
    ensures ValidTree(t, |points|)
    decreases |pointIndices|
  {
    if |pointIndices| <= AsSize(leafSize) then
      Node(axis, 0.0, Nil, Nil, pointIndices)
    else
      var sorted := SortBy(pointIndices, ByAxis(points, axis));
      SortBySorted(pointIndices, ByAxis(points, axis));
      ValidPermutation(pointIndices, sorted, |points|);
      assert IsSortedCopy(points, sorted, pointIndices, axis);
      var medianIdx := |sorted| / 2;
      var medianValue := Coord(points[sorted[medianIdx]], axis);
      var left := KdtreeRecursiveBuild(points, sorted[..medianIdx], NextAxis(axis), leafSize);
      var right := KdtreeRecursiveBuild(points, sorted[medianIdx + 1..], NextAxis(axis), leafSize);
      var t := Node(axis, medianValue, left, right, []);
      assert SplitBy(t, points, pointIndices, axis, leafSize, sorted);
      t
  }

  /** No leaf holds more than `leaf_size` indices (read as a `size_t`), every
      other node holds none and has two children, and the axes follow
      `(axis + 1) % 2` from the root down. */
  lemma {:induction false} BuildShape(t: Node, points: seq<Point>, idxs: seq<int>, axis: int, leafSize: CppInt)
    requires IsBuild(t, points, idxs, axis, leafSize)
    ensures t.Node?
    ensures WellShaped(t, AsSize(leafSize))
    ensures AxesFrom(t, axis)
    decreases |idxs|
  {
    if |idxs| > AsSize(leafSize) {
      var s := BuildSplit(t, points, idxs, axis, leafSize);
      BuildShape(t.left, points, s[..|s| / 2], NextAxis(axis), leafSize);
      BuildShape(t.right, points, s[|s| / 2 + 1..], NextAxis(axis), leafSize);
    }
  }

  /** A tree built from valid indices stores only valid indices. */
  lemma {:induction false} BuildValid(t: Node, points: seq<Point>, idxs: seq<int>, axis: int, leafSize: CppInt)
    requires IsBuild(t, points, idxs, axis, leafSize)
    requires ValidIndices(idxs, |points|)
    ensures ValidTree(t, |points|)
    decreases |idxs|
  {
    if |idxs| > AsSize(leafSize) {
      var s := BuildSplit(t, points, idxs, axis, leafSize);
      var m := |s| / 2;
      ValidPermutation(idxs, s, |points|);
      ValidSlice(s, 0, m, |points|);
      ValidSlice(s, m + 1, |s|, |points|);
      assert s[0..m] == s[..m] && s[m + 1..|s|] == s[m + 1..];
      BuildValid(t.left, points, s[..m], NextAxis(axis), leafSize);
      BuildValid(t.right, points, s[m + 1..], NextAxis(axis), leafSize);
    }
  }

  lemma ValidSlice(s: seq<int>, lo: nat, hi: nat, n: nat)
    requires ValidIndices(s, n) && lo <= hi <= |s|
    ensures ValidIndices(s[lo..hi], n)
  {
    forall j | 0 <= j < hi - lo ensures 0 <= s[lo..hi][j] < n {
      assert s[lo..hi][j] == s[lo + j];
    }
  }

  /** The leaves hold part of the input: what they hold is the input minus
      exactly one index for every internal node. */
  lemma {:induction false} BuildCover(t: Node, points: seq<Point>, idxs: seq<int>, axis: int, leafSize: CppInt)
    requires IsBuild(t, points, idxs, axis, leafSize)
    ensures Indices(t) <= multiset(idxs)
    ensures |idxs| == |Indices(t)| + InternalCount(t)
    decreases |idxs|
  {
    if |idxs| > AsSize(leafSize) {
      var s := BuildSplit(t, points, idxs, axis, leafSize);
      var m := |s| / 2;
      BuildCover(t.left, points, s[..m], NextAxis(axis), leafSize);
      BuildCover(t.right, points, s[m + 1..], NextAxis(axis), leafSize);
      BuildShape(t.left, points, s[..m], NextAxis(axis), leafSize);
      SplitAround(s, m);
      assert Indices(t) == Indices(t.left) + Indices(t.right);
      assert InternalCount(t) == 1 + InternalCount(t.left) + InternalCount(t.right);
      assert |idxs| == |s[..m]| + 1 + |s[m + 1..]|;
    } else {
      assert |idxs| == 0 ==> multiset(idxs) == multiset{};
    }
  }

  /** At an internal node the index at the median position of the sorted
      copy is dropped: it is in the input, its coordinate is the node's
      `value`, and no leaf below holds it (beyond its other occurrences in the
      input). */
  lemma BuildDropsMedian(t: Node, points: seq<Point>, idxs: seq<int>, axis: int, leafSize: CppInt)
    returns (s: seq<int>, j: int)
    requires IsBuild(t, points, idxs, axis, leafSize)
    requires |idxs| > AsSize(leafSize)
    ensures |s| == |idxs| && IsSortedCopy(points, s, idxs, axis)
    ensures j == s[|s| / 2]
    ensures j in idxs && t.Node? && AxisValue(points, j, axis) == t.value
    ensures Indices(t) <= multiset(idxs) - multiset{j}
  {
    s := BuildSplit(t, points, idxs, axis, leafSize);
    var m := |s| / 2;
    BuildCover(t.left, points, s[..m], NextAxis(axis), leafSize);
    BuildCover(t.right, points, s[m + 1..], NextAxis(axis), leafSize);
    DropOne(t, s, idxs, m);
    j := s[m];
  }

  lemma DropOne(t: Node, s: seq<int>, idxs: seq<int>, m: nat)
    requires m < |s| && multiset(s) == multiset(idxs)
    requires t.Node? && t.pointIndices == []
    requires Indices(t.left) <= multiset(s[..m]) && Indices(t.right) <= multiset(s[m + 1..])
    ensures s[m] in idxs
    ensures Indices(t) <= multiset(idxs) - multiset{s[m]}
  {
    SplitAround(s, m);
    assert s[m] in multiset(idxs);
    assert Indices(t) == Indices(t.left) + Indices(t.right);
    assert multiset(idxs) - multiset{s[m]} == multiset(s[..m]) + multiset(s[m + 1..]);
  }

  /** Every internal node separates its subtrees at `value`. */
  lemma {:induction false} BuildOrdered(t: Node, points: seq<Point>, idxs: seq<int>, axis: int, leafSize: CppInt)
    requires IsBuild(t, points, idxs, axis, leafSize)
    ensures Ordered(t, points)
    decreases |idxs|
  {
    if |idxs| > AsSize(leafSize) {
      var s := BuildSplit(t, points, idxs, axis, leafSize);
      var m := |s| / 2;
      BuildSeparates(t, points, idxs, axis, leafSize);
      BuildOrdered(t.left, points, s[..m], NextAxis(axis), leafSize);
      BuildOrdered(t.right, points, s[m + 1..], NextAxis(axis), leafSize);
      OrderedNode(t, points);
    } else {
      OrderedLeaf(t, points);
    }
  }

  lemma OrderedLeaf(t: Node, points: seq<Point>)
    requires t.Node? && t.left == Nil && t.right == Nil
    ensures Ordered(t, points)
  {
  }

  lemma OrderedNode(t: Node, points: seq<Point>)
    requires t.Node? && t.pointIndices == []
    requires forall i | i in Indices(t.left) :: AxisValue(points, i, t.axis) <= t.value
    requires forall i | i in Indices(t.right) :: t.value <= AxisValue(points, i, t.axis)
    requires Ordered(t.left, points) && Ordered(t.right, points)
    ensures Ordered(t, points)
  {
  }

  /** An internal node's `value` separates the indices stored below it. */
  lemma BuildSeparates(t: Node, points: seq<Point>, idxs: seq<int>, axis: int, leafSize: CppInt)
    requires IsBuild(t, points, idxs, axis, leafSize)
    requires |idxs| > AsSize(leafSize)
    ensures forall i | i in Indices(t.left) :: AxisValue(points, i, axis) <= t.value
    ensures forall i | i in Indices(t.right) :: t.value <= AxisValue(points, i, axis)
  {
    var s := BuildSplit(t, points, idxs, axis, leafSize);
    var m := |s| / 2;
    BuildCover(t.left, points, s[..m], NextAxis(axis), leafSize);
    BuildCover(t.right, points, s[m + 1..], NextAxis(axis), leafSize);
    SortedAround(s, ByAxis(points, axis), m);
  }

  // ---------------------------------------------------------------------------
  // The sample of `main`
  // ---------------------------------------------------------------------------

  /** The nine points of `main`. */
  const MainPoints: seq<Point> := [Point(2.0, 3.0), Point(5.0, 4.0), Point(9.0, 6.0), Point(4.0, 7.0),
                                   Point(8.0, 1.0), Point(7.0, 2.0), Point(6.0, 3.0), Point(1.0, 9.0),
                                   Point(3.0, 8.0)]

  /** `std::iota` over nine indices. */
  const MainIndices: seq<int> := seq(9, i => i)

  lemma MultisetSubsetSize(m: multiset<int>, n: multiset<int>)
    requires m <= n
    ensures |m| <= |n|
  {
    assert n == m + (n - m);
  }

  lemma SliceCount(s: seq<int>, lo: nat, hi: nat, x: int)
    requires lo <= hi <= |s|
    ensures multiset(s[lo..hi])[x] <= multiset(s)[x]
  {
    assert s == s[..lo] + s[lo..hi] + s[hi..];
  }

  /** Five positions of a sequence without repetitions cannot all hold one of
      four values. */
  lemma FiveIntoFour(s: seq<int>, lo: nat, pick: set<int>) returns (j: nat)
    requires lo + 5 <= |s| && |pick| == 4
    requires forall x :: multiset(s)[x] <= 1
    ensures lo <= j < lo + 5 && s[j] !in pick
  {
    var m := multiset(s[lo..lo + 5]);
    if forall i | lo <= i < lo + 5 :: s[i] in pick {
      forall x ensures m[x] <= multiset(pick)[x] {
        SliceCount(s, lo, lo + 5, x);
        if x in m {
          var i :| 0 <= i < 5 && s[lo..lo + 5][i] == x;
          assert s[lo + i] == x;
        }
      }
      MultisetSubsetSize(m, multiset(pick));
    }
    j :| lo <= j < lo + 5 && s[j] !in pick;
  }

  /** A strictly increasing sequence holds no value twice. */
  lemma {:induction false} IncreasingOnce(s: seq<int>)
    requires forall i, j :: 0 <= i < j < |s| ==> s[i] < s[j]
    ensures forall x :: multiset(s)[x] <= 1
  {
    if s != [] {
      IncreasingOnce(s[1..]);
      assert s == [s[0]] + s[1..];
      assert s[0] !in s[1..];
    }
  }

  /** Which of the sample's points lie left of, on, and right of x = 5. */
  lemma MainSides(i: int)
    requires 0 <= i < 9
    ensures AxisValue(MainPoints, i, 0) < 5.0 ==> i in {0, 3, 7, 8}
    ensures AxisValue(MainPoints, i, 0) == 5.0 ==> i == 1
    ensures AxisValue(MainPoints, i, 0) > 5.0 ==> i in {2, 4, 5, 6}
  {
    if i == 0 {} else if i == 1 {} else if i == 2 {} else if i == 3 {} else if i == 4 {}
    else if i == 5 {} else if i == 6 {} else if i == 7 {} else {}
  }

  /** A sorted copy of the sample's indices holds each of 0..8 once. */
  lemma MainCopy(s: seq<int>)
    requires multiset(s) == multiset(MainIndices)
    ensures forall j | 0 <= j < |s| :: 0 <= s[j] < 9
    ensures forall x :: multiset(s)[x] <= 1
  {
    IncreasingOnce(MainIndices);
    forall j | 0 <= j < |s| ensures 0 <= s[j] < 9 {
      assert s[j] in multiset(MainIndices);
      var i :| 0 <= i < 9 && MainIndices[i] == s[j];
    }
  }

  lemma MainMedianNotLow(s: seq<int>)
    requires |s| == 9 && SortedBy(s, ByAxis(MainPoints, 0))
    requires forall j | 0 <= j < |s| :: 0 <= s[j] < 9
    requires forall x :: multiset(s)[x] <= 1
    ensures AxisValue(MainPoints, s[4], 0) >= 5.0
  {
    var j := FiveIntoFour(s, 0, {0, 3, 7, 8});
    MainSides(s[j]);
    assert ByAxis(MainPoints, 0)(s[j]) <= ByAxis(MainPoints, 0)(s[4]);
  }

  lemma MainMedianNotHigh(s: seq<int>)
    requires |s| == 9 && SortedBy(s, ByAxis(MainPoints, 0))
    requires forall j | 0 <= j < |s| :: 0 <= s[j] < 9
    requires forall x :: multiset(s)[x] <= 1
    ensures AxisValue(MainPoints, s[4], 0) <= 5.0
  {
    var j := FiveIntoFour(s, 4, {2, 4, 5, 6});
    MainSides(s[j]);
    assert ByAxis(MainPoints, 0)(s[4]) <= ByAxis(MainPoints, 0)(s[j]);
  }

  /** In `main`'s call `kdtreeRecursiveBuild(points, indices, 0, 1)`, every
      sorted copy has index 1, the point (5, 4), at the median position. */
  lemma MainRootMedian(s: seq<int>)
    requires |s| == 9 && IsSortedCopy(MainPoints, s, MainIndices, 0)
    ensures s[4] == 1
  {
    MainCopy(s);
    MainMedianNotLow(s);
    MainMedianNotHigh(s);
    MainSides(s[4]);
  }

  /** The root of the sample's tree splits at x = 5. */
  lemma MainRootValue(t: Node)
    requires IsBuild(t, MainPoints, MainIndices, 0, 1)
    ensures t.Node? && t.value == 5.0
  {
    var s := BuildSplit(t, MainPoints, MainIndices, 0, 1);
    assert |s| / 2 == 4;
    MainRootMedian(s);
    assert MainPoints[1].x == 5.0;
  }

  /** The sample's index 1 is the root median, so no leaf holds it, whatever
      tie order `std::sort` uses. */
  lemma MainDropsIndexOne(t: Node)
    requires IsBuild(t, MainPoints, MainIndices, 0, 1)
    ensures t.Node? && t.value == 5.0
    ensures 1 !in Indices(t)
  {
    MainRootValue(t);
    var s, j := BuildDropsMedian(t, MainPoints, MainIndices, 0, 1);
    var i :| 0 <= i < 9 && MainIndices[i] == j;
    MainSides(j);
    IncreasingOnce(MainIndices);
  }

  /** The same for the tree the deterministic model builds. */
  lemma MainTreeLacksIndexOne()
    ensures ValidIndices(MainIndices, |MainPoints|)
    ensures 1 !in Indices(KdtreeRecursiveBuild(MainPoints, MainIndices, 0, 1))
  {
    MainDropsIndexOne(KdtreeRecursiveBuild(MainPoints, MainIndices, 0, 1));
  }

  // ---------------------------------------------------------------------------
  // Pruning before the result set is full
  // ---------------------------------------------------------------------------

  /** Three points on the x axis, searched from (0, 0) with `leaf_size` 1 and k = 2. */
  const LinePoints: seq<Point> := [Point(0.0, 0.0), Point(5.0, 0.0), Point(10.0, 0.0)]

  /** Their tree: a root split at x = 5 over the leaves `[0]` and `[2]`; the
      median index 1 is in neither. */
  const LineNode: Node := Node(0, 5.0, Node(1, 0.0, Nil, Nil, [0]), Node(1, 0.0, Nil, Nil, [2]), [])

  /** A single index with `leaf_size` at least 1 makes a leaf. */
  lemma BuildSingleton(points: seq<Point>, i: int, axis: int, leafSize: CppInt)
    requires 0 <= i < |points| && AsSize(leafSize) >= 1
    ensures ValidIndices([i], |points|)
    ensures KdtreeRecursiveBuild(points, [i], axis, leafSize) == Node(axis, 0.0, Nil, Nil, [i])
  {
  }

  /** `kdtreeRecursiveBuild(LinePoints, {0, 1, 2}, 0, 1)` is `LineNode`. */
  lemma LineTree()
    ensures ValidIndices([0, 1, 2], |LinePoints|)
    ensures KdtreeRecursiveBuild(LinePoints, [0, 1, 2], 0, 1) == LineNode
  {
    LineRoot();
    BuildSingleton(LinePoints, 0, 1, 1);
    BuildSingleton(LinePoints, 2, 1, 1);
  }

  /** The root level of that build. */
  lemma LineRoot()
    ensures ValidIndices([0, 1, 2], |LinePoints|)
    ensures SortBy([0, 1, 2], ByAxis(LinePoints, 0)) == [0, 1, 2]
    ensures ValidIndices([0], |LinePoints|) && ValidIndices([2], |LinePoints|)
    ensures KdtreeRecursiveBuild(LinePoints, [0, 1, 2], 0, 1)
            == Node(0, 5.0, KdtreeRecursiveBuild(LinePoints, [0], 1, 1),
                    KdtreeRecursiveBuild(LinePoints, [2], 1, 1), [])
  {
    LineSorted();
    BuildSingleton(LinePoints, 0, 1, 1);
    BuildSingleton(LinePoints, 2, 1, 1);
    assert NextAxis(0) == 1;
  }

  /** The three indices are already sorted on x, and each is valid. */
  lemma LineSorted()
    ensures |LinePoints| == 3 && ValidIndices([0, 1, 2], |LinePoints|)
    ensures SortBy([0, 1, 2], ByAxis(LinePoints, 0)) == [0, 1, 2]
    ensures [0, 1, 2][..1] == [0] && [0, 1, 2][2..] == [2]
  {
    var idxs: seq<int> := [0, 1, 2];
    assert ValidIndices(idxs, |LinePoints|) by {
      forall j | 0 <= j < 3 ensures 0 <= idxs[j] < |LinePoints| {
        assert idxs[j] == j;
      }
    }
    assert SortedBy(idxs, ByAxis(LinePoints, 0));
    SortBySortedIsIdentity(idxs, ByAxis(LinePoints, 0));
  }

  /** `worstDist()` is finite once the near leaf has offered index 0 at
      distance 0, so the far leaf is pruned: with k = 2 the search from (0, 0)
      over `LineNode` (the tree `LineTree` builds) offers index 0 only and
      ends with one neighbour, although leaf index 2 is one of the two
      nearest points stored in leaves (there are only two). */
  lemma PrunedBeforeFull(dist: (Point, Point) -> real)
    requires dist(Point(0.0, 0.0), Point(0.0, 0.0)) == 0.0
    ensures ValidTree(LineNode, |LinePoints|)
    ensures var o := Search(LineNode, LinePoints, Point(0.0, 0.0), dist, 2, Results([], {}));
            && Indices(LineNode) == multiset{0, 2}
            && o.visited == {0}
            && o.heap == [Neighbor(0.0, 0)]
  {
    var near := LineNode.left;
    var q := Point(0.0, 0.0);
    var empty := Results([], {});
    var afterNear := Results([Neighbor(0.0, 0)], {0});
    assert ValidIndices([0], |LinePoints|) && ValidIndices([2], |LinePoints|);
    assert ValidTree(LineNode.left, |LinePoints|) && ValidTree(LineNode.right, |LinePoints|);
    assert ValidTree(LineNode, |LinePoints|);
    assert Search(near, LinePoints, q, dist, 2, empty) == afterNear by {
      assert [0][..0] == [];
      assert OfferAll(empty, 2, LinePoints, q, dist, []) == empty;
      assert DistanceOf(LinePoints, q, dist, 0) == 0.0;
      assert Offer(empty, 2, 0.0, 0) == afterNear;
    }
    assert Worst(afterNear.heap) == Finite(0.0);
    assert Indices(LineNode) == multiset([0]) + multiset([2]);
  }

  // ---------------------------------------------------------------------------
  // ResultSet
  // ---------------------------------------------------------------------------

  /** The contents of a `ResultSet`: the heap's elements (in no particular
      order) and `visited_points`. */
  datatype Results = Results(heap: seq<Neighbor>, visited: set<int>)

  /** The position of the heap's top: an element of largest distance. */
  function TopIndex(heap: seq<Neighbor>): (top: nat)
    requires |heap| > 0
    ensures top < |heap|
    ensures forall j :: 0 <= j < |heap| ==> heap[j].distance <= heap[top].distance
  {
    if |heap| == 1 then 0
    else
      var rest := TopIndex(heap[1..]) + 1;
      if heap[0].distance < heap[rest].distance then rest else 0
  }

  /** `worstDist()` on a heap: +infinity when it is empty, else its largest distance. */
  function Worst(heap: seq<Neighbor>): (w: Dist)
    ensures w.Infinity? <==> |heap| == 0
    ensures w.Finite? ==> exists j :: 0 <= j < |heap| && heap[j].distance == w.value
    ensures w.Finite? ==> forall j :: 0 <= j < |heap| ==> heap[j].distance <= w.value
  {
    if |heap| == 0 then Infinity else Finite(heap[TopIndex(heap)].distance)
  }

  /** The smallest distance in a non-empty heap. */
  ghost function Nearest(heap: seq<Neighbor>): (d: real)
    requires |heap| > 0
    ensures exists j :: 0 <= j < |heap| && heap[j].distance == d
    ensures forall j :: 0 <= j < |heap| ==> d <= heap[j].distance
  {
    if |heap| == 1 then heap[0].distance
    else
      var rest := Nearest(heap[1..]);
      assert exists j :: 1 <= j < |heap| && heap[j].distance == rest by {
        var j :| 0 <= j < |heap[1..]| && heap[1..][j].distance == rest;
        assert heap[j + 1].distance == rest;
      }
      if heap[0].distance <= rest then heap[0].distance else rest
  }

  /** `heap` with position `i` removed (a `pop()` of the top). */
  function RemoveAt(heap: seq<Neighbor>, i: nat): (r: seq<Neighbor>)
    requires i < |heap|
    ensures |r| == |heap| - 1
    ensures forall j :: 0 <= j < |r| ==> r[j] == heap[if j < i then j else j + 1]
  {
    heap[..i] + heap[i + 1..]
  }

  /** The indices held in the heap. */
  function Held(heap: seq<Neighbor>): set<int> {
    if heap == [] then {} else Held(heap[..|heap| - 1]) + {heap[|heap| - 1].index}
  }

  lemma {:induction false} HeldHas(heap: seq<Neighbor>, j: nat)
    requires j < |heap|
    ensures heap[j].index in Held(heap)
  {
    if j < |heap| - 1 {
      HeldHas(heap[..|heap| - 1], j);
    }
  }

  lemma {:induction false} HeldWitness(heap: seq<Neighbor>, x: int) returns (j: nat)
    requires x in Held(heap)
    ensures j < |heap| && heap[j].index == x
  {
    if x != heap[|heap| - 1].index {
      j := HeldWitness(heap[..|heap| - 1], x);
    } else {
      j := |heap| - 1;
    }
  }

  /** `addPoint(distance, index)`: an index already visited is ignored; a new
      one is inserted while the heap has at most `k` entries, and otherwise
      replaces the top only when it is strictly closer. */
  function Offer(r: Results, k: CppInt, distance: real, index: int): (o: Results)
    ensures o.visited == r.visited + {index}
    ensures index in r.visited ==> o == r
    ensures |r.heap| <= AsSize(k) + 1 ==> |o.heap| <= AsSize(k) + 1
  {
    if index in r.visited then r
    else
      var visited := r.visited + {index};
      if |r.heap| <= AsSize(k) then
        Results(r.heap + [Neighbor(distance, index)], visited)
      else
        var top := TopIndex(r.heap);
        if distance < r.heap[top].distance then
          Results(RemoveAt(r.heap, top) + [Neighbor(distance, index)], visited)
        else
          Results(r.heap, visited)
  }

  /** Every entry of the heap is a visited index with the distance it was offered with. */
  ghost predicate EntriesSeen(heap: seq<Neighbor>, seen: map<int, real>) {
    forall j :: 0 <= j < |heap| ==> heap[j].index in seen && seen[heap[j].index] == heap[j].distance
  }

  /** No index is held twice. */
  ghost predicate DistinctIndices(heap: seq<Neighbor>) {
    forall i, j :: 0 <= i < j < |heap| ==> heap[i].index != heap[j].index
  }

  /** Every visited index left out of the heap is at least as far as every entry in it. */
  ghost predicate LeftOutNoCloser(heap: seq<Neighbor>, seen: map<int, real>) {
    |heap| > 0 ==> forall i | i in seen && i !in Held(heap) :: heap[TopIndex(heap)].distance <= seen[i]
  }

  /** The heap holds the `min(n, cap)` closest of the `n` distinct indices
      offered so far, where `seen` maps each visited index to the distance it
      was offered with. */
  ghost predicate HoldsNearest(r: Results, seen: map<int, real>, cap: nat) {
    && seen.Keys == r.visited
    && EntriesSeen(r.heap, seen)
    && DistinctIndices(r.heap)
    && |r.heap| == Min(|r.visited|, cap)
    && LeftOutNoCloser(r.heap, seen)
  }

  lemma {:induction false} DistinctHeld(heap: seq<Neighbor>)
    requires DistinctIndices(heap)
    ensures |Held(heap)| == |heap|
  {
    if heap != [] {
      var init := heap[..|heap| - 1];
      DistinctHeld(init);
      forall j | 0 <= j < |init| ensures init[j].index != heap[|heap| - 1].index {
        assert init[j] == heap[j];
      }
      NotHeld(init, heap[|heap| - 1].index);
    }
  }

  lemma {:induction false} NotHeld(heap: seq<Neighbor>, x: int)
    requires forall j :: 0 <= j < |heap| ==> heap[j].index != x
    ensures x !in Held(heap)
  {
    if heap != [] {
      NotHeld(heap[..|heap| - 1], x);
    }
  }

  lemma HeldSeen(heap: seq<Neighbor>, seen: map<int, real>)
    requires EntriesSeen(heap, seen)
    ensures Held(heap) <= seen.Keys
  {
    forall x | x in Held(heap) ensures x in seen {
      var j := HeldWitness(heap, x);
    }
  }

  lemma SubsetOfSameSize(a: set<int>, b: set<int>)
    requires a <= b && |a| == |b|
    ensures a == b
  {
    assert b == a + (b - a);
    assert a * (b - a) == {};
  }

  /** Appending an index not yet visited. */
  lemma AppendNew(heap: seq<Neighbor>, seen: map<int, real>, n: Neighbor)
    requires EntriesSeen(heap, seen) && DistinctIndices(heap)
    requires n.index !in seen
    ensures EntriesSeen(heap + [n], seen[n.index := n.distance])
    ensures DistinctIndices(heap + [n])
    ensures Held(heap + [n]) == Held(heap) + {n.index}
  {
    var h := heap + [n];
    var seen' := seen[n.index := n.distance];
    forall j | 0 <= j < |h|
      ensures h[j].index in seen' && seen'[h[j].index] == h[j].distance
    {
      if j < |heap| {
        assert h[j] == heap[j];
      }
    }
    forall i, j | 0 <= i < j < |h| ensures h[i].index != h[j].index {
      assert h[i] == heap[i];
      if j < |heap| {
        assert h[j] == heap[j];
      }
    }
    assert h[..|h| - 1] == heap;
  }

  /** Popping one entry. */
  lemma RemoveKeeps(heap: seq<Neighbor>, seen: map<int, real>, t: nat)
    requires t < |heap|
    requires EntriesSeen(heap, seen) && DistinctIndices(heap)
    ensures EntriesSeen(RemoveAt(heap, t), seen)
    ensures DistinctIndices(RemoveAt(heap, t))
    ensures Held(RemoveAt(heap, t)) == Held(heap) - {heap[t].index}
  {
    RemoveKeepsEntries(heap, seen, t);
    RemoveKeepsDistinct(heap, t);
    RemoveHeld(heap, t);
  }

  lemma RemoveKeepsEntries(heap: seq<Neighbor>, seen: map<int, real>, t: nat)
    requires t < |heap|
    requires EntriesSeen(heap, seen)
    ensures EntriesSeen(RemoveAt(heap, t), seen)
  {
  }

  lemma RemoveKeepsDistinct(heap: seq<Neighbor>, t: nat)
    requires t < |heap|
    requires DistinctIndices(heap)
    ensures DistinctIndices(RemoveAt(heap, t))
  {
  }

  lemma RemoveHeld(heap: seq<Neighbor>, t: nat)
    requires t < |heap|
    requires DistinctIndices(heap)
    ensures Held(RemoveAt(heap, t)) == Held(heap) - {heap[t].index}
  {
    RemoveHeldKeeps(heap, t);
    RemoveHeldOnly(heap, t);
  }

  lemma RemoveHeldKeeps(heap: seq<Neighbor>, t: nat)
    requires t < |heap|
    ensures Held(heap) - {heap[t].index} <= Held(RemoveAt(heap, t))
  {
    var r := RemoveAt(heap, t);
    forall x | x in Held(heap) - {heap[t].index} ensures x in Held(r) {
      var j := HeldWitness(heap, x);
      var j' := if j < t then j else j - 1;
      assert r[j'] == heap[j];
      HeldHas(r, j');
    }
  }

  lemma RemoveHeldOnly(heap: seq<Neighbor>, t: nat)
    requires t < |heap|
    requires DistinctIndices(heap)
    ensures Held(RemoveAt(heap, t)) <= Held(heap) - {heap[t].index}
  {
    var r := RemoveAt(heap, t);
    forall x | x in Held(r) ensures x in Held(heap) - {heap[t].index} {
      var j := HeldWitness(r, x);
      var j' := if j < t then j else j + 1;
      assert r[j] == heap[j'];
      assert heap[j'].index != heap[t].index;
      HeldHas(heap, j');
    }
  }

  /** Inserting a new index into a heap below capacity. */
  lemma InsertKeepsNearest(r: Results, seen: map<int, real>, cap: nat, n: Neighbor)
    requires HoldsNearest(r, seen, cap)
    requires n.index !in r.visited && |r.heap| < cap
    ensures HoldsNearest(Results(r.heap + [n], r.visited + {n.index}), seen[n.index := n.distance], cap)
  {
    var h := r.heap + [n];
    var seen' := seen[n.index := n.distance];
    VisitNew(r.visited, seen, n);
    DistinctHeld(r.heap);
    HeldSeen(r.heap, seen);
    SubsetOfSameSize(Held(r.heap), r.visited);
    AppendNew(r.heap, seen, n);
    assert LeftOutNoCloser(h, seen') by {
      assert Held(h) == seen'.Keys;
    }
  }

  /** The bookkeeping of visiting a new index. */
  lemma VisitNew(visited: set<int>, seen: map<int, real>, n: Neighbor)
    requires seen.Keys == visited && n.index !in visited
    ensures seen[n.index := n.distance].Keys == visited + {n.index}
    ensures |visited + {n.index}| == |visited| + 1
  {
  }

  /** Replacing the top of a full heap by a strictly closer new index. */
  lemma ReplaceKeepsNearest(r: Results, seen: map<int, real>, cap: nat, n: Neighbor)
    requires HoldsNearest(r, seen, cap)
    requires n.index !in r.visited && |r.heap| >= cap && |r.heap| > 0
    requires n.distance < r.heap[TopIndex(r.heap)].distance
    ensures HoldsNearest(Results(RemoveAt(r.heap, TopIndex(r.heap)) + [n], r.visited + {n.index}),
                         seen[n.index := n.distance], cap)
  {
    var top := TopIndex(r.heap);
    var rest := RemoveAt(r.heap, top);
    var h := rest + [n];
    VisitNew(r.visited, seen, n);
    RemoveKeeps(r.heap, seen, top);
    AppendNew(rest, seen, n);
    ReplaceLeftOut(r.heap, seen, top, n);
  }

  lemma ReplaceLeftOut(heap: seq<Neighbor>, seen: map<int, real>, top: nat, n: Neighbor)
    requires |heap| > 0 && top == TopIndex(heap)
    requires LeftOutNoCloser(heap, seen) && EntriesSeen(heap, seen)
    requires n.index !in seen && n.distance < heap[top].distance
    requires Held(RemoveAt(heap, top) + [n]) == Held(heap) - {heap[top].index} + {n.index}
    ensures LeftOutNoCloser(RemoveAt(heap, top) + [n], seen[n.index := n.distance])
  {
    var rest := RemoveAt(heap, top);
    var h := rest + [n];
    var seen' := seen[n.index := n.distance];
    var j := TopIndex(h);
    ReplaceTop(heap, top, n);
    assert h[j].distance <= heap[top].distance;
    assert seen[heap[top].index] == heap[top].distance;
    forall i | i in seen' && i !in Held(h) ensures h[j].distance <= seen'[i] {
      assert i != n.index;
      assert seen'[i] == seen[i];
      if i != heap[top].index {
        assert i !in Held(heap);
      }
    }
  }

  /** Replacing the top by a closer neighbour leaves nothing farther than the old top. */
  lemma ReplaceTop(heap: seq<Neighbor>, top: nat, n: Neighbor)
    requires |heap| > 0 && top == TopIndex(heap)
    requires n.distance < heap[top].distance
    ensures forall j :: 0 <= j < |heap| ==> (RemoveAt(heap, top) + [n])[j].distance <= heap[top].distance
  {
    var rest := RemoveAt(heap, top);
    var h := rest + [n];
    forall j | 0 <= j < |h| ensures h[j].distance <= heap[top].distance {
      if j < |rest| {
        assert h[j] == rest[j];
        assert rest[j] == heap[if j < top then j else j + 1];
      } else {
        assert h[j] == n;
      }
    }
  }

  /** Visiting a new index no closer than the top of a full heap. */
  lemma DiscardKeepsNearest(r: Results, seen: map<int, real>, cap: nat, n: Neighbor)
    requires HoldsNearest(r, seen, cap)
    requires n.index !in r.visited && |r.heap| >= cap && |r.heap| > 0
    requires r.heap[TopIndex(r.heap)].distance <= n.distance
    ensures HoldsNearest(Results(r.heap, r.visited + {n.index}), seen[n.index := n.distance], cap)
  {
    var seen' := seen[n.index := n.distance];
    VisitNew(r.visited, seen, n);
    HeldSeen(r.heap, seen);
    assert EntriesSeen(r.heap, seen') by {
      forall j | 0 <= j < |r.heap| ensures r.heap[j].index != n.index {
      }
    }
    assert LeftOutNoCloser(r.heap, seen') by {
      forall i | i in seen' && i !in Held(r.heap)
        ensures r.heap[TopIndex(r.heap)].distance <= seen'[i]
      {
        if i != n.index {
          assert seen'[i] == seen[i];
        }
      }
    }
  }

  /** Offering a point keeps the heap holding the closest `min(n, k + 1)` of
      the distinct indices offered: this is the bounded-heap invariant, with
      capacity k + 1 because the source tests `size() <= k` before inserting. */
  lemma OfferKeepsNearest(r: Results, seen: map<int, real>, k: CppInt, distance: real, index: int)
    requires HoldsNearest(r, seen, AsSize(k) + 1)
    ensures HoldsNearest(Offer(r, k, distance, index),
                         if index in r.visited then seen else seen[index := distance],
                         AsSize(k) + 1)
  {
    if index !in r.visited {
      var n := Neighbor(distance, index);
      if |r.heap| <= AsSize(k) {
        InsertKeepsNearest(r, seen, AsSize(k) + 1, n);
      } else if distance < r.heap[TopIndex(r.heap)].distance {
        ReplaceKeepsNearest(r, seen, AsSize(k) + 1, n);
      } else {
        DiscardKeepsNearest(r, seen, AsSize(k) + 1, n);
      }
    }
  }

  /** The C++ `ResultSet`: a max-heap of neighbours plus the set of indices
      already processed.  The ghost map `seen` records the distance each
      visited index was offered with. */
  class ResultSet {
    const k: CppInt
    var heap: seq<Neighbor>
    var visited: set<int>
    ghost var seen: map<int, real>

    ghost predicate Valid()
      reads this
    {
      HoldsNearest(Results(heap, visited), seen, AsSize(k) + 1)
    }

    function Current(): Results
      reads this
    {
      Results(heap, visited)
    }

    constructor (k: CppInt)
      ensures Valid()
      ensures this.k == k && heap == [] && visited == {}
    {
      this.k := k;
      heap := [];
      visited := {};
      seen := map[];
    }

    method AddPoint(distance: real, index: int)
      requires Valid()
      modifies this
      ensures Valid()
      ensures Current() == Offer(old(Current()), k, distance, index)
      ensures seen == if index in old(visited) then old(seen) else old(seen)[index := distance]
    {
      if index in visited {
        return;
      }
      visited := visited + {index};
      if |heap| <= AsSize(k) {
        heap := heap + [Neighbor(distance, index)];
      } else {
        var top := TopIndex(heap);
        if distance < heap[top].distance {
          heap := RemoveAt(heap, top);
          heap := heap + [Neighbor(distance, index)];
        }
      }
      seen := seen[index := distance];
      OfferKeepsNearest(old(Current()), old(seen), k, distance, index);
    }

    /** `worstDist()` */
    function WorstDist(): (w: Dist)
      reads this
      ensures w == Worst(heap)
    {
      Worst(heap)
    }
  }

  // ---------------------------------------------------------------------------
  // knnSearch
  // ---------------------------------------------------------------------------

  /** The distance `knnSearch` computes for point `i`. */
  function DistanceOf(points: seq<Point>, query: Point, dist: (Point, Point) -> real, i: int): real
    requires 0 <= i < |points|
  {
    dist(points[i], query)
  }

  /** Offering the indices of a leaf, first to last: afterwards they are all
      visited, and the heap still has at most k + 1 entries. */
  function OfferAll(r: Results, k: CppInt, points: seq<Point>, query: Point,
                    dist: (Point, Point) -> real, idxs: seq<int>): (o: Results)
    requires ValidIndices(idxs, |points|)
    ensures forall i :: i in o.visited <==> i in r.visited || i in idxs
    ensures |r.heap| <= AsSize(k) + 1 ==> |o.heap| <= AsSize(k) + 1
  {
    if idxs == [] then r
    else
      var last := idxs[|idxs| - 1];
      Offer(OfferAll(r, k, points, query, dist, idxs[..|idxs| - 1]), k, DistanceOf(points, query, dist, last), last)
  }

  /** The result set after `knnSearch(node, points, query, result_set)`
      starting from `r`: no visited index is forgotten, only indices stored in
      leaves are visited, and the heap keeps at most k + 1 entries. */
  function Search(node: Node, points: seq<Point>, query: Point, dist: (Point, Point) -> real,
                  k: CppInt, r: Results): (o: Results)
    requires ValidTree(node, |points|)
    ensures r.visited <= o.visited
    ensures forall i | i in o.visited :: i in r.visited || i in Indices(node)
    ensures |r.heap| <= AsSize(k) + 1 ==> |o.heap| <= AsSize(k) + 1
    decreases node
  {
    match node
    case Nil => r
    case Node(axis, value, left, right, idxs) =>
      if |idxs| > 0 then OfferAll(r, k, points, query, dist, idxs)
      else
        var queryValue := Coord(query, axis);
        var near := if queryValue <= value then left else right;
        var far := if queryValue <= value then right else left;
        var afterNear := Search(near, points, query, dist, k, r);
        if LessThan(Abs(queryValue - value), Worst(afterNear.heap)) then
          Search(far, points, query, dist, k, afterNear)
        else
          afterNear
  }

  /** `knnSearch`: visits the near branch first and the far branch only when
      the splitting line is strictly closer than `worstDist()`. */
  method KnnSearch(node: Node, points: seq<Point>, query: Point, dist: (Point, Point) -> real,
                   resultSet: ResultSet)
    requires ValidTree(node, |points|)
    requires resultSet.Valid()
    modifies resultSet
    ensures resultSet.Valid()
    ensures resultSet.Current() == Search(node, points, query, dist, resultSet.k, old(resultSet.Current()))
    decreases node
  {
    if node == Nil {
      return;
    }
    if |node.pointIndices| > 0 {
      OfferLeaf(node.pointIndices, points, query, dist, resultSet);
      return;
    }
    ghost var start := resultSet.Current();
    SearchStep(node, points, query, dist, resultSet.k, start);
    var queryValue := Coord(query, node.axis);
    var near := if queryValue <= node.value then node.left else node.right;
    var far := if queryValue <= node.value then node.right else node.left;
    KnnSearch(near, points, query, dist, resultSet);
    var distanceToPlane := Abs(queryValue - node.value);
    if LessThan(distanceToPlane, resultSet.WorstDist()) {
      KnnSearch(far, points, query, dist, resultSet);
    }
  }

  /** The loop over a leaf's indices in `knnSearch`. */
  method OfferLeaf(idxs: seq<int>, points: seq<Point>, query: Point, dist: (Point, Point) -> real,
                   resultSet: ResultSet)
    requires ValidIndices(idxs, |points|)
    requires resultSet.Valid()
    modifies resultSet
    ensures resultSet.Valid()
    ensures resultSet.Current() == OfferAll(old(resultSet.Current()), resultSet.k, points, query, dist, idxs)
  {
    for i := 0 to |idxs|
      invariant resultSet.Valid()
      invariant resultSet.Current() == OfferAll(old(resultSet.Current()), resultSet.k, points, query, dist, idxs[..i])
    {
      var idx := idxs[i];
      var distance := dist(points[idx], query);
      assert idxs[..i + 1][..i] == idxs[..i];
      resultSet.AddPoint(distance, idx);
    }
    assert idxs[..|idxs|] == idxs;
  }

  // ---------------------------------------------------------------------------
  // What the search finds
  // ---------------------------------------------------------------------------

  /** The distance function is at least the gap on either axis, as the
      Euclidean distance of `calculateDistance` is. */
  ghost predicate DistBoundsAxes(dist: (Point, Point) -> real) {
    forall p: Point, q: Point :: Abs(p.x - q.x) <= dist(p, q) && Abs(p.y - q.y) <= dist(p, q)
  }

  ghost function DistancesTo(visited: set<int>, points: seq<Point>, query: Point,
                             dist: (Point, Point) -> real): map<int, real>
    requires forall i | i in visited :: 0 <= i < |points|
  {
    map i | i in visited :: DistanceOf(points, query, dist, i)
  }

  /** The invariant of a search: every visited index addresses a point and
      the heap holds the closest `min(n, k + 1)` of the visited points. */
  ghost predicate SearchInv(r: Results, points: seq<Point>, query: Point, dist: (Point, Point) -> real, k: CppInt) {
    && (forall i | i in r.visited :: 0 <= i < |points|)
    && HoldsNearest(r, DistancesTo(r.visited, points, query, dist), AsSize(k) + 1)
  }

  lemma OfferKeepsSearchInv(r: Results, points: seq<Point>, query: Point, dist: (Point, Point) -> real,
                            k: CppInt, index: int)
    requires SearchInv(r, points, query, dist, k)
    requires 0 <= index < |points|
    ensures SearchInv(Offer(r, k, DistanceOf(points, query, dist, index), index), points, query, dist, k)
  {
    var d := DistanceOf(points, query, dist, index);
    var seen := DistancesTo(r.visited, points, query, dist);
    OfferKeepsNearest(r, seen, k, d, index);
    var o := Offer(r, k, d, index);
    if index !in r.visited {
      assert DistancesTo(o.visited, points, query, dist) == seen[index := d];
    }
  }

  lemma {:induction false} OfferAllKeepsSearchInv(r: Results, points: seq<Point>, query: Point,
                                                  dist: (Point, Point) -> real, k: CppInt, idxs: seq<int>)
    requires SearchInv(r, points, query, dist, k)
    requires ValidIndices(idxs, |points|)
    ensures SearchInv(OfferAll(r, k, points, query, dist, idxs), points, query, dist, k)
  {
    if idxs != [] {
      var init, last := idxs[..|idxs| - 1], idxs[|idxs| - 1];
      OfferAllKeepsSearchInv(r, points, query, dist, k, init);
      OfferKeepsSearchInv(OfferAll(r, k, points, query, dist, init), points, query, dist, k, last);
      assert idxs == init + [last];
    }
  }

  /** A search keeps the invariant. */
  lemma {:induction false} SearchKeepsInv(node: Node, points: seq<Point>, query: Point,
                                          dist: (Point, Point) -> real, k: CppInt, r: Results)
    requires ValidTree(node, |points|)
    requires SearchInv(r, points, query, dist, k)
    ensures SearchInv(Search(node, points, query, dist, k, r), points, query, dist, k)
    decreases node
  {
    match node
    case Nil =>
    case Node(axis, value, left, right, idxs) =>
      if |idxs| > 0 {
        OfferAllKeepsSearchInv(r, points, query, dist, k, idxs);
      } else {
        var queryValue := Coord(query, axis);
        var near := if queryValue <= value then left else right;
        var far := if queryValue <= value then right else left;
        SearchKeepsInv(near, points, query, dist, k, r);
        var afterNear := Search(near, points, query, dist, k, r);
        SearchKeepsInv(far, points, query, dist, k, afterNear);
      }
  }

  /** A visited index is never closer than the nearest entry of the heap. */
  lemma VisitedNoCloser(r: Results, seen: map<int, real>, cap: nat, i: int)
    requires HoldsNearest(r, seen, cap) && cap >= 1
    requires i in seen
    ensures |r.heap| > 0
    ensures Nearest(r.heap) <= seen[i]
  {
    assert |r.visited| >= 1;
    if i in Held(r.heap) {
      var j := HeldWitness(r.heap, i);
    } else {
      assert r.heap[0].distance <= seen[i];
    }
  }

  /** Once the heap is non-empty, a later search step never makes its nearest entry farther. */
  lemma NearestNeverGrows(r: Results, o: Results, points: seq<Point>, query: Point,
                          dist: (Point, Point) -> real, k: CppInt)
    requires SearchInv(r, points, query, dist, k) && SearchInv(o, points, query, dist, k)
    requires r.visited <= o.visited
    requires |r.heap| > 0
    ensures |o.heap| > 0 && Nearest(o.heap) <= Nearest(r.heap)
  {
    var j :| 0 <= j < |r.heap| && r.heap[j].distance == Nearest(r.heap);
    var i := r.heap[j].index;
    VisitedNoCloser(o, DistancesTo(o.visited, points, query, dist), AsSize(k) + 1, i);
  }

  /** Pruning is sound: when the splitting line is no closer than `w`, no
      index of the far subtree is closer than `w`. */
  lemma PruningIsSound(node: Node, points: seq<Point>, query: Point, dist: (Point, Point) -> real, w: Dist)
    requires node.Node? && |node.pointIndices| == 0 && Ordered(node, points)
    requires DistBoundsAxes(dist)
    requires !LessThan(Abs(Coord(query, node.axis) - node.value), w)
    ensures w.Finite?
    ensures var far := if Coord(query, node.axis) <= node.value then node.right else node.left;
            forall i | i in Indices(far) && 0 <= i < |points| :: w.value <= DistanceOf(points, query, dist, i)
  {
    var q := Coord(query, node.axis);
    var far := if q <= node.value then node.right else node.left;
    forall i | i in Indices(far) && 0 <= i < |points|
      ensures w.value <= DistanceOf(points, query, dist, i)
    {
      var p := points[i];
      assert Abs(p.x - query.x) <= dist(p, query) && Abs(p.y - query.y) <= dist(p, query);
      assert Abs(Coord(p, node.axis) - q) <= dist(p, query);
    }
  }

  /** No index stored in `node` is closer than the nearest entry of `o`, and
      `o` has visited something as soon as `node` stores anything. */
  ghost predicate FoundNearest(node: Node, points: seq<Point>, query: Point, dist: (Point, Point) -> real, o: Results) {
    && (|Indices(node)| > 0 ==> |o.visited| > 0)
    && forall i | i in Indices(node) && 0 <= i < |points| ::
         |o.heap| > 0 && Nearest(o.heap) <= DistanceOf(points, query, dist, i)
  }

  /** A leaf offers every index it stores. */
  lemma LeafFindsNearest(node: Node, points: seq<Point>, query: Point,
                         dist: (Point, Point) -> real, k: CppInt, r: Results)
    requires ValidTree(node, |points|) && node.Node? && |node.pointIndices| > 0
    requires SearchInv(r, points, query, dist, k)
    ensures FoundNearest(node, points, query, dist, Search(node, points, query, dist, k, r))
  {
    var idxs := node.pointIndices;
    var o := Search(node, points, query, dist, k, r);
    assert o == OfferAll(r, k, points, query, dist, idxs);
    OfferAllKeepsSearchInv(r, points, query, dist, k, idxs);
    forall i | i in Indices(node) && 0 <= i < |points|
      ensures |o.heap| > 0 && Nearest(o.heap) <= DistanceOf(points, query, dist, i)
    {
      assert i in idxs;
      VisitedNoCloser(o, DistancesTo(o.visited, points, query, dist), AsSize(k) + 1, i);
    }
    assert idxs[0] in o.visited;
  }

  /** What was found in one subtree stays found while the search goes on. */
  lemma FoundNearestStays(node: Node, points: seq<Point>, query: Point,
                          dist: (Point, Point) -> real, k: CppInt, r: Results, o: Results)
    requires FoundNearest(node, points, query, dist, r)
    requires SearchInv(r, points, query, dist, k) && SearchInv(o, points, query, dist, k)
    requires r.visited <= o.visited
    ensures FoundNearest(node, points, query, dist, o)
  {
    forall i | i in Indices(node) && 0 <= i < |points|
      ensures |o.heap| > 0 && Nearest(o.heap) <= DistanceOf(points, query, dist, i)
    {
      NearestNeverGrows(r, o, points, query, dist, k);
    }
  }

  /** A pruned far subtree holds nothing closer than the nearest entry already held. */
  lemma PrunedFindsNearest(node: Node, points: seq<Point>, query: Point,
                           dist: (Point, Point) -> real, k: CppInt, o: Results)
    requires node.Node? && |node.pointIndices| == 0 && Ordered(node, points)
    requires DistBoundsAxes(dist)
    requires SearchInv(o, points, query, dist, k)
    requires !LessThan(Abs(Coord(query, node.axis) - node.value), Worst(o.heap))
    ensures var far := if Coord(query, node.axis) <= node.value then node.right else node.left;
            FoundNearest(far, points, query, dist, o)
  {
    PruningIsSound(node, points, query, dist, Worst(o.heap));
    var j := TopIndex(o.heap);
    assert |o.visited| > 0;
  }

  lemma CombineFound(node: Node, near: Node, far: Node, points: seq<Point>, query: Point,
                     dist: (Point, Point) -> real, o: Results)
    requires Indices(node) == Indices(near) + Indices(far)
    requires FoundNearest(near, points, query, dist, o) && FoundNearest(far, points, query, dist, o)
    ensures FoundNearest(node, points, query, dist, o)
  {
  }

  /** Branch-and-bound finds the nearest stored point: after the search, no
      index stored in the tree is closer than the nearest neighbour held, and
      a tree that stores any index leaves the heap non-empty. */
  lemma {:induction false} SearchFindsNearest(node: Node, points: seq<Point>, query: Point,
                                              dist: (Point, Point) -> real, k: CppInt, r: Results)
    requires ValidTree(node, |points|) && Ordered(node, points)
    requires DistBoundsAxes(dist)
    requires SearchInv(r, points, query, dist, k)
    ensures FoundNearest(node, points, query, dist, Search(node, points, query, dist, k, r))
    decreases node
  {
    match node
    case Nil =>
    case Node(axis, value, left, right, idxs) =>
      if |idxs| > 0 {
        LeafFindsNearest(node, points, query, dist, k, r);
      } else {
        var q := Coord(query, axis);
        var near := if q <= value then left else right;
        var far := if q <= value then right else left;
        var afterNear := Search(near, points, query, dist, k, r);
        var o := Search(node, points, query, dist, k, r);
        SearchStep(node, points, query, dist, k, r);
        SearchKeepsInv(near, points, query, dist, k, r);
        SearchFindsNearest(near, points, query, dist, k, r);
        if LessThan(Abs(q - value), Worst(afterNear.heap)) {
          assert o == Search(far, points, query, dist, k, afterNear);
          SearchKeepsInv(far, points, query, dist, k, afterNear);
          SearchFindsNearest(far, points, query, dist, k, afterNear);
          FoundNearestStays(near, points, query, dist, k, afterNear, o);
          CombineFound(node, near, far, points, query, dist, o);
        } else {
          assert o == afterNear;
          PrunedFindsNearest(node, points, query, dist, k, afterNear);
          CombineFound(node, near, far, points, query, dist, o);
        }
      }
  }

  /** One step of `knnSearch` at an internal node. */
  lemma SearchStep(node: Node, points: seq<Point>, query: Point, dist: (Point, Point) -> real,
                   k: CppInt, r: Results)
    requires ValidTree(node, |points|) && node.Node? && |node.pointIndices| == 0
    ensures var q := Coord(query, node.axis);
            var near := if q <= node.value then node.left else node.right;
            var far := if q <= node.value then node.right else node.left;
            var afterNear := Search(near, points, query, dist, k, r);
            && Indices(node) == Indices(near) + Indices(far)
            && Search(node, points, query, dist, k, r)
               == if LessThan(Abs(q - node.value), Worst(afterNear.heap))
                  then Search(far, points, query, dist, k, afterNear) else afterNear
  {
  }

  /** While the result set is still empty after the near branch, the far
      branch is searched: `worstDist()` is +infinity. */
  lemma FarSearchedWhileEmpty(node: Node, points: seq<Point>, query: Point, dist: (Point, Point) -> real,
                              k: CppInt, r: Results)
    requires ValidTree(node, |points|) && node.Node? && |node.pointIndices| == 0
    ensures var q := Coord(query, node.axis);
            var near := if q <= node.value then node.left else node.right;
            var far := if q <= node.value then node.right else node.left;
            var afterNear := Search(near, points, query, dist, k, r);
            afterNear.heap == [] ==> Search(node, points, query, dist, k, r) == Search(far, points, query, dist, k, afterNear)
  {
    SearchStep(node, points, query, dist, k, r);
  }

  /** What `knnSearch` computes from a fresh `ResultSet(k)` over a tree built
      by `kdtreeRecursiveBuild`: it only offers indices stored in leaves, its
      heap holds the closest `min(n, k + 1)` of the `n` indices it visited,
      and its nearest entry is the nearest of all points stored in leaves (a
      median index, never stored, is never found). */
  lemma KnnSearchFindsNearest(t: Node, points: seq<Point>, idxs: seq<int>, axis: int, leafSize: CppInt,
                              query: Point, dist: (Point, Point) -> real, k: CppInt)
    requires ValidIndices(idxs, |points|)
    requires IsBuild(t, points, idxs, axis, leafSize)
    requires DistBoundsAxes(dist)
    ensures ValidTree(t, |points|)
    ensures var o := Search(t, points, query, dist, k, Results([], {}));
            && SearchInv(o, points, query, dist, k)
            && |o.heap| <= AsSize(k) + 1
            && (forall i | i in o.visited :: i in Indices(t))
            && FoundNearest(t, points, query, dist, o)
  {
    BuildValid(t, points, idxs, axis, leafSize);
    BuildOrdered(t, points, idxs, axis, leafSize);
    SearchFromEmpty(t, points, query, dist, k);
  }

  /** A search started with an empty result set over an ordered tree. */
  lemma SearchFromEmpty(t: Node, points: seq<Point>, query: Point, dist: (Point, Point) -> real, k: CppInt)
    requires ValidTree(t, |points|) && Ordered(t, points)
    requires DistBoundsAxes(dist)
    ensures var o := Search(t, points, query, dist, k, Results([], {}));
            && SearchInv(o, points, query, dist, k)
            && |o.heap| <= AsSize(k) + 1
            && (forall i | i in o.visited :: i in Indices(t))
            && FoundNearest(t, points, query, dist, o)
  {
    var empty := Results([], {});
    EmptySearchInv(points, query, dist, k);
    SearchKeepsInv(t, points, query, dist, k, empty);
    SearchFindsNearest(t, points, query, dist, k, empty);
  }

  lemma EmptySearchInv(points: seq<Point>, query: Point, dist: (Point, Point) -> real, k: CppInt)
    ensures SearchInv(Results([], {}), points, query, dist, k)
  {
    assert DistancesTo({}, points, query, dist) == map[];
  }
}
