# Two 2-D kd-trees, modelled and verified in Dafny

The repository holds two independent kd-tree programs over points in the
plane. Each one is a Dafny module here:

- `kd_tree.dfy` (module `KdTree`) models `src/kd_tree.py`. It is a kd-tree
  that stores one point in every node. `build_kd_tree` sorts the list on axis
  `depth % 2`, keeps the element at position `len // 2` in the node, and
  recurses on the slices before and after it. `update_plot_range` splits a
  node's drawing box `[xmin, xmax, ymin, ymax]` at the node's point.
- `kdtree.dfy` (module `KdTreeKnn`) models `src/kdtree.cpp`. It is a bucket
  kd-tree over point indices with a k-nearest-neighbour search.
  `kdtreeRecursiveBuild` keeps a list of at most `leaf_size` indices as a
  leaf. Otherwise it sorts a copy of the list on the axis coordinate and
  stores the median's coordinate as the split value. It then recurses on the
  indices before and after the median. `ResultSet` is a max-heap of
  `(distance, index)` pairs plus a set of visited indices. `knnSearch`
  searches the near branch first. It searches the far branch only when the
  splitting line is strictly closer than `worstDist()`.
- `sorting.dfy` (module `Sorting`) is a stable insertion sort `SortBy` on a
  real-valued key, with its lemmas. Both builders use it. Python's
  `list.sort` is stable. `std::sort` is not: for C++ the model only relies on
  the copy being a sorted permutation.

How the source is represented:

- Python's in-place `points.sort(...)` on the caller's list is the method
  `KdTree.BuildKdTree` over an `array`. The recursive calls receive fresh
  slices that nobody else sees, so they are the pure function `KdTree.Build`.
- The C++ build is the function `KdTreeKnn.KdtreeRecursiveBuild`. It is also
  the relation `KdTreeKnn.IsBuild`, which admits every tie order `std::sort`
  may produce. The build properties are proved for `IsBuild`, so they hold
  whatever order `std::sort` leaves equal coordinates in.
- `ResultSet` is a class with fields `heap` (the priority queue's elements,
  unordered) and `visited`. `addPoint` is a method that updates those fields
  in place. It is specified by the function `Offer`. `knnSearch` is a
  recursive method with a loop over the leaf's indices. It is specified by
  the function `Search`.
- `leaf_size` and `k` are the 32-bit subtype `CppInt`. Axes and point
  indices are unbounded `int`s; the "## Left out" lines for `NextAxis` and
  `AsSize` say what that leaves out (the overflow of `axis + 1`, lists longer
  than `INT_MAX`). The comparisons of an `int` with
  a container's `size()` convert the `int` to a 64-bit `size_t` (`AsSize`).
  `(axis + 1) % 2` uses C++'s truncating remainder (`CppRem`). Python's
  `depth % 2` is floor modulo, which agrees with Dafny's `%` for divisor 2.
- Coordinates and distances are reals. The distance function is a
  parameter. The search theorem requires it to be at least the gap on either
  axis, as the Euclidean distance is.

Some behaviour of the C++ code is easy to misread. The model keeps it as
written:

- The median index goes to neither child, so, when the indices are
  distinct, as the `std::iota` list of `main` is, no leaf holds it
  (src/kdtree.cpp:118-123). `BuildDropsMedian` states this for every build,
  and `MainDropsIndexOne` shows that index 1 of the sample in `main` is in no
  leaf, so no search visits it.
- `ResultSet::k` is declared as the number of neighbours
  (src/kdtree.cpp:43), yet `addPoint` inserts while `size() <= k`
  (src/kdtree.cpp:56), so the heap holds up to k + 1 entries.
- `std::sort` (src/kdtree.cpp:108-111) is not stable, so the tree depends
  on the order it leaves equal coordinates in. The build properties are
  proved for every such order.
- `knnSearch` prunes the far branch against `worstDist()`
  (src/kdtree.cpp:149-152), which is finite as soon as one neighbour is
  held. The far branch can therefore be skipped before k neighbours are
  found. `PrunedBeforeFull` exhibits a three-point input where this
  happens.
- An empty index list or a `leaf_size` below 1 is not rejected
  (src/kdtree.cpp:102). An empty list becomes a leaf with no indices. A
  negative `leaf_size` becomes a huge `size_t`, so every list becomes a leaf.

The datatypes stand for the source's records:

- `KdTree.Point` is a point tuple `(x, y)`, and `KdTree.KdNode` is the
  class `KDNode` (src/kd_tree.py:96-104), with `Nil` for `None`.
- `KdTree.Range` is a box `[x_min, x_max, y_min, y_max]` and `KdTree.Halves`
  is the dictionary `update_plot_range` returns (src/kd_tree.py:164-184).
- `KdTreeKnn.Point` is `struct Point` (src/kdtree.cpp:11-14), and
  `KdTreeKnn.Node` is `class Node` (src/kdtree.cpp:17-27), with `Nil` for
  `nullptr`.
- `KdTreeKnn.Neighbor` is `struct Neighbor` (src/kdtree.cpp:30-38). Its
  `operator<` compares distances only, which `TopIndex` follows.
- `KdTreeKnn.Results` is the contents of a `ResultSet`
  (src/kdtree.cpp:41-45): the heap's elements in no order, and
  `visited_points`. `KdTreeKnn.Dist` is a double that may be +infinity.

## Model

| member | source | states |
|---|---|---|
| Sorting.SortBy | src/kd_tree.py:122 | the sorted list has the same length and the same elements (a permutation) as the input |
| Sorting.SortBySorted | src/kd_tree.py:122 | the result of the sort is non-decreasing on the key |
| Sorting.SortByStable | src/kd_tree.py:122 | the sort is stable: the elements sharing any one key value keep their relative order |
| Sorting.SortBySortedIsIdentity | src/kd_tree.py:122 | sorting a list that is already sorted on the key leaves it unchanged |
| Sorting.SortedAround | src/kdtree.cpp:114-121 | in a sorted list, every element before position m has key at most that of position m, and every element after it at least that |
| KdTree.Build | src/kd_tree.py:106-136 | the result is `None` exactly when the list is empty |
| KdTree.BuildKdTree | src/kd_tree.py:106-136 | the caller's list ends up stably sorted on axis `depth % 2`; the tree is the one the recursion builds from the original list; the root holds the element at `len // 2` of the sorted list; the left and right subtrees hold exactly the elements before and after it |
| KdTree.SortInPlace | src/kd_tree.py:122 | after the in-place sort the list is the stable sort of its old contents |
| KdTree.BuildKeepsEveryPoint | src/kd_tree.py:123-136 | the multiset of points stored in the tree equals the input multiset, and the number of nodes equals `len(points)` |
| KdTree.BuildAxes | src/kd_tree.py:119-134 | a node built at depth d splits on axis `d % 2`, and every child splits on the other axis than its parent |
| KdTree.AxesFollowDepthAlternate | src/kd_tree.py:119-134 | a tree whose node at depth d splits on `d % 2` alternates axes along every path |
| KdTree.RootSeparates | src/kd_tree.py:122-134 | every point of the left subtree has axis coordinate at most the root's, and every point of the right subtree at least the root's |
| KdTree.BuildOrdered | src/kd_tree.py:122-134 | every node of the built tree separates its subtrees on its own axis |
| KdTree.BuildBalanced | src/kd_tree.py:123-134 | at every node the left subtree has `n // 2` nodes and the right `n - n // 2 - 1`, so sibling sizes differ by at most one |
| KdTree.RebuildFromSortedList | src/kd_tree.py:122-134 | building again from the list the top-level call sorted in place gives the same tree |
| KdTree.BuildDependsOnSortedOrder | src/kd_tree.py:122-136 | two lists with the same sorted order on the root axis give the same tree |
| KdTree.Coord | src/kd_tree.py:122 | definition: `point[axis]` is the x coordinate for axis 0 and the y coordinate for axis 1 |
| KdTree.AxisKey | src/kd_tree.py:122 | definition: the sort key `lambda point: point[axis]` |
| KdTree.Resolve | src/kd_tree.py:172-173 | definition: a missing `plot_range` is the box `[0, 10, 0, 10]`; a given one is used as it is |
| KdTree.UpdatePlotRange | src/kd_tree.py:164-184 | both halves keep the box's bounds on the axis not split; when the point lies within the box on the split axis (x for axis 0, y otherwise) the halves tile the box: a point is in the box exactly when it is in one of the halves, the halves meet only on the split line, the low side lies in the left half and the high side in the right half |
| KdTree.OrderedWithinRanges | src/kd_tree.py:127-134 | in an ordered tree whose points lie in the starting box, every subtree's points lie in the box computed for it, on any axes |
| KdTree.BuildWithinRanges | src/kd_tree.py:130-134 | for a built tree, if the starting box holds every point then every node's box holds every point of its subtree |
| KdTreeKnn.AsSize | src/kdtree.cpp:102 | an `int` compared with a `size()` (here and at line 56) becomes a 64-bit `size_t`: the result is below 2^64, congruent to the `int` modulo 2^64, and equal to it when it is not negative |
| KdTreeKnn.CppRem | src/kdtree.cpp:119 | C++ `%` has magnitude below the divisor and agrees with the mathematical remainder on non-negative operands |
| KdTreeKnn.NextAxis | src/kdtree.cpp:119 | `(axis + 1) % 2` maps axis 0 to 1 and axis 1 to 0 |
| KdTreeKnn.Coord | src/kdtree.cpp:110 | definition: `axis == 0 ? x : y`, also at lines 115 and 141 |
| KdTreeKnn.AxisValue | src/kdtree.cpp:115 | definition: the axis coordinate of `points[i]` (0 for an index outside `points`, see "## Left out") |
| KdTreeKnn.ByAxis | src/kdtree.cpp:108-111 | definition: the comparator of `std::sort`, as the key whose strict order it compares |
| KdTreeKnn.LessThan | src/kdtree.cpp:150 | definition: `distance_to_plane < worstDist()` against a `worstDist()` that may be +infinity, where every finite distance is smaller |
| KdTreeKnn.ValidPermutation | src/kdtree.cpp:107-108 | a sorted copy of valid point indices holds only valid point indices |
| KdTreeKnn.BuildValid | src/kdtree.cpp:107-121 | a tree built from valid point indices stores only valid point indices |
| KdTreeKnn.IndicesInRange | src/kdtree.cpp:133-134 | every index a tree of valid indices stores addresses a point |
| KdTreeKnn.IsBuild | src/kdtree.cpp:100-124 | definition: a list of at most `leaf_size` indices (as a `size_t`) gives a leaf `Node(axis, 0, nullptr, nullptr, point_indices)`; a longer one gives a node with the given axis and no indices that `SplitBy` relates to some sorted copy of the list, whatever order `std::sort` leaves ties in |
| KdTreeKnn.SplitBy | src/kdtree.cpp:107-123 | definition: the copy has the list's length and elements and is sorted on the axis coordinate; the node's value is the coordinate at position `size / 2`; the children are built from the positions before and after it with axis `(axis + 1) % 2` |
| KdTreeKnn.KdtreeRecursiveBuild | src/kdtree.cpp:100-124 | the build with a stable sort is one of the trees `kdtreeRecursiveBuild` may return (`IsBuild`), and it stores only valid indices |
| KdTreeKnn.BuildSplit | src/kdtree.cpp:102-123 | above `leaf_size`, the node has the given axis and no indices; its value is the axis coordinate of `sorted[size / 2]` for a sorted permutation of the input; its children are built from the two halves around that position with axis `(axis + 1) % 2` |
| KdTreeKnn.BuildShape | src/kdtree.cpp:102-123 | a leaf has no children and at most `leaf_size` indices (read as a `size_t`); any other node has no indices and two children; the root has the given axis and axes follow `(axis + 1) % 2` downwards |
| KdTreeKnn.BuildCover | src/kdtree.cpp:114-121 | the leaves hold part of the input, and what they hold is the input less exactly one index per internal node |
| KdTreeKnn.BuildDropsMedian | src/kdtree.cpp:114-121 | at an internal node, for the sorted copy it was split from, the index `j` at position `size / 2` is in the input and has the node's value as its coordinate, and the leaves below hold at most the input less one copy of `j`, so none of them holds `j` when the indices are distinct, as the `std::iota` list of `main` is |
| KdTreeKnn.BuildSeparates | src/kdtree.cpp:108-121 | every index in the left child has axis coordinate at most `value`, and every index in the right child at least `value` |
| KdTreeKnn.BuildOrdered | src/kdtree.cpp:108-121 | every internal node of a built tree separates its children at its value |
| KdTreeKnn.MainRootMedian | src/kdtree.cpp:157-162 | for the sample of `main`, every sorted copy of the nine indices has index 1, the point (5, 4), at the median position |
| KdTreeKnn.MainRootValue | src/kdtree.cpp:157-162 | the root of the sample's tree splits at x = 5 |
| KdTreeKnn.MainDropsIndexOne | src/kdtree.cpp:157-162 | in every tree the sample's build may return, index 1 is in no leaf |
| KdTreeKnn.MainTreeLacksIndexOne | src/kdtree.cpp:157-162 | the same holds for the tree built with the stable sort |
| KdTreeKnn.BuildSingleton | src/kdtree.cpp:102-104 | a single valid index with `leaf_size` at least 1 gives a leaf holding it |
| KdTreeKnn.LineTree | src/kdtree.cpp:100-124 | the points (0, 0), (5, 0), (10, 0) with `leaf_size` 1 give a root split at x = 5 over the leaves `[0]` and `[2]` |
| KdTreeKnn.LineRoot | src/kdtree.cpp:107-121 | the root level of that build: the indices are already sorted on x, the value is 5 and the children are built from `[0]` and `[2]` |
| KdTreeKnn.PrunedBeforeFull | src/kdtree.cpp:127-153 | over that tree, a search for k = 2 from (0, 0) visits index 0 only and ends with one neighbour, although the leaves hold exactly the indices 0 and 2: the far branch is pruned before the heap is full |
| KdTreeKnn.TopIndex | src/kdtree.cpp:35-44 | the heap's top is the position of a largest distance (`operator<` compares distances) |
| KdTreeKnn.Worst | src/kdtree.cpp:64-69 | `worstDist()` is +infinity exactly when the heap is empty, and otherwise a distance held that no held distance exceeds |
| KdTreeKnn.RemoveAt | src/kdtree.cpp:59 | removing one position keeps every other entry in order |
| KdTreeKnn.Offer | src/kdtree.cpp:49-62 | `addPoint` adds the index to the visited set; an index already visited leaves everything unchanged; the heap never grows beyond k + 1 entries |
| KdTreeKnn.RemoveHeld | src/kdtree.cpp:59 | when no index is held twice, popping an entry removes exactly its index from the held indices |
| KdTreeKnn.AppendNew | src/kdtree.cpp:57-60 | pushing a neighbour with a new index keeps each held index recorded with the distance it was offered with, and keeps the held indices distinct |
| KdTreeKnn.DistinctHeld | src/kdtree.cpp:51-57 | with distinct indices, the heap holds as many indices as entries |
| KdTreeKnn.InsertKeepsNearest | src/kdtree.cpp:56-57 | below capacity, inserting a new index keeps the heap holding the closest of the visited indices |
| KdTreeKnn.ReplaceTop | src/kdtree.cpp:58-61 | replacing the top by a strictly closer neighbour leaves no entry farther than the old top |
| KdTreeKnn.ReplaceLeftOut | src/kdtree.cpp:58-61 | after the replacement, every visited index left out of the heap is at least as far as the new top |
| KdTreeKnn.ReplaceKeepsNearest | src/kdtree.cpp:58-61 | at capacity, a strictly closer new index replaces the top and the heap still holds the closest of the visited indices |
| KdTreeKnn.DiscardKeepsNearest | src/kdtree.cpp:58 | at capacity, a new index no closer than the top is only marked visited, and the heap still holds the closest of the visited indices |
| KdTreeKnn.OfferKeepsNearest | src/kdtree.cpp:49-62 | `addPoint` keeps the bounded-heap invariant: the heap holds each offered index at most once, with its distance, and these are the `min(n, k + 1)` closest of the n distinct indices offered |
| KdTreeKnn.ResultSet.constructor | src/kdtree.cpp:47 | a new result set has the given k, an empty heap and no visited index, and satisfies the invariant |
| KdTreeKnn.ResultSet.AddPoint | src/kdtree.cpp:49-62 | the new heap and visited set are `Offer` of the old ones, and the bounded-heap invariant is kept |
| KdTreeKnn.ResultSet.WorstDist | src/kdtree.cpp:64-69 | `worstDist()` is `Worst` of the current heap: +infinity exactly when it is empty, otherwise its largest distance |
| KdTreeKnn.DistanceOf | src/kdtree.cpp:134 | definition: the distance of point `idx` to the query, by the distance function passed in for `calculateDistance` |
| KdTreeKnn.OfferAll | src/kdtree.cpp:132-137 | offering a leaf's indices first to last leaves exactly the old visited indices and the leaf's visited, and keeps the heap within k + 1 entries |
| KdTreeKnn.Search | src/kdtree.cpp:127-153 | the search from a result set forgets no visited index, visits only indices stored in leaves of the tree, and keeps the heap within k + 1 entries |
| KdTreeKnn.KnnSearch | src/kdtree.cpp:127-153 | the result set after the search is `Search` of the one before, and the invariant is kept |
| KdTreeKnn.OfferLeaf | src/kdtree.cpp:132-137 | the loop over a leaf offers its indices first to last, each with its distance |
| KdTreeKnn.FarSearchedWhileEmpty | src/kdtree.cpp:150-151 | while the result set is empty after the near branch, the far branch is always searched |
| KdTreeKnn.OfferKeepsSearchInv | src/kdtree.cpp:134-135 | offering a point with its distance keeps the heap holding the closest `min(n, k + 1)` of the visited points |
| KdTreeKnn.OfferAllKeepsSearchInv | src/kdtree.cpp:132-137 | a leaf keeps the invariant that the heap holds the closest `min(n, k + 1)` of the visited points |
| KdTreeKnn.SearchKeepsInv | src/kdtree.cpp:127-153 | a search keeps the invariant that the heap holds the closest `min(n, k + 1)` of the visited points |
| KdTreeKnn.VisitedNoCloser | src/kdtree.cpp:56-61 | no visited index is closer than the heap's nearest entry |
| KdTreeKnn.NearestNeverGrows | src/kdtree.cpp:56-61 | once the heap is non-empty, further offers never make its nearest entry farther |
| KdTreeKnn.PruningIsSound | src/kdtree.cpp:149-152 | when the splitting line is no closer than `worstDist()`, no point of the far branch is closer than `worstDist()` |
| KdTreeKnn.LeafFindsNearest | src/kdtree.cpp:132-137 | after a leaf is searched, no index it stores is closer than the heap's nearest entry |
| KdTreeKnn.FoundNearestStays | src/kdtree.cpp:146-152 | once no index of a subtree is closer than the heap's nearest entry, later offers keep it so |
| KdTreeKnn.PrunedFindsNearest | src/kdtree.cpp:149-152 | when the far branch is pruned, no index stored in it is closer than the heap's nearest entry |
| KdTreeKnn.CombineFound | src/kdtree.cpp:142-152 | what holds for the near and the far branch holds for the node |
| KdTreeKnn.SearchFindsNearest | src/kdtree.cpp:127-153 | in an ordered tree, after the search no index stored in a leaf is closer than the heap's nearest entry, and something is visited if any leaf holds an index |
| KdTreeKnn.SearchFromEmpty | src/kdtree.cpp:127-153 | from an empty result set the search keeps the invariant, holds at most k + 1 entries, visits only leaf indices and finds the nearest leaf point |
| KdTreeKnn.KnnSearchFindsNearest | src/kdtree.cpp:100-153 | over a tree `kdtreeRecursiveBuild` may return from valid indices, the tree stores only valid indices, and a search from a fresh result set visits only indices stored in leaves; its heap holds the closest `min(n, k + 1)` of the n points visited; its nearest entry is the nearest of all points stored in leaves |

## Left out

- Drawing is not modelled: `draw_partition`, every `plt`/`ax` call, `print_kd_tree` and the module-level demo (src/kd_tree.py:138-162,186-216). They are matplotlib and console output.
- The `ax` argument of `build_kd_tree` only feeds the drawing. Its `plot_range` argument only feeds `update_plot_range` and the drawing. The boxes handed down are related to the tree by `BuildWithinRanges`, but `Build` takes no box.
- With the default `ax=None`, `build_kd_tree` on a non-empty list raises in `draw_partition` (src/kd_tree.py:127,154) after the list has been sorted in place, and with an axis object `plt.pause(1)` (src/kd_tree.py:162) waits one second per node. Neither is modelled: `BuildKdTree` is the call with an axis object and the drawing removed.
- The commented-out earlier version at src/kd_tree.py:1-93 is not modelled. It is comments, not code.
- `ResultSet::printResults` and the output of `main` (src/kdtree.cpp:71-90,173-177) are not modelled. They are console output. The point list of `main` is used as a fixture.
- `calculateDistance` (src/kdtree.cpp:95-97) is not modelled, because `sqrt` and `pow` are floating point. The distance is a function parameter. The search theorem requires it to be at least the gap on either axis.
- Doubles and Python numbers are reals. Rounding, NaN and infinite coordinates are not modelled.
- Raw pointers, `new` without `delete`, and the internals of `std::priority_queue` and `std::unordered_set` are not modelled. The tree is a datatype, the heap an unordered sequence, and the visited set a `set`.
- KdTreeKnn.Offer: when several held entries share the largest distance, the model pops the one `TopIndex` picks. `std::priority_queue` may pop another of them. The proved invariant does not depend on which one is popped.
- KdTreeKnn.AxisValue: an index outside `points` reads coordinate 0. In the source `points[i]` with such an index is undefined behaviour, and no call in it makes one. `KdtreeRecursiveBuild`, `Search`, `KnnSearch` and every search theorem require valid indices (`ValidIndices` or `ValidTree`), and `KnnSearchFindsNearest` requires them of its input. The `IsBuild` lemmas (`BuildShape`, `BuildCover`, `BuildSeparates`, `BuildOrdered`, `BuildDropsMedian`) hold for any indices; for an index outside `points` the coordinate 0 they speak of is the model's, not the source's.
- KdTreeKnn.NextAxis: `axis + 1` is computed without 32-bit overflow, so the undefined behaviour at `INT_MAX` is not modelled. The program only starts from axis 0.
- KdTreeKnn.AsSize: `size_t` is taken to be 64 bits wide. The conversion of `sorted_indices.size() / 2` to `int` (src/kdtree.cpp:114) is not bounded, so lists longer than `INT_MAX` are not modelled.
- KdTreeKnn.KnnSearchFindsNearest: proves only that the nearest neighbour among the points stored in leaves is found, not that the k nearest are found. The source prunes on `worstDist()` before the heap is full, so with k > 1 it can leave out points that belong to the k nearest; `PrunedBeforeFull` gives such an input. The median indices, which no leaf stores, are never found.
- KdTree.BuildKdTree: the tree is a value. The identity of the `KDNode` objects is not modelled.
