/** The 2-d tree behind the Voronoi filter: pixel coordinates from a flat
    buffer index, squared distances, a tree built by splitting at the median
    on alternating axes, and a nearest-neighbour search that prunes a
    subtree when the query is too far from the splitting line. */
module VoronoiHelper {
  import opened Pixels
  import Arith

  // ---------------------------------------------------------------------------
  // getPixelCoords and getDist

  /** The source's getPixelCoords: the [x, y] position of the pixel whose red
      byte is at `index`, or an empty result when `index` lies beyond the
      buffer. C's division truncates toward zero. */
  function GetPixelCoords(index: int, width: int, height: int): (r: seq<int>)
    requires width > 0 || 4 * width * height < index
    ensures |r| == 0 <==> 4 * width * height < index
    ensures |r| != 0 ==> |r| == 2 && r[1] * width + r[0] == Arith.TruncDiv(index, 4)
    ensures |r| != 0 && index >= 0 ==> 0 <= r[0] < width && r[1] >= 0
  {
    if 4 * width * height < index then []
    else
      var pixelNum := Arith.TruncDiv(index, 4);
      var yCoord := Arith.TruncDiv(pixelNum, width);
      var xCoord := pixelNum - yCoord * width;
      [xCoord, yCoord]
  }

  /** On a pixel's red byte getPixelCoords inverts the buffer layout: it
      gives back the pixel's column and row. */
  lemma PixelCoordsRoundTrip(w: nat, h: nat, row: nat, col: nat)
    requires row < h && col < w
    ensures GetPixelCoords(Idx(w, row, col, 0), w, h) == [col, row]
  {
    var index := Idx(w, row, col, 0);
    IdxIsProduct(w, row, col, 0);
    IdxInBounds(w, h, row, col, 0);
    var pixelNum := Arith.TruncDiv(index, 4);
    Arith.DivModUnique(index, 4, row * w + col, 0);
    assert pixelNum == row * w + col;
    Arith.DivModUnique(pixelNum, w, row, col);
  }

  /** Inside the buffer the coordinates name a pixel of the image; the index
      one past the last byte gives (0, height), a row below the image. */
  lemma PixelCoordsInImage(index: int, w: nat, h: nat)
    requires w > 0 && 0 <= index <= 4 * w * h
    ensures var r := GetPixelCoords(index, w, h);
      |r| == 2 && 0 <= r[0] < w && 0 <= r[1] <= h
      && (index < 4 * w * h ==> r[1] < h)
      && (index == 4 * w * h ==> r == [0, h])
  {
    var r := GetPixelCoords(index, w, h);
    var pixelNum := Arith.TruncDiv(index, 4);
    assert 4 * w * h == 4 * (h * w);
    if r[1] > h || (index < 4 * w * h && r[1] == h) {
      Arith.MulMonotone(h, r[1], w);
    }
    if index == 4 * w * h {
      Arith.DivModUnique(index, 4, h * w, 0);
      Arith.DivModUnique(pixelNum, w, h, 0);
    }
  }

  /** The source's getDist (note its argument order), as the exact integer
      squared Euclidean distance. */
  function GetDist(x1: int, x2: int, y1: int, y2: int): (d: int)
    ensures d >= 0
    ensures d == 0 <==> x1 == x2 && y1 == y2
  {
    Square(x1 - x2);
    Square(y1 - y2);
    (x1 - x2) * (x1 - x2) + (y1 - y2) * (y1 - y2)
  }

  /** A square is never negative, and zero only for zero. */
  lemma Square(a: int)
    ensures a * a >= 0
    ensures a * a == 0 <==> a == 0
  {
    if a < 0 {
      Arith.MulNonNeg(-a, -a);
      Arith.MulMonotone(1, -a, -a);
    } else if a > 0 {
      Arith.MulMonotone(1, a, a);
    }
  }

  /** Distance does not depend on which point comes first. */
  lemma GetDistSymmetric(x1: int, x2: int, y1: int, y2: int)
    ensures GetDist(x1, x2, y1, y2) == GetDist(x2, x1, y2, y1)
  {
    assert (x1 - x2) * (x1 - x2) == (x2 - x1) * (x2 - x1);
    assert (y1 - y2) * (y1 - y2) == (y2 - y1) * (y2 - y1);
  }

  /** A gap of `g` or more along one axis puts a point at squared distance
      at least `m`, whenever `g >= m`: a gap of one or more squares to at
      least itself, and a gap of zero only arises with `m <= 0`. */
  lemma SquareBeatsGap(a: int, g: int, m: int)
    requires a >= g >= 0 && g >= m
    ensures a * a >= m
  {
    Arith.MulMonotone(g, a, a);
    Arith.MulMonotone(g, a, g);
    if g >= 1 {
      Arith.MulMonotone(1, g, g);
    }
    assert a * a >= g * g by {
      assert g * a == a * g;
    }
  }

  // ---------------------------------------------------------------------------
  // Points and trees

  /** A pixel's position and colour. */
  datatype CustomPoint = CustomPoint(x: int, y: int, r: byte, g: byte, b: byte)

  /** A 2-d tree node: `data` caches the point's (x, y), `dim` is the split
      axis (0 for x, anything else for y). `Nil` is the null child. */
  datatype Tree =
    | Nil
    | Node(data: (int, int), point: CustomPoint, dim: int, left: Tree, right: Tree)

  /** Squared distance from a point to the query. */
  function PointDist(p: CustomPoint, qx: int, qy: int): int
  {
    GetDist(p.x, qx, p.y, qy)
  }

  /** The coordinate a dimension selects: x for 0, y otherwise. */
  function Key(p: CustomPoint, dim: int): int
  {
    if dim == 0 then p.x else p.y
  }

  function Points(t: Tree): multiset<CustomPoint>
  {
    match t
    case Nil => multiset{}
    case Node(_, p, _, l, r) => multiset{p} + Points(l) + Points(r)
  }

  function Size(t: Tree): nat
  {
    match t
    case Nil => 0
    case Node(_, _, _, l, r) => 1 + Size(l) + Size(r)
  }

  lemma {:induction false} SizeIsPointCount(t: Tree)
    ensures |Points(t)| == Size(t)
  {
    if t.Node? {
      SizeIsPointCount(t.left);
      SizeIsPointCount(t.right);
    }
  }

  /** The dimension the child of a `dim` node splits on: C's
      `(dim + 1) % 2`. */
  function NextDim(dim: int): (d: int)
    ensures dim >= -1 ==> 0 <= d <= 1
    ensures dim >= 0 ==> d != dim % 2
  {
    Arith.TruncRem(dim + 1, 2)
  }

  /** Every node caches its own point's coordinates. */
  predicate DataMatches(t: Tree)
  {
    match t
    case Nil => true
    case Node(data, p, _, l, r) => data == (p.x, p.y) && DataMatches(l) && DataMatches(r)
  }

  /** No node has a right child without a left one. */
  predicate RightNeedsLeft(t: Tree)
  {
    match t
    case Nil => true
    case Node(_, _, _, l, r) => (r.Node? ==> l.Node?) && RightNeedsLeft(l) && RightNeedsLeft(r)
  }

  /** Every child splits on the next dimension after its parent's. */
  predicate DimsAlternate(t: Tree)
  {
    match t
    case Nil => true
    case Node(_, _, dim, l, r) =>
      (l.Node? ==> l.dim == NextDim(dim)) && (r.Node? ==> r.dim == NextDim(dim))
      && DimsAlternate(l) && DimsAlternate(r)
  }

  /** The split invariant: at a node with two children, every point on the
      left is at most the node's point and every point on the right at least
      it, along the node's dimension. One-child nodes promise nothing. */
  predicate Ordered(t: Tree)
  {
    match t
    case Nil => true
    case Node(_, p, dim, l, r) =>
      && Ordered(l) && Ordered(r)
      && (l.Node? && r.Node? ==>
            && (forall q | q in Points(l) :: Key(q, dim) <= Key(p, dim))
            && (forall q | q in Points(r) :: Key(q, dim) >= Key(p, dim)))
  }

  /** The source's isLeaf. */
  function IsLeaf(t: Tree): (r: bool)
    requires t.Node?
    ensures r <==> Size(t) == 1
  {
    t.left.Nil? && t.right.Nil?
  }

  // ---------------------------------------------------------------------------
  // Sorting by one coordinate

  predicate SortedBy(s: seq<CustomPoint>, dim: int)
  {
    forall i, j | 0 <= i < j < |s| :: Key(s[i], dim) <= Key(s[j], dim)
  }

  /** `p` inserted in front of the first element of `s` with a larger key. */
  function Insert(p: CustomPoint, s: seq<CustomPoint>, dim: int): (r: seq<CustomPoint>)
    ensures |r| == |s| + 1
  {
    if s == [] then [p]
    else if Key(p, dim) <= Key(s[0], dim) then [p] + s
    else [s[0]] + Insert(p, s[1..], dim)
  }

  /** Insertion adds exactly the one point. */
  lemma {:induction false} InsertPermutes(p: CustomPoint, s: seq<CustomPoint>, dim: int)
    ensures multiset(Insert(p, s, dim)) == multiset(s) + multiset{p}
  {
    if s != [] && Key(p, dim) > Key(s[0], dim) {
      InsertPermutes(p, s[1..], dim);
      assert s == [s[0]] + s[1..];
    }
  }

  /** Insertion into a sorted list keeps it sorted. */
  lemma {:induction false} InsertSorted(p: CustomPoint, s: seq<CustomPoint>, dim: int)
    requires SortedBy(s, dim)
    ensures SortedBy(Insert(p, s, dim), dim)
  {
    if s != [] && Key(p, dim) > Key(s[0], dim) {
      var rest := Insert(p, s[1..], dim);
      InsertSorted(p, s[1..], dim);
      InsertBounded(p, s[1..], dim, Key(s[0], dim));
      var r := [s[0]] + rest;
      forall i, j | 0 <= i < j < |r|
        ensures Key(r[i], dim) <= Key(r[j], dim)
      {
        assert r[j] == rest[j - 1];
        if i > 0 {
          assert r[i] == rest[i - 1];
        }
      }
    }
  }

  /** A lower bound on `p` and on every key of `s` bounds every key after
      insertion. */
  lemma {:induction false} InsertBounded(p: CustomPoint, s: seq<CustomPoint>, dim: int, lo: int)
    requires lo <= Key(p, dim)
    requires forall k | 0 <= k < |s| :: lo <= Key(s[k], dim)
    ensures forall k | 0 <= k < |Insert(p, s, dim)| :: lo <= Key(Insert(p, s, dim)[k], dim)
  {
    if s != [] && Key(p, dim) > Key(s[0], dim) {
      InsertBounded(p, s[1..], dim, lo);
      var r := Insert(p, s, dim);
      var rest := Insert(p, s[1..], dim);
      assert r == [s[0]] + rest;
      forall k | 0 <= k < |r|
        ensures lo <= Key(r[k], dim)
      {
        if k > 0 {
          assert r[k] == rest[k - 1];
        }
      }
    }
  }

  /** `s` sorted by coordinate `dim` by insertion. The source sorts with
      `std::sort`, which is not stable; every property below uses only that
      the result is a sorted permutation. */
  function SortBy(s: seq<CustomPoint>, dim: int): (r: seq<CustomPoint>)
    ensures |r| == |s|
  {
    if s == [] then [] else Insert(s[0], SortBy(s[1..], dim), dim)
  }

  lemma {:induction false} SortByPermutes(s: seq<CustomPoint>, dim: int)
    ensures multiset(SortBy(s, dim)) == multiset(s)
  {
    if s != [] {
      SortByPermutes(s[1..], dim);
      InsertPermutes(s[0], SortBy(s[1..], dim), dim);
      assert s == [s[0]] + s[1..];
    }
  }

  lemma {:induction false} SortBySorted(s: seq<CustomPoint>, dim: int)
    ensures SortedBy(SortBy(s, dim), dim)
  {
    if s != [] {
      SortBySorted(s[1..], dim);
      InsertSorted(s[0], SortBy(s[1..], dim), dim);
    }
  }

  // ---------------------------------------------------------------------------
  // build2dTree

  /** A one-node tree for `p`. */
  function Leaf(p: CustomPoint, dim: int): (t: Tree)
  {
    Node((p.x, p.y), p, dim, Nil, Nil)
  }

  /** Splitting a list around index `m` loses nothing. */
  lemma SplitKeepsAll(s: seq<CustomPoint>, m: int)
    requires 0 <= m < |s|
    ensures multiset{s[m]} + multiset(s[..m]) + multiset(s[m + 1..]) == multiset(s)
  {
    assert s == s[..m] + [s[m]] + s[m + 1..];
  }

  /** Splitting a sorted list around index `m`: everything before is at most
      the element at `m`, everything after at least it. */
  lemma SplitAtMedian(sorted: seq<CustomPoint>, m: int, dim: int, before: multiset<CustomPoint>, after: multiset<CustomPoint>)
    requires SortedBy(sorted, dim) && 0 <= m < |sorted|
    requires before == multiset(sorted[..m]) && after == multiset(sorted[m + 1..])
    ensures forall q | q in before :: Key(q, dim) <= Key(sorted[m], dim)
    ensures forall q | q in after :: Key(q, dim) >= Key(sorted[m], dim)
  {
    forall q | q in before
      ensures Key(q, dim) <= Key(sorted[m], dim)
    {
      assert q in sorted[..m];
    }
    forall q | q in after
      ensures Key(q, dim) >= Key(sorted[m], dim)
    {
      assert q in sorted[m + 1..];
    }
  }

  /** The shape every built tree has. */
  predicate WellFormed(t: Tree)
  {
    DataMatches(t) && RightNeedsLeft(t) && DimsAlternate(t) && Ordered(t)
  }

  /** A median node over two well-formed subtrees split on its dimension is
      well formed. */
  lemma NodeWellFormed(p: CustomPoint, dim: int, l: Tree, r: Tree)
    requires WellFormed(l) && WellFormed(r) && l.Node? && r.Node?
    requires l.dim == NextDim(dim) && r.dim == NextDim(dim)
    requires forall q | q in Points(l) :: Key(q, dim) <= Key(p, dim)
    requires forall q | q in Points(r) :: Key(q, dim) >= Key(p, dim)
    ensures WellFormed(Node((p.x, p.y), p, dim, l, r))
  {
  }

  /** The source's build2dTree. Two points are not sorted: the second becomes
      the parent and the first its left child. Three or more are sorted on
      the current axis (x for dimension 0, y otherwise) and split at index
      (n - 1) / 2. */
  function Build2dTree(pointsList: seq<CustomPoint>, currDim: int): (t: Tree)
    ensures t.Nil? <==> |pointsList| == 0
    ensures t.Node? ==> t.dim == currDim
    decreases |pointsList|, 1
  {
    if |pointsList| == 0 then Nil
    else if |pointsList| == 1 then Leaf(pointsList[0], currDim)
    else if |pointsList| == 2 then
      Node((pointsList[1].x, pointsList[1].y), pointsList[1], currDim, Leaf(pointsList[0], NextDim(currDim)), Nil)
    else BuildSorted(SortBy(pointsList, currDim), currDim)
  }

  /** The median step of build2dTree on a list already sorted on the current
      axis: the middle point over the trees of the two halves. */
  function BuildSorted(sorted: seq<CustomPoint>, currDim: int): (t: Tree)
    requires |sorted| >= 3
    ensures t.Node? && t.dim == currDim
    ensures t.left.Node? && t.right.Node?
    decreases |sorted|, 0
  {
    var midIndex := (|sorted| - 1) / 2;
    var median := sorted[midIndex];
    Node((median.x, median.y), median, currDim,
      Build2dTree(sorted[..midIndex], NextDim(currDim)), Build2dTree(sorted[midIndex + 1..], NextDim(currDim)))
  }

  /** One or two points give a well-formed tree holding them. */
  lemma BuildSmall(pointsList: seq<CustomPoint>, currDim: int)
    requires 1 <= |pointsList| <= 2
    ensures Points(Build2dTree(pointsList, currDim)) == multiset(pointsList)
    ensures WellFormed(Build2dTree(pointsList, currDim))
  {
    if |pointsList| == 1 {
      assert pointsList == [pointsList[0]];
      assert Build2dTree(pointsList, currDim) == Leaf(pointsList[0], currDim);
    } else {
      BuildPair(pointsList[0], pointsList[1], currDim);
      assert pointsList == [pointsList[0], pointsList[1]];
    }
  }

  lemma BuildPair(a: CustomPoint, b: CustomPoint, currDim: int)
    ensures Points(Build2dTree([a, b], currDim)) == multiset{a, b}
    ensures WellFormed(Build2dTree([a, b], currDim))
  {
    var t := Build2dTree([a, b], currDim);
    assert t == Node((b.x, b.y), b, currDim, Leaf(a, NextDim(currDim)), Nil);
    assert Points(t) == multiset{b} + multiset{a};
  }

  /** The tree holds exactly the listed points, each as often as listed. */
  lemma {:induction false} BuildKeepsPoints(pointsList: seq<CustomPoint>, currDim: int)
    ensures Points(Build2dTree(pointsList, currDim)) == multiset(pointsList)
    decreases |pointsList|, 1
  {
    if 1 <= |pointsList| <= 2 {
      BuildSmall(pointsList, currDim);
    } else if |pointsList| >= 3 {
      SortedKeepsPoints(SortBy(pointsList, currDim), currDim);
      SortByPermutes(pointsList, currDim);
    }
  }

  lemma {:induction false} SortedKeepsPoints(sorted: seq<CustomPoint>, currDim: int)
    requires |sorted| >= 3
    ensures Points(BuildSorted(sorted, currDim)) == multiset(sorted)
    decreases |sorted|, 0
  {
    var m := (|sorted| - 1) / 2;
    var l, r := Build2dTree(sorted[..m], NextDim(currDim)), Build2dTree(sorted[m + 1..], NextDim(currDim));
    assert Points(BuildSorted(sorted, currDim)) == multiset{sorted[m]} + Points(l) + Points(r);
    BuildKeepsPoints(sorted[..m], NextDim(currDim));
    BuildKeepsPoints(sorted[m + 1..], NextDim(currDim));
    SplitKeepsAll(sorted, m);
  }

  /** Every built tree caches its points' coordinates, has no right-only
      node, alternates dimensions and keeps the split invariant. */
  lemma {:induction false} BuildIsWellFormed(pointsList: seq<CustomPoint>, currDim: int)
    ensures WellFormed(Build2dTree(pointsList, currDim))
    decreases |pointsList|, 1
  {
    if 1 <= |pointsList| <= 2 {
      BuildSmall(pointsList, currDim);
    } else if |pointsList| >= 3 {
      SortBySorted(pointsList, currDim);
      SortedIsWellFormed(SortBy(pointsList, currDim), currDim);
    }
  }

  lemma {:induction false} SortedIsWellFormed(sorted: seq<CustomPoint>, currDim: int)
    requires |sorted| >= 3 && SortedBy(sorted, currDim)
    ensures WellFormed(BuildSorted(sorted, currDim))
    decreases |sorted|, 0
  {
    var m := (|sorted| - 1) / 2;
    var l, r := Build2dTree(sorted[..m], NextDim(currDim)), Build2dTree(sorted[m + 1..], NextDim(currDim));
    BuildIsWellFormed(sorted[..m], NextDim(currDim));
    BuildIsWellFormed(sorted[m + 1..], NextDim(currDim));
    BuildKeepsPoints(sorted[..m], NextDim(currDim));
    BuildKeepsPoints(sorted[m + 1..], NextDim(currDim));
    SplitAtMedian(sorted, m, currDim, Points(l), Points(r));
    NodeWellFormed(sorted[m], currDim, l, r);
  }

  /** The tree holds one node per listed point. */
  lemma BuildSize(pointsList: seq<CustomPoint>, currDim: int)
    ensures Size(Build2dTree(pointsList, currDim)) == |pointsList|
  {
    BuildKeepsPoints(pointsList, currDim);
    SizeIsPointCount(Build2dTree(pointsList, currDim));
  }

  /** The base cases: no points give the null tree; one point a childless
      node on the current dimension; two points, left unsorted, the second as
      the root and the first as its only (left) child, on the next dimension. */
  lemma BuildBaseCases(a: CustomPoint, b: CustomPoint, currDim: int)
    ensures Build2dTree([], currDim).Nil?
    ensures var t := Build2dTree([a], currDim);
      t.Node? && t.point == a && t.data == (a.x, a.y) && t.dim == currDim && IsLeaf(t)
    ensures var t := Build2dTree([a, b], currDim);
      && t.Node? && t.point == b && t.dim == currDim && t.right.Nil?
      && t.left.Node? && t.left.point == a && t.left.dim == NextDim(currDim) && IsLeaf(t.left)
  {
  }

  // ---------------------------------------------------------------------------
  // findNearestNeighbor

  /** The search state the source threads through references: the nearest
      point so far and its squared distance. */
  datatype Best = Best(point: CustomPoint, dist: int)

  /** How a two-child node picks the axis to compare on. As written, the
      source selects x or y by the node's dimension and then tests whether the
      selected VALUE equals the query's x, so a dimension-1 node compares on
      x whenever the query has x == y. By dimension is the evident intent:
      dimension 0 compares on x. */
  datatype SplitRule = AsWritten | ByDimension

  function ComparesOnX(rule: SplitRule, dim: int, qx: int, qy: int): bool
  {
    match rule
    case AsWritten => (if dim == 0 then qx else qy) == qx
    case ByDimension => dim == 0
  }

  /** The two rules differ only on queries with x == y. */
  lemma RulesAgreeOffDiagonal(dim: int, qx: int, qy: int)
    requires qx != qy
    ensures ComparesOnX(AsWritten, dim, qx, qy) == ComparesOnX(ByDimension, dim, qx, qy)
  {
  }

  /** The source's findNearestNeighborHelper. The node's own point replaces
      the best when strictly closer; a one-child node descends left; a
      two-child node searches the query's side of the split first and the
      other side only when the coordinate gap is below the best squared
      distance (the source compares a gap with a squared distance). */
  function Search(t: Tree, b: Best, qx: int, qy: int, rule: SplitRule): (r: Best)
    requires t.Node? && RightNeedsLeft(t)
    ensures r.dist <= b.dist
    ensures r == b || (r.dist < b.dist && r.point in Points(t) && (DataMatches(t) ==> r.dist == PointDist(r.point, qx, qy)))
    decreases t, 1
  {
    var currDist := GetDist(t.data.0, qx, t.data.1, qy);
    var b1 := if currDist < b.dist then Best(t.point, currDist) else b;
    if IsLeaf(t) then b1
    else if t.left.Node? && t.right.Nil? then Search(t.left, b1, qx, qy, rule)
    else if ComparesOnX(rule, t.dim, qx, qy) then SearchSides(t, b1, qx, t.data.0, qx, qy, rule)
    else SearchSides(t, b1, qy, t.data.1, qx, qy, rule)
  }

  /** The two-child step of the search, the same for either axis: `q` is the
      query's coordinate and `split` the node's on the compared axis. The side
      holding the query goes first; the other side is visited only while the
      gap to the split line is below the best distance found. */
  function SearchSides(t: Tree, b: Best, q: int, split: int, qx: int, qy: int, rule: SplitRule): (r: Best)
    requires t.Node? && t.left.Node? && t.right.Node? && RightNeedsLeft(t)
    ensures r.dist <= b.dist
    ensures r == b || (r.dist < b.dist && r.point in Points(t) && (DataMatches(t) ==> r.dist == PointDist(r.point, qx, qy)))
    decreases t, 0
  {
    if q > split then
      var b2 := Search(t.right, b, qx, qy, rule);
      if q - b2.dist < split then Search(t.left, b2, qx, qy, rule) else b2
    else
      var b2 := Search(t.left, b, qx, qy, rule);
      if q + b2.dist > split then Search(t.right, b2, qx, qy, rule) else b2
  }

  /** A point on the far side of a split line, at a gap of at least the best
      distance, cannot beat the best. */
  lemma FarSideIsFar(p: CustomPoint, qx: int, qy: int, axisGap: int, m: int)
    requires axisGap >= 0 && axisGap >= m
    requires Arith.Abs(p.x - qx) >= axisGap || Arith.Abs(p.y - qy) >= axisGap
    ensures PointDist(p, qx, qy) >= m
  {
    var dx, dy := p.x - qx, p.y - qy;
    Square(dx);
    Square(dy);
    assert dx * dx == Arith.Abs(dx) * Arith.Abs(dx);
    assert dy * dy == Arith.Abs(dy) * Arith.Abs(dy);
    if Arith.Abs(dx) >= axisGap {
      SquareBeatsGap(Arith.Abs(dx), axisGap, m);
    } else {
      SquareBeatsGap(Arith.Abs(dy), axisGap, m);
    }
  }

  /** On a well-formed tree the search misses nothing: its result is at least
      as close as every stored point, provided the rule compares along the
      node's own dimension (always for ByDimension, and for AsWritten when the
      query has x != y). The pruning is sound because a gap g >= d between
      integers implies g * g >= d. */
  lemma {:induction false} SearchIsExhaustive(t: Tree, b: Best, qx: int, qy: int, rule: SplitRule)
    requires t.Node? && RightNeedsLeft(t) && Ordered(t) && DataMatches(t)
    requires rule == ByDimension || qx != qy
    ensures forall p | p in Points(t) :: Search(t, b, qx, qy, rule).dist <= PointDist(p, qx, qy)
    decreases t, 2
  {
    var currDist := GetDist(t.data.0, qx, t.data.1, qy);
    var b1 := if currDist < b.dist then Best(t.point, currDist) else b;
    assert b1.dist <= PointDist(t.point, qx, qy);
    if IsLeaf(t) {
      assert Points(t) == multiset{t.point};
    } else if t.left.Node? && t.right.Nil? {
      SearchIsExhaustive(t.left, b1, qx, qy, rule);
    } else {
      if rule == AsWritten {
        RulesAgreeOffDiagonal(t.dim, qx, qy);
      }
      if t.dim == 0 {
        SidesAreExhaustive(t, b1, qx, t.data.0, qx, qy, rule);
      } else {
        SidesAreExhaustive(t, b1, qy, t.data.1, qx, qy, rule);
      }
    }
  }

  /** The two-child step misses nothing below the node when it compares
      along the node's own dimension. */
  lemma {:induction false} SidesAreExhaustive(t: Tree, b: Best, q: int, split: int, qx: int, qy: int, rule: SplitRule)
    requires t.Node? && t.left.Node? && t.right.Node? && RightNeedsLeft(t) && Ordered(t) && DataMatches(t)
    requires rule == ByDimension || qx != qy
    requires q == (if t.dim == 0 then qx else qy) && split == Key(t.point, t.dim)
    ensures forall p | p in Points(t.left) + Points(t.right) :: SearchSides(t, b, q, split, qx, qy, rule).dist <= PointDist(p, qx, qy)
    decreases t, 1
  {
    if q > split {
      RightFirstIsExhaustive(t, b, q, split, qx, qy, rule);
    } else {
      LeftFirstIsExhaustive(t, b, q, split, qx, qy, rule);
    }
  }

  /** A query right of the split: the right side is searched, and the left
      side is either searched too or lies at least the best distance away. */
  lemma {:induction false} RightFirstIsExhaustive(t: Tree, b: Best, q: int, split: int, qx: int, qy: int, rule: SplitRule)
    requires t.Node? && t.left.Node? && t.right.Node? && RightNeedsLeft(t) && Ordered(t) && DataMatches(t)
    requires rule == ByDimension || qx != qy
    requires q == (if t.dim == 0 then qx else qy) && split == Key(t.point, t.dim) && q > split
    ensures var r := Search(t.right, b, qx, qy, rule);
      forall p | p in Points(t.left) + Points(t.right) ::
        (if q - r.dist < split then Search(t.left, r, qx, qy, rule) else r).dist <= PointDist(p, qx, qy)
    decreases t, 0
  {
    var b2 := Search(t.right, b, qx, qy, rule);
    SearchIsExhaustive(t.right, b, qx, qy, rule);
    if q - b2.dist < split {
      SearchIsExhaustive(t.left, b2, qx, qy, rule);
    } else {
      forall p | p in Points(t.left)
        ensures b2.dist <= PointDist(p, qx, qy)
      {
        FarSideIsFar(p, qx, qy, q - split, b2.dist);
      }
    }
  }

  /** A query on or left of the split, symmetrically. */
  lemma {:induction false} LeftFirstIsExhaustive(t: Tree, b: Best, q: int, split: int, qx: int, qy: int, rule: SplitRule)
    requires t.Node? && t.left.Node? && t.right.Node? && RightNeedsLeft(t) && Ordered(t) && DataMatches(t)
    requires rule == ByDimension || qx != qy
    requires q == (if t.dim == 0 then qx else qy) && split == Key(t.point, t.dim) && q <= split
    ensures var r := Search(t.left, b, qx, qy, rule);
      forall p | p in Points(t.left) + Points(t.right) ::
        (if q + r.dist > split then Search(t.right, r, qx, qy, rule) else r).dist <= PointDist(p, qx, qy)
    decreases t, 0
  {
    var b2 := Search(t.left, b, qx, qy, rule);
    SearchIsExhaustive(t.left, b, qx, qy, rule);
    if q + b2.dist > split {
      SearchIsExhaustive(t.right, b2, qx, qy, rule);
    } else {
      forall p | p in Points(t.right)
        ensures b2.dist <= PointDist(p, qx, qy)
      {
        FarSideIsFar(p, qx, qy, split - q, b2.dist);
      }
    }
  }

  /** The source's findNearestNeighbor on a non-null tree: the search starts
      from the root's own point. */
  function FindNearestNeighbor(root: Tree, x: int, y: int): (p: CustomPoint)
    requires root.Node? && RightNeedsLeft(root)
    ensures p in Points(root)
  {
    NearestBy(root, x, y, AsWritten)
  }

  /** findNearestNeighbor with the axis chosen by the node's dimension. */
  function FindNearestNeighborByDimension(root: Tree, x: int, y: int): (p: CustomPoint)
    requires root.Node? && RightNeedsLeft(root)
    ensures p in Points(root)
  {
    NearestBy(root, x, y, ByDimension)
  }

  /** The shared body of both searches: start from the root and its
      distance, then descend. The answer is never farther than the root. */
  function NearestBy(root: Tree, x: int, y: int, rule: SplitRule): (p: CustomPoint)
    requires root.Node? && RightNeedsLeft(root)
    ensures p in Points(root)
    ensures DataMatches(root) ==> PointDist(p, x, y) <= PointDist(root.point, x, y)
  {
    var start := Best(root.point, GetDist(root.data.0, x, root.data.1, y));
    Search(root, start, x, y, rule).point
  }

  /** The result's recorded distance is its true distance on a well-formed
      tree, and no stored point is nearer. */
  lemma NearestByIsNearest(root: Tree, x: int, y: int, rule: SplitRule)
    requires root.Node? && RightNeedsLeft(root) && Ordered(root) && DataMatches(root)
    requires rule == ByDimension || x != y
    ensures forall q | q in Points(root) :: PointDist(NearestBy(root, x, y, rule), x, y) <= PointDist(q, x, y)
  {
    var start := Best(root.point, GetDist(root.data.0, x, root.data.1, y));
    SearchIsExhaustive(root, start, x, y, rule);
  }

  /** Building a tree from any non-empty list and querying it at a point off
      the diagonal returns one of the listed points, and none is nearer. */
  lemma BuiltTreeFindsNearest(pointsList: seq<CustomPoint>, currDim: int, x: int, y: int)
    requires |pointsList| >= 1 && x != y
    ensures var t := Build2dTree(pointsList, currDim);
      RightNeedsLeft(t) &&
      var p := FindNearestNeighbor(t, x, y);
      p in pointsList && forall q | q in pointsList :: PointDist(p, x, y) <= PointDist(q, x, y)
  {
    var t := Build2dTree(pointsList, currDim);
    BuildKeepsPoints(pointsList, currDim);
    BuildIsWellFormed(pointsList, currDim);
    NearestByIsNearest(t, x, y, AsWritten);
    assert forall q | q in pointsList :: q in Points(t);
  }

  /** With the axis chosen by dimension the same holds for every query. */
  lemma BuiltTreeFindsNearestByDimension(pointsList: seq<CustomPoint>, currDim: int, x: int, y: int)
    requires |pointsList| >= 1
    ensures var t := Build2dTree(pointsList, currDim);
      RightNeedsLeft(t) &&
      var p := FindNearestNeighborByDimension(t, x, y);
      p in pointsList && forall q | q in pointsList :: PointDist(p, x, y) <= PointDist(q, x, y)
  {
    var t := Build2dTree(pointsList, currDim);
    BuildKeepsPoints(pointsList, currDim);
    BuildIsWellFormed(pointsList, currDim);
    NearestByIsNearest(t, x, y, ByDimension);
    assert forall q | q in pointsList :: q in Points(t);
  }

  /** Built on dimension 1, the points (6,2), (18,4), (2,5) are already in
      y order: (18,4) becomes the root, with (6,2) on its left and (2,5) on its
      right. */
  lemma DiagonalExampleTree()
    ensures var a, b, c := CustomPoint(6, 2, 0, 0, 0), CustomPoint(18, 4, 0, 0, 0), CustomPoint(2, 5, 0, 0, 0);
      Build2dTree([a, b, c], 1) == Node((18, 4), b, 1, Leaf(a, 0), Leaf(c, 0))
  {
    var a, b, c := CustomPoint(6, 2, 0, 0, 0), CustomPoint(18, 4, 0, 0, 0), CustomPoint(2, 5, 0, 0, 0);
    assert [a, b, c][1..] == [b, c] && [b, c][1..] == [c] && [c][1..] == [];
    assert SortBy([c], 1) == [c];
    assert Insert(b, [c], 1) == [b, c];
    assert SortBy([b, c], 1) == [b, c];
    assert Insert(a, [b, c], 1) == [a, b, c];
    var s := SortBy([a, b, c], 1);
    assert s == [a, b, c];
    assert NextDim(1) == 0;
    assert s[(|s| - 1) / 2] == b && s[..1] == [a] && s[2..] == [c];
    assert Build2dTree([a, b, c], 1) == BuildSorted(s, 1);
    assert Build2dTree([a], 0) == Leaf(a, 0);
    assert Build2dTree([c], 0) == Leaf(c, 0);
  }

  /** The points (6,2), (18,4), (2,5), built on dimension 1 and queried at
      (2,2): the root (18,4) splits on y, but since the query's y equals its
      x the source compares on x, searches left only, and returns (6,2) at
      squared distance 16 although (2,5) is at 9. */
  lemma DiagonalQueryMissesNearest()
    ensures var a, b, c := CustomPoint(6, 2, 0, 0, 0), CustomPoint(18, 4, 0, 0, 0), CustomPoint(2, 5, 0, 0, 0);
      && RightNeedsLeft(Build2dTree([a, b, c], 1))
      && FindNearestNeighbor(Build2dTree([a, b, c], 1), 2, 2) == a
      && PointDist(a, 2, 2) == 16 && PointDist(c, 2, 2) == 9
      && FindNearestNeighborByDimension(Build2dTree([a, b, c], 1), 2, 2) == c
  {
    var a, b, c := CustomPoint(6, 2, 0, 0, 0), CustomPoint(18, 4, 0, 0, 0), CustomPoint(2, 5, 0, 0, 0);
    DiagonalExampleTree();
    var t := Node((18, 4), b, 1, Leaf(a, 0), Leaf(c, 0));
    var start := Best(b, 260);
    assert GetDist(18, 2, 4, 2) == 260;
    assert Search(Leaf(a, 0), start, 2, 2, AsWritten) == Best(a, 16);
    assert SearchSides(t, start, 2, 18, 2, 2, AsWritten) == Best(a, 16);
    assert Search(t, start, 2, 2, AsWritten) == Best(a, 16);
    assert Search(Leaf(a, 0), start, 2, 2, ByDimension) == Best(a, 16);
    assert Search(Leaf(c, 0), Best(a, 16), 2, 2, ByDimension) == Best(c, 9);
    assert SearchSides(t, start, 2, 4, 2, 2, ByDimension) == Best(c, 9);
    assert Search(t, start, 2, 2, ByDimension) == Best(c, 9);
  }
}
