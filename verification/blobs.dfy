/** The 4-connected flood fill shared by the guide check and the alpha
    check: a row-major scan that starts a breadth-first search at every
    matching pixel not yet visited, and reports each region's pixel count
    and coordinate sums. */
module Blobs {
  import opened Arith
  import opened Images

  /** p and q share an edge. */
  predicate Adjacent(p: Point, q: Point) {
    (p.x == q.x && (p.y - q.y == 1 || q.y - p.y == 1))
    || (p.y == q.y && (p.x - q.x == 1 || q.x - p.x == 1))
  }

  /** The four neighbours in the order the guide check visits them:
      right, left, below, above. */
  function Neighbors(p: Point): (ns: seq<Point>)
    ensures |ns| == 4
    ensures forall k :: 0 <= k < 4 ==> Adjacent(p, ns[k])
  {
    [Point(p.x + 1, p.y), Point(p.x - 1, p.y), Point(p.x, p.y + 1), Point(p.x, p.y - 1)]
  }

  lemma AdjacentIsNeighbor(p: Point, q: Point)
    requires Adjacent(p, q)
    ensures q in Neighbors(p)
  {
  }

  /** All points of a `w` by `h` grid. */
  ghost function Grid(w: nat, h: nat): (g: set<Point>)
    ensures forall p :: p in g <==> InBounds(w, h, p)
  {
    set x, y | 0 <= x < w && 0 <= y < h :: Point(x, y)
  }

  predicate Distinct(s: seq<Point>) {
    forall i, j :: 0 <= i < j < |s| ==> s[i] != s[j]
  }

  ghost function Elements(s: seq<Point>): set<Point> {
    set p | p in s
  }

  /** The points can be listed so that each one after the first shares an
      edge with an earlier one: `parent[k]` names that earlier point. This
      is what makes the region 4-connected. */
  ghost predicate Spanning(order: seq<Point>, parent: seq<nat>) {
    && |parent| == |order|
    && forall k :: 1 <= k < |order| ==> parent[k] < k && Adjacent(order[parent[k]], order[k])
  }

  /** No matching pixel on the grid shares an edge with `region` without belonging to it. */
  ghost predicate ClosedRegion(w: nat, h: nat, matches: Point -> bool, region: seq<Point>) {
    forall k, q :: 0 <= k < |region| && Adjacent(region[k], q) && InBounds(w, h, q) && matches(q) ==> q in region
  }

  /** `region` is a blob: a maximal 4-connected set of matching pixels. */
  ghost predicate IsBlob(w: nat, h: nat, matches: Point -> bool, region: seq<Point>, parent: seq<nat>) {
    && |region| > 0
    && Distinct(region)
    && (forall k :: 0 <= k < |region| ==> InBounds(w, h, region[k]) && matches(region[k]))
    && Spanning(region, parent)
    && ClosedRegion(w, h, matches, region)
  }

  function SumX(s: seq<Point>): int {
    if s == [] then 0 else SumX(s[..|s| - 1]) + s[|s| - 1].x
  }

  function SumY(s: seq<Point>): int {
    if s == [] then 0 else SumY(s[..|s| - 1]) + s[|s| - 1].y
  }

  /** What the scan reports for one region: its first pixel, its pixel
      count and the sums of its coordinates (the source's sumX, sumY, count). */
  datatype Blob = Blob(seed: Point, count: nat, sumX: int, sumY: int)

  /** The centre of mass, `sumX / count` and `sumY / count`; the sums are
      never negative, so this is C++'s truncating division. */
  function Centroid(b: Blob): Point
    requires b.count > 0
  {
    Point(b.sumX / b.count, b.sumY / b.count)
  }

  function Summary(region: seq<Point>): Blob
    requires |region| > 0
  {
    Blob(region[0], |region|, SumX(region), SumY(region))
  }

  /** Coordinate sums of in-bounds points are bounded by the count times the largest coordinate. */
  lemma {:induction false} SumBounds(w: nat, h: nat, s: seq<Point>)
    requires forall k :: 0 <= k < |s| ==> InBounds(w, h, s[k])
    ensures 0 <= SumX(s) <= |s| * (w - 1)
    ensures 0 <= SumY(s) <= |s| * (h - 1)
  {
    if s != [] {
      var init := s[..|s| - 1];
      SumBounds(w, h, init);
      assert InBounds(w, h, s[|s| - 1]);
      MulSucc(|init|, w - 1);
      MulSucc(|init|, h - 1);
    }
  }

  /** The centre of mass of a region of the grid lies on the grid, so the
      mark drawn there is centred on the image. */
  lemma CentroidInBounds(w: nat, h: nat, region: seq<Point>)
    requires |region| > 0
    requires forall k :: 0 <= k < |region| ==> InBounds(w, h, region[k])
    ensures InBounds(w, h, Centroid(Summary(region)))
  {
    SumBounds(w, h, region);
    assert InBounds(w, h, region[0]);
    MeanBelow(SumX(region), |region|, w - 1);
    MeanBelow(SumY(region), |region|, h - 1);
  }

  /** p comes before q in a row-major scan. */
  predicate RowMajorBefore(p: Point, q: Point) {
    p.y < q.y || (p.y == q.y && p.x < q.x)
  }

  lemma {:induction false} DistinctElements(s: seq<Point>)
    requires Distinct(s)
    ensures |Elements(s)| == |s|
  {
    if s != [] {
      var init := s[..|s| - 1];
      assert Elements(s) == Elements(init) + {s[|s| - 1]};
      assert s[|s| - 1] !in Elements(init);
      DistinctElements(init);
    }
  }

  /** A list of distinct grid points is no longer than the grid. */
  lemma DistinctInGrid(w: nat, h: nat, s: seq<Point>)
    requires Distinct(s)
    requires forall k :: 0 <= k < |s| ==> InBounds(w, h, s[k])
    ensures |s| <= |Grid(w, h)|
  {
    DistinctElements(s);
    SubsetCardinality(Elements(s), Grid(w, h));
  }

  lemma {:induction false} SubsetCardinality<T>(a: set<T>, b: set<T>)
    requires a <= b
    ensures |a| <= |b|
    decreases |a|
  {
    if a != {} {
      var x :| x in a;
      SubsetCardinality(a - {x}, b - {x});
    }
  }

  lemma SumStep(s: seq<Point>, k: nat)
    requires k < |s|
    ensures SumX(s[..k + 1]) == SumX(s[..k]) + s[k].x
    ensures SumY(s[..k + 1]) == SumY(s[..k]) + s[k].y
  {
    assert s[..k + 1][..k] == s[..k];
  }

  /** What holds of a search in progress: `visited'` is the earlier
      visited set plus the discovered points, each discovered point is a
      fresh matching grid point reached from an earlier one. */
  ghost predicate Searching(w: nat, h: nat, matches: Point -> bool, seed: Point, visited: set<Point>,
                            visited': set<Point>, order: seq<Point>, parent: seq<nat>)
  {
    && |order| > 0 && order[0] == seed
    && visited' == visited + Elements(order)
    && Distinct(order)
    && (forall k :: 0 <= k < |order| ==> InBounds(w, h, order[k]) && matches(order[k]) && order[k] !in visited)
    && Spanning(order, parent)
  }

  lemma SearchingExtend(w: nat, h: nat, matches: Point -> bool, seed: Point, visited: set<Point>,
                        visited': set<Point>, order: seq<Point>, parent: seq<nat>,
                        head: nat, q: Point)
    requires Searching(w, h, matches, seed, visited, visited', order, parent)
    requires head < |order| && Adjacent(order[head], q)
    requires InBounds(w, h, q) && q !in visited' && matches(q)
    ensures Searching(w, h, matches, seed, visited, visited' + {q}, order + [q], parent + [head])
  {
    var order', parent' := order + [q], parent + [head];
    assert Elements(order') == Elements(order) + {q};
    assert q !in order;
    assert Distinct(order') by {
      forall i, j | 0 <= i < j < |order'|
        ensures order'[i] != order'[j]
      {
        if j < |order| {
          assert order'[i] == order[i] && order'[j] == order[j];
        } else {
          assert order'[i] == order[i];
        }
      }
    }
    assert Spanning(order', parent') by {
      forall k | 1 <= k < |order'|
        ensures parent'[k] < k && Adjacent(order'[parent'[k]], order'[k])
      {
        if k < |order| {
          assert parent'[k] == parent[k] && order'[k] == order[k] && order'[parent[k]] == order[parent[k]];
        }
      }
    }
    assert forall k :: 0 <= k < |order'| ==> InBounds(w, h, order'[k]) && matches(order'[k]) && order'[k] !in visited by {
      forall k | 0 <= k < |order'|
        ensures InBounds(w, h, order'[k]) && matches(order'[k]) && order'[k] !in visited
      {
        if k < |order| {
          assert order'[k] == order[k];
        }
      }
    }
  }

  /** One neighbour check of the search: `q` is queued when it is on the
      grid, unvisited and matching. */
  method Discover(w: nat, h: nat, matches: Point -> bool, seed: Point, visited: set<Point>,
                  visited': set<Point>, order: seq<Point>, ghost parent: seq<nat>,
                  head: nat, q: Point)
    returns (visited'': set<Point>, order': seq<Point>, ghost parent': seq<nat>)
    requires Searching(w, h, matches, seed, visited, visited', order, parent)
    requires head < |order| && Adjacent(order[head], q)
    ensures Searching(w, h, matches, seed, visited, visited'', order', parent')
    ensures visited' <= visited''
    ensures |order'| >= |order| && order'[..|order|] == order
    ensures InBounds(w, h, q) && matches(q) ==> q in visited''
  {
    if InBounds(w, h, q) && q !in visited' && matches(q) {
      SearchingExtend(w, h, matches, seed, visited, visited', order, parent, head, q);
      visited'' := visited' + {q};
      order' := order + [q];
      parent' := parent + [head];
      assert order'[..|order|] == order;
    } else {
      visited'', order', parent' := visited', order, parent;
      assert order'[..|order|] == order;
    }
  }

  /** Taking `order[head]` off the worklist: its four neighbours are checked. */
  method Expand(w: nat, h: nat, matches: Point -> bool, seed: Point, visited: set<Point>,
                visited': set<Point>, order: seq<Point>, ghost parent: seq<nat>, head: nat)
    returns (visited'': set<Point>, order': seq<Point>, ghost parent': seq<nat>)
    requires Searching(w, h, matches, seed, visited, visited', order, parent)
    requires head < |order|
    ensures Searching(w, h, matches, seed, visited, visited'', order', parent')
    ensures visited' <= visited''
    ensures |order'| >= |order| && order'[..|order|] == order
    ensures forall q :: Adjacent(order[head], q) && InBounds(w, h, q) && matches(q) ==> q in visited''
  {
    var p := order[head];
    var ns := Neighbors(p);
    visited'', order', parent' := visited', order, parent;
    var i := 0;
    while i < 4
      invariant 0 <= i <= 4
      invariant Searching(w, h, matches, seed, visited, visited'', order', parent')
      invariant visited' <= visited''
      invariant |order'| >= |order| && order'[..|order|] == order
      invariant forall j :: 0 <= j < i && InBounds(w, h, ns[j]) && matches(ns[j]) ==> ns[j] in visited''
    {
      ghost var prev, prevVisited := order', visited'';
      assert order'[head] == p;
      visited'', order', parent' := Discover(w, h, matches, seed, visited, visited'', order', parent', head, ns[i]);
      assert order'[..|order|] == order by {
        assert order'[..|prev|] == prev;
        assert prev[..|order|] == order;
      }
      forall j | 0 <= j < i + 1 && InBounds(w, h, ns[j]) && matches(ns[j])
        ensures ns[j] in visited''
      {
        if j < i {
          assert ns[j] in prevVisited;
        }
      }
      i := i + 1;
    }
    forall q | Adjacent(p, q) && InBounds(w, h, q) && matches(q)
      ensures q in visited''
    {
      AdjacentIsNeighbor(p, q);
    }
  }

  /** The breadth-first search from `seed`: the worklist is the suffix
      `order[head..]` of the discovery list. */
  method Flood(w: nat, h: nat, matches: Point -> bool, seed: Point, visited: set<Point>)
    returns (visited': set<Point>, order: seq<Point>, sumX: int, sumY: int, ghost parent: seq<nat>)
    requires InBounds(w, h, seed) && matches(seed) && seed !in visited
    ensures visited' == visited + Elements(order)
    ensures |order| > 0 && order[0] == seed
    ensures Distinct(order)
    ensures forall k :: 0 <= k < |order| ==> InBounds(w, h, order[k]) && matches(order[k]) && order[k] !in visited
    ensures Spanning(order, parent)
    ensures forall k, q :: 0 <= k < |order| && Adjacent(order[k], q) && InBounds(w, h, q) && matches(q) ==> q in visited'
    ensures sumX == SumX(order) && sumY == SumY(order)
  {
    ghost var bound := |Grid(w, h)|;
    visited' := visited + {seed};
    order := [seed];
    parent := [0];
    assert Elements(order) == {seed};
    sumX, sumY := 0, 0;
    var head := 0;
    while head < |order|
      invariant 0 <= head <= |order|
      invariant Searching(w, h, matches, seed, visited, visited', order, parent)
      invariant forall k, q :: 0 <= k < head && Adjacent(order[k], q) && InBounds(w, h, q) && matches(q) ==> q in visited'
      invariant sumX == SumX(order[..head]) && sumY == SumY(order[..head])
      decreases bound - head
    {
      DistinctInGrid(w, h, order);
      var p := order[head];
      SumStep(order, head);
      sumX, sumY := sumX + p.x, sumY + p.y;
      ghost var before := order;
      ghost var seen := visited';
      visited', order, parent := Expand(w, h, matches, seed, visited, visited', order, parent, head);
      assert order[..head + 1] == before[..head + 1];
      forall k, q | 0 <= k < head + 1 && Adjacent(order[k], q) && InBounds(w, h, q) && matches(q)
        ensures q in visited'
      {
        assert order[k] == before[k];
      }
      head := head + 1;
    }
    assert order[..head] == order;
  }

  /** The regions found so far partition the visited points: `owner` maps
      every visited point to the one region holding it. */
  ghost predicate Partition(w: nat, h: nat, matches: Point -> bool, visited: set<Point>, blobs: seq<Blob>,
                            cells: seq<seq<Point>>, parents: seq<seq<nat>>, owner: map<Point, nat>)
  {
    && |cells| == |blobs| == |parents|
    && visited == owner.Keys
    && (forall p :: p in owner ==> InBounds(w, h, p) && matches(p) && owner[p] < |cells| && p in cells[owner[p]])
    && (forall i, p :: 0 <= i < |cells| && p in cells[i] ==> p in owner && owner[p] == i)
    && (forall i :: 0 <= i < |cells| ==> IsBlob(w, h, matches, cells[i], parents[i]) && blobs[i] == Summary(cells[i]))
  }

  /** A search that started outside every earlier region and stopped at
      matching neighbours only is closed on its own: no earlier region
      touches it, since that region would have absorbed it. */
  lemma NewRegionClosed(w: nat, h: nat, matches: Point -> bool, visited: set<Point>, blobs: seq<Blob>,
                        cells: seq<seq<Point>>, parents: seq<seq<nat>>, owner: map<Point, nat>,
                        order: seq<Point>)
    requires Partition(w, h, matches, visited, blobs, cells, parents, owner)
    requires forall k :: 0 <= k < |order| ==> InBounds(w, h, order[k]) && matches(order[k]) && order[k] !in visited
    requires forall k, q :: 0 <= k < |order| && Adjacent(order[k], q) && InBounds(w, h, q) && matches(q) ==> q in visited + Elements(order)
    ensures ClosedRegion(w, h, matches, order)
  {
    forall k, q | 0 <= k < |order| && Adjacent(order[k], q) && InBounds(w, h, q) && matches(q)
      ensures q in order
    {
      OwnedNeighbour(w, h, matches, visited, blobs, cells, parents, owner, q, order[k]);
    }
  }

  /** A matching neighbour of a visited point is visited: every region
      found so far is closed. */
  lemma OwnedNeighbour(w: nat, h: nat, matches: Point -> bool, visited: set<Point>, blobs: seq<Blob>,
                       cells: seq<seq<Point>>, parents: seq<seq<nat>>, owner: map<Point, nat>,
                       q: Point, p: Point)
    requires Partition(w, h, matches, visited, blobs, cells, parents, owner)
    requires Adjacent(p, q) && InBounds(w, h, p) && matches(p)
    ensures q in visited ==> p in visited
  {
    if q in visited {
      var i := owner[q];
      assert i < |cells| && q in cells[i] && ClosedRegion(w, h, matches, cells[i]);
      ClosedContains(w, h, matches, cells[i], q, p);
    }
  }

  /** A closed region holds every matching neighbour of its points. */
  lemma ClosedContains(w: nat, h: nat, matches: Point -> bool, region: seq<Point>, q: Point, p: Point)
    requires ClosedRegion(w, h, matches, region) && q in region
    requires Adjacent(p, q) && InBounds(w, h, p) && matches(p)
    ensures p in region
  {
    var j :| 0 <= j < |region| && region[j] == q;
    assert Adjacent(region[j], p);
  }

  /** `r` is `owner` with every point of `order` assigned to region `n`. */
  ghost predicate Assigned(owner: map<Point, nat>, order: seq<Point>, n: nat, r: map<Point, nat>) {
    && r.Keys == owner.Keys + Elements(order)
    && forall p :: p in r ==> r[p] == if p in order then n else owner[p]
  }

  /** `owner` with every point of `order` assigned to region `n`. */
  ghost function Assign(owner: map<Point, nat>, order: seq<Point>, n: nat): (r: map<Point, nat>)
    ensures Assigned(owner, order, n, r)
  {
    if order == [] then owner
    else
      var init := order[..|order| - 1];
      assert order == init + [order[|order| - 1]];
      Assign(owner, init, n)[order[|order| - 1] := n]
  }

  /** Every point of the regions, old and new, belongs to its own region. */
  lemma AddRegionOwners(cells: seq<seq<Point>>, owner: map<Point, nat>, visited: set<Point>, order: seq<Point>,
                        cells': seq<seq<Point>>, owner': map<Point, nat>)
    requires visited == owner.Keys
    requires forall i, p :: 0 <= i < |cells| && p in cells[i] ==> p in owner && owner[p] == i
    requires forall k :: 0 <= k < |order| ==> order[k] !in visited
    requires cells' == cells + [order] && Assigned(owner, order, |cells|, owner')
    ensures forall i, p :: 0 <= i < |cells'| && p in cells'[i] ==> p in owner' && owner'[p] == i
  {
    forall i, p | 0 <= i < |cells'| && p in cells'[i]
      ensures p in owner' && owner'[p] == i
    {
      if i < |cells| {
        assert cells'[i] == cells[i];
        assert p in owner && owner[p] == i;
        assert p !in order;
      } else {
        assert p in Elements(order);
      }
    }
  }

  /** Every owned point, old or new, is a matching point of the region it
      is assigned to. */
  lemma AddRegionKeys(w: nat, h: nat, matches: Point -> bool, visited: set<Point>,
                      cells: seq<seq<Point>>, owner: map<Point, nat>, order: seq<Point>,
                      cells': seq<seq<Point>>, owner': map<Point, nat>)
    requires visited == owner.Keys
    requires forall p :: p in owner ==> InBounds(w, h, p) && matches(p) && owner[p] < |cells| && p in cells[owner[p]]
    requires forall k :: 0 <= k < |order| ==> InBounds(w, h, order[k]) && matches(order[k])
    requires cells' == cells + [order] && Assigned(owner, order, |cells|, owner')
    ensures visited + Elements(order) == owner'.Keys
    ensures forall p :: p in owner' ==> InBounds(w, h, p) && matches(p) && owner'[p] < |cells'| && p in cells'[owner'[p]]
  {
    forall p | p in owner'
      ensures InBounds(w, h, p) && matches(p) && owner'[p] < |cells'| && p in cells'[owner'[p]]
    {
      if p in order {
        var k :| 0 <= k < |order| && order[k] == p;
      } else {
        assert cells'[owner[p]] == cells[owner[p]];
      }
    }
  }

  /** Every region, old or new, is a blob with its own summary. */
  lemma AddRegionBlobs(w: nat, h: nat, matches: Point -> bool, blobs: seq<Blob>, cells: seq<seq<Point>>,
                       parents: seq<seq<nat>>, order: seq<Point>, parent: seq<nat>)
    requires |cells| == |blobs| == |parents|
    requires forall i :: 0 <= i < |cells| ==> IsBlob(w, h, matches, cells[i], parents[i]) && blobs[i] == Summary(cells[i])
    requires IsBlob(w, h, matches, order, parent)
    ensures var cells', parents', blobs' := cells + [order], parents + [parent], blobs + [Summary(order)];
      forall i :: 0 <= i < |cells'| ==> IsBlob(w, h, matches, cells'[i], parents'[i]) && blobs'[i] == Summary(cells'[i])
  {
    var cells', parents', blobs' := cells + [order], parents + [parent], blobs + [Summary(order)];
    forall i | 0 <= i < |cells'|
      ensures IsBlob(w, h, matches, cells'[i], parents'[i]) && blobs'[i] == Summary(cells'[i])
    {
      if i < |cells| {
        assert cells'[i] == cells[i] && parents'[i] == parents[i] && blobs'[i] == blobs[i];
      }
    }
  }

  /** A finished search from an unvisited matching point adds one more blob. */
  lemma AddRegion(w: nat, h: nat, matches: Point -> bool, visited: set<Point>, blobs: seq<Blob>,
                  cells: seq<seq<Point>>, parents: seq<seq<nat>>, owner: map<Point, nat>,
                  order: seq<Point>, parent: seq<nat>)
    requires Partition(w, h, matches, visited, blobs, cells, parents, owner)
    requires IsBlob(w, h, matches, order, parent)
    requires forall k :: 0 <= k < |order| ==> order[k] !in visited
    ensures Partition(w, h, matches, visited + Elements(order), blobs + [Summary(order)], cells + [order],
                      parents + [parent], Assign(owner, order, |cells|))
  {
    var n := |cells|;
    var cells': seq<seq<Point>>, owner': map<Point, nat> := cells + [order], Assign(owner, order, n);
    var blobs', parents' := blobs + [Summary(order)], parents + [parent];
    AddRegionOwners(cells, owner, visited, order, cells', owner');
    AddRegionKeys(w, h, matches, visited, cells, owner, order, cells', owner');
    AddRegionBlobs(w, h, matches, blobs, cells, parents, order, parent);
    PartitionIntro(w, h, matches, visited + Elements(order), blobs', cells', parents', owner');
  }

  lemma PartitionIntro(w: nat, h: nat, matches: Point -> bool, visited: set<Point>, blobs: seq<Blob>,
                       cells: seq<seq<Point>>, parents: seq<seq<nat>>, owner: map<Point, nat>)
    requires |cells| == |blobs| == |parents|
    requires visited == owner.Keys
    requires forall p :: p in owner ==> InBounds(w, h, p) && matches(p) && owner[p] < |cells| && p in cells[owner[p]]
    requires forall i, p :: 0 <= i < |cells| && p in cells[i] ==> p in owner && owner[p] == i
    requires forall i :: 0 <= i < |cells| ==> IsBlob(w, h, matches, cells[i], parents[i]) && blobs[i] == Summary(cells[i])
    ensures Partition(w, h, matches, visited, blobs, cells, parents, owner)
  {
  }

  /** What the scan has established when it reaches `cursor`: every
      matching point before it is visited, every region so far was started
      before it, regions were started in scan order, and each region's
      first point is its earliest point in scan order. */
  ghost predicate ScanOrder(w: nat, h: nat, matches: Point -> bool, visited: set<Point>,
                            blobs: seq<Blob>, cells: seq<seq<Point>>, cursor: Point)
    requires |blobs| == |cells|
  {
    && (forall p :: InBounds(w, h, p) && RowMajorBefore(p, cursor) && matches(p) ==> p in visited)
    && (forall i :: 0 <= i < |blobs| ==> RowMajorBefore(blobs[i].seed, cursor))
    && (forall i, j :: 0 <= i < j < |blobs| ==> RowMajorBefore(blobs[i].seed, blobs[j].seed))
    && (forall i, k :: 0 <= i < |cells| && 0 <= k < |cells[i]| ==> !RowMajorBefore(cells[i][k], blobs[i].seed))
  }

  /** The scan moves past a point that starts no region. */
  lemma ScanSkip(w: nat, h: nat, matches: Point -> bool, visited: set<Point>,
                 blobs: seq<Blob>, cells: seq<seq<Point>>, x: int, y: int)
    requires |blobs| == |cells|
    requires ScanOrder(w, h, matches, visited, blobs, cells, Point(x, y))
    requires Point(x, y) in visited || !matches(Point(x, y))
    ensures ScanOrder(w, h, matches, visited, blobs, cells, Point(x + 1, y))
  {
  }

  /** The scan moves past a point that starts a new region `order`. */
  lemma ScanAdd(w: nat, h: nat, matches: Point -> bool, visited: set<Point>,
                blobs: seq<Blob>, cells: seq<seq<Point>>, x: int, y: int, order: seq<Point>, b: Blob)
    requires |blobs| == |cells|
    requires ScanOrder(w, h, matches, visited, blobs, cells, Point(x, y))
    requires b.seed == Point(x, y) && |order| > 0 && order[0] == b.seed
    requires forall k :: 0 <= k < |order| ==> InBounds(w, h, order[k]) && matches(order[k]) && order[k] !in visited
    ensures ScanOrder(w, h, matches, visited + Elements(order), blobs + [b], cells + [order], Point(x + 1, y))
  {
    var cells' := cells + [order];
    var blobs' := blobs + [b];
    forall i, k | 0 <= i < |cells'| && 0 <= k < |cells'[i]|
      ensures !RowMajorBefore(cells'[i][k], blobs'[i].seed)
    {
      if i < |cells| {
        assert cells'[i] == cells[i] && blobs'[i] == blobs[i];
      }
    }
    assert order[0] in Elements(order);
  }

  /** One step of the scan, at point (x, y). */
  method ScanPoint(w: nat, h: nat, matches: Point -> bool, x: nat, y: nat, visited: set<Point>, blobs: seq<Blob>,
                   ghost cells: seq<seq<Point>>, ghost parents: seq<seq<nat>>, ghost owner: map<Point, nat>)
    returns (visited': set<Point>, blobs': seq<Blob>,
             ghost cells': seq<seq<Point>>, ghost parents': seq<seq<nat>>, ghost owner': map<Point, nat>)
    requires x < w && y < h
    requires Partition(w, h, matches, visited, blobs, cells, parents, owner)
    requires ScanOrder(w, h, matches, visited, blobs, cells, Point(x, y))
    ensures Partition(w, h, matches, visited', blobs', cells', parents', owner')
    ensures ScanOrder(w, h, matches, visited', blobs', cells', Point(x + 1, y))
  {
    var seed := Point(x, y);
    if seed !in visited && matches(seed) {
      var v, order, sumX, sumY, parent := Flood(w, h, matches, seed, visited);
      NewRegionClosed(w, h, matches, visited, blobs, cells, parents, owner, order);
      AddRegion(w, h, matches, visited, blobs, cells, parents, owner, order, parent);
      ScanAdd(w, h, matches, visited, blobs, cells, x, y, order, Blob(seed, |order|, sumX, sumY));
      owner' := Assign(owner, order, |cells|);
      blobs' := blobs + [Blob(seed, |order|, sumX, sumY)];
      cells' := cells + [order];
      parents' := parents + [parent];
      visited' := v;
    } else {
      ScanSkip(w, h, matches, visited, blobs, cells, x, y);
      visited', blobs', cells', parents', owner' := visited, blobs, cells, parents, owner;
    }
  }

  lemma NextRow(w: nat, h: nat, matches: Point -> bool, visited: set<Point>,
                blobs: seq<Blob>, cells: seq<seq<Point>>, y: nat)
    requires |blobs| == |cells|
    requires ScanOrder(w, h, matches, visited, blobs, cells, Point(w, y))
    ensures ScanOrder(w, h, matches, visited, blobs, cells, Point(0, y + 1))
  {
  }

  /** Every region is found: the scan visits every point in row-major order
      and floods from each matching point not yet visited. The regions it
      reports partition the matching pixels, each is a maximal 4-connected
      set, each is reported with its first pixel in scan order, and the
      reports come in scan order. */
  method FindBlobs(w: nat, h: nat, matches: Point -> bool)
    returns (blobs: seq<Blob>, ghost cells: seq<seq<Point>>, ghost parents: seq<seq<nat>>, ghost owner: map<Point, nat>)
    ensures Scanned(w, h, matches, blobs, cells, parents, owner)
    ensures |blobs| == 0 <==> forall p :: InBounds(w, h, p) ==> !matches(p)
    ensures Detection(w, h, matches, blobs)
  {
    var visited: set<Point> := {};
    blobs, cells, parents, owner := [], [], [], map[];
    var y := 0;
    while y < h
      invariant 0 <= y <= h
      invariant Partition(w, h, matches, visited, blobs, cells, parents, owner)
      invariant ScanOrder(w, h, matches, visited, blobs, cells, Point(0, y))
    {
      var x := 0;
      while x < w
        invariant 0 <= x <= w
        invariant Partition(w, h, matches, visited, blobs, cells, parents, owner)
        invariant ScanOrder(w, h, matches, visited, blobs, cells, Point(x, y))
      {
        visited, blobs, cells, parents, owner := ScanPoint(w, h, matches, x, y, visited, blobs, cells, parents, owner);
        x := x + 1;
      }
      NextRow(w, h, matches, visited, blobs, cells, y);
      y := y + 1;
    }
    ScanComplete(w, h, matches, visited, blobs, cells, parents, owner);
    DetectedNone(w, h, matches, blobs);
  }

  /** Once the cursor has passed the last row, the partition is complete. */
  lemma ScanComplete(w: nat, h: nat, matches: Point -> bool, visited: set<Point>, blobs: seq<Blob>,
                     cells: seq<seq<Point>>, parents: seq<seq<nat>>, owner: map<Point, nat>)
    requires Partition(w, h, matches, visited, blobs, cells, parents, owner)
    requires ScanOrder(w, h, matches, visited, blobs, cells, Point(0, h))
    ensures Scanned(w, h, matches, blobs, cells, parents, owner)
  {
  }

  /** The facts a finished scan establishes about its reports, with the
      regions, spanning witnesses and owner map as evidence. */
  ghost predicate Scanned(w: nat, h: nat, matches: Point -> bool, blobs: seq<Blob>,
                          cells: seq<seq<Point>>, parents: seq<seq<nat>>, owner: map<Point, nat>)
  {
    && |blobs| == |cells| == |parents|
    && (forall i :: 0 <= i < |blobs| ==> IsBlob(w, h, matches, cells[i], parents[i]) && blobs[i] == Summary(cells[i]))
    && (forall p :: p in owner <==> InBounds(w, h, p) && matches(p))
    && (forall p :: p in owner ==> owner[p] < |cells| && p in cells[owner[p]])
    && (forall i, p :: 0 <= i < |cells| && p in cells[i] ==> p in owner && owner[p] == i)
    && (forall i, j :: 0 <= i < j < |blobs| ==> RowMajorBefore(blobs[i].seed, blobs[j].seed))
    && (forall i, k :: 0 <= i < |cells| && 0 <= k < |cells[i]| ==> !RowMajorBefore(cells[i][k], blobs[i].seed))
  }

  /** `blobs` is what the scan reports for `matches` on a `w` by `h` grid:
      one summary per maximal 4-connected region of matching points, in
      scan order of the regions' first points. */
  ghost predicate Detection(w: nat, h: nat, matches: Point -> bool, blobs: seq<Blob>) {
    exists cells: seq<seq<Point>>, parents: seq<seq<nat>>, owner: map<Point, nat> ::
      Scanned(w, h, matches, blobs, cells, parents, owner)
  }

  /** Every reported region is non-empty and its centre of mass lies on the grid. */
  lemma DetectedCentroids(w: nat, h: nat, matches: Point -> bool, blobs: seq<Blob>)
    requires Detection(w, h, matches, blobs)
    ensures forall i :: 0 <= i < |blobs| ==> blobs[i].count > 0 && InBounds(w, h, Centroid(blobs[i]))
  {
    var cells, parents, owner :| Scanned(w, h, matches, blobs, cells, parents, owner);
    forall i | 0 <= i < |blobs|
      ensures blobs[i].count > 0 && InBounds(w, h, Centroid(blobs[i]))
    {
      assert IsBlob(w, h, matches, cells[i], parents[i]);
      CentroidInBounds(w, h, cells[i]);
    }
  }

  /** Nothing is reported exactly when no point of the grid matches. */
  lemma DetectedNone(w: nat, h: nat, matches: Point -> bool, blobs: seq<Blob>)
    requires Detection(w, h, matches, blobs)
    ensures |blobs| == 0 <==> forall p :: InBounds(w, h, p) ==> !matches(p)
  {
    var cells, parents, owner :| Scanned(w, h, matches, blobs, cells, parents, owner);
    if |blobs| > 0 {
      assert IsBlob(w, h, matches, cells[0], parents[0]);
      assert InBounds(w, h, cells[0][0]) && matches(cells[0][0]);
    }
  }

  /** The scan as the checks use it: the regions' summaries alone, with
      what they guarantee about the marks drawn from them. */
  method DetectRegions(w: nat, h: nat, matches: Point -> bool) returns (blobs: seq<Blob>)
    ensures Detection(w, h, matches, blobs)
    ensures forall i :: 0 <= i < |blobs| ==> blobs[i].count > 0 && InBounds(w, h, Centroid(blobs[i]))
    ensures |blobs| == 0 <==> forall p :: InBounds(w, h, p) ==> !matches(p)
  {
    ghost var cells, parents, owner;
    blobs, cells, parents, owner := FindBlobs(w, h, matches);
    DetectedCentroids(w, h, matches, blobs);
  }
}
