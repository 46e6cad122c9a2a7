/**
 * The closed-region finder (class ClosedRegionBuilder of ImageClosedRegionDetector): builds a
 * 0/1 mask from the red channel of a bitmap, lets FindContours stamp the borders of the
 * foreground, collects every 8-connected component of background cells with an explicit-stack
 * flood fill, takes the bounding box of each component, drops the thin ones and then collapses
 * boxes that contain one another.
 *
 * Grids are indexed row first: the cell of point (x, y) is m[y][x], as in the source's map[y][x].
 */
module ClosedRegions {
  import opened BorderTracing

  /** A pixel position (the source's _Point). */
  datatype Point = Point(x: int, y: int)

  /** A rectangle by its four edges (the source's _Rect). */
  datatype Rect = Rect(left: int, top: int, right: int, bottom: int) {
    function Width(): int { right - left }
    function Height(): int { bottom - top }
  }

  /** The point lies inside a width × height bitmap. */
  predicate InGrid(p: Point, width: int, height: int) {
    0 <= p.x < width && 0 <= p.y < height
  }

  /** Two distinct points touch horizontally, vertically or diagonally. */
  predicate Adjacent(p: Point, q: Point) {
    p != q && -1 <= p.x - q.x <= 1 && -1 <= p.y - q.y <= 1
  }

  /** A height × width grid value, indexed m[y][x]. */
  predicate IsMap(m: seq<seq<int>>, width: int, height: int) {
    width >= 0 && IsGrid(m, width) && |m| == height
  }

  /** The value of the cell of `p`. */
  function CellOf(m: seq<seq<int>>, p: Point): int
    requires 0 <= p.y < |m| && 0 <= p.x < |m[p.y]|
  {
    m[p.y][p.x]
  }

  // ---------------------------------------------------------------------------
  // 8-connected components of zero cells
  // ---------------------------------------------------------------------------

  /** `path` is a walk through adjacent in-grid cells that all hold 0. */
  predicate ZeroPath(m: seq<seq<int>>, width: int, height: int, path: seq<Point>)
    requires IsMap(m, width, height)
  {
    && |path| >= 1
    && (forall k :: 0 <= k < |path| ==> InGrid(path[k], width, height) && CellOf(m, path[k]) == 0)
    && (forall k :: 0 <= k < |path| - 1 ==> Adjacent(path[k], path[k + 1]))
  }

  /** `t` lies in the 8-connected component of zero cells that contains `s`. */
  ghost predicate Connected(m: seq<seq<int>>, width: int, height: int, s: Point, t: Point)
    requires IsMap(m, width, height)
  {
    exists path :: ZeroPath(m, width, height, path) && path[0] == s && path[|path| - 1] == t
  }

  /** Every cell of the bitmap. */
  function AllCells(width: int, height: int): set<Point> {
    set x, y | 0 <= x < width && 0 <= y < height :: Point(x, y)
  }

  /** The points a popped cell pushes, in the source's order: the in-grid ones of its eight neighbours. */
  function Pushes(c: Point, width: int, height: int): seq<Point> {
    (if c.x > 0 && c.y > 0 then [Point(c.x - 1, c.y - 1)] else [])
    + (if c.y > 0 then [Point(c.x, c.y - 1)] else [])
    + (if c.x < width - 1 && c.y > 0 then [Point(c.x + 1, c.y - 1)] else [])
    + (if c.x > 0 then [Point(c.x - 1, c.y)] else [])
    + (if c.x < width - 1 then [Point(c.x + 1, c.y)] else [])
    + (if c.x > 0 && c.y < height - 1 then [Point(c.x - 1, c.y + 1)] else [])
    + (if c.y < height - 1 then [Point(c.x, c.y + 1)] else [])
    + (if c.x < width - 1 && c.y < height - 1 then [Point(c.x + 1, c.y + 1)] else [])
  }

  /** An in-grid cell pushes exactly its in-grid neighbours. */
  lemma PushesNeighbours(c: Point, width: int, height: int, n: Point)
    requires InGrid(c, width, height)
    ensures n in Pushes(c, width, height) <==> InGrid(n, width, height) && Adjacent(c, n)
  {
  }

  /** `p` is the seed or a neighbour of a collected cell. */
  ghost predicate Reached(seed: Point, contour: seq<Point>, p: Point) {
    p == seed || exists j :: 0 <= j < |contour| && Adjacent(contour[j], p)
  }

  /** Every stacked point is in the grid and was pushed as the seed or by a collected cell. */
  ghost predicate StackOk(width: int, height: int, seed: Point, stack: seq<Point>, contour: seq<Point>) {
    forall k :: 0 <= k < |stack| ==> InGrid(stack[k], width, height) && Reached(seed, contour, stack[k])
  }

  /** Each collected cell is reached from the seed by its zero walk in `paths`. */
  predicate Walks(m: seq<seq<int>>, width: int, height: int, seed: Point, contour: seq<Point>, paths: seq<seq<Point>>)
    requires IsMap(m, width, height)
  {
    && |paths| == |contour|
    && forall k :: 0 <= k < |contour| ==>
         ZeroPath(m, width, height, paths[k]) && paths[k][0] == seed && paths[k][|paths[k]| - 1] == contour[k]
  }

  /** No point occurs twice. */
  predicate Distinct(s: seq<Point>) {
    forall a, b :: 0 <= a < b < |s| ==> s[a] != s[b]
  }

  /** Every in-grid neighbour of a collected cell, and the seed, is collected, non-zero or still stacked. */
  ghost predicate Frontier(m: seq<seq<int>>, width: int, height: int, seed: Point, stack: seq<Point>, contour: seq<Point>)
    requires IsMap(m, width, height) && InGrid(seed, width, height)
  {
    && (forall k, n :: 0 <= k < |contour| && InGrid(n, width, height) && Adjacent(contour[k], n) ==>
          n in contour || CellOf(m, n) != 0 || n in stack)
    && (seed in contour || CellOf(m, seed) != 0 || seed in stack)
  }

  /** The flood fill's state over the grid `m` it started on. */
  ghost predicate FillState(m: seq<seq<int>>, width: int, height: int, seed: Point,
                      stack: seq<Point>, contour: seq<Point>, paths: seq<seq<Point>>)
  {
    && IsMap(m, width, height) && InGrid(seed, width, height)
    && StackOk(width, height, seed, stack, contour)
    && Walks(m, width, height, seed, contour, paths)
    && Distinct(contour)
    && Frontier(m, width, height, seed, stack, contour)
  }

  /** The flood fill starts with the seed alone on the stack. */
  lemma FillStart(m: seq<seq<int>>, width: int, height: int, seed: Point)
    requires IsMap(m, width, height) && InGrid(seed, width, height)
    ensures FillState(m, width, height, seed, [seed], [], [])
  {
  }

  /** An element of `s` other than its last is an element of `s` without its last. */
  lemma InFront(s: seq<Point>, n: Point)
    requires |s| > 0 && n in s && n != s[|s| - 1]
    ensures n in s[..|s| - 1]
  {
    var i :| 0 <= i < |s| && s[i] == n;
    assert s[..|s| - 1][i] == n;
  }

  /** Popping a point that is already collected or not zero changes nothing else. */
  lemma FillSkip(m: seq<seq<int>>, width: int, height: int, seed: Point,
                 stack: seq<Point>, contour: seq<Point>, paths: seq<seq<Point>>)
    requires FillState(m, width, height, seed, stack, contour, paths) && |stack| > 0
    requires stack[|stack| - 1] in contour || CellOf(m, stack[|stack| - 1]) != 0
    ensures FillState(m, width, height, seed, stack[..|stack| - 1], contour, paths)
  {
    var s := stack[..|stack| - 1];
    forall k, n | 0 <= k < |contour| && InGrid(n, width, height) && Adjacent(contour[k], n)
      ensures n in contour || CellOf(m, n) != 0 || n in s
    {
      if n != stack[|stack| - 1] && n in stack {
        InFront(stack, n);
      }
    }
    if seed != stack[|stack| - 1] && seed in stack {
      InFront(stack, seed);
    }
  }

  /** Collecting `c` keeps every point reached. */
  lemma ReachedSnoc(seed: Point, contour: seq<Point>, c: Point, p: Point)
    requires Reached(seed, contour, p)
    ensures Reached(seed, contour + [c], p)
  {
    if p != seed {
      var j :| 0 <= j < |contour| && Adjacent(contour[j], p);
      assert (contour + [c])[j] == contour[j];
    }
  }

  /** The stack after collecting its top `c` and pushing `pushed`, neighbours of `c` in the grid. */
  lemma TakeStack(width: int, height: int, seed: Point, stack: seq<Point>, contour: seq<Point>, pushed: seq<Point>)
    requires StackOk(width, height, seed, stack, contour) && |stack| > 0
    requires forall i :: 0 <= i < |pushed| ==> InGrid(pushed[i], width, height) && Adjacent(stack[|stack| - 1], pushed[i])
    ensures StackOk(width, height, seed, stack[..|stack| - 1] + pushed, contour + [stack[|stack| - 1]])
  {
    var c := stack[|stack| - 1];
    var s := stack[..|stack| - 1] + pushed;
    var ct := contour + [c];
    forall k | 0 <= k < |s|
      ensures InGrid(s[k], width, height) && Reached(seed, ct, s[k])
    {
      if k < |stack| - 1 {
        assert s[k] == stack[k];
        ReachedSnoc(seed, contour, c, s[k]);
      } else {
        assert s[k] == pushed[k - (|stack| - 1)] && ct[|contour|] == c;
      }
    }
  }

  /** The walk to a newly collected cell: the seed itself, or the walk to the cell it was pushed from, one step further. */
  lemma TakeWalk(m: seq<seq<int>>, width: int, height: int, seed: Point,
                 stack: seq<Point>, contour: seq<Point>, paths: seq<seq<Point>>)
      returns (path: seq<Point>)
    requires FillState(m, width, height, seed, stack, contour, paths) && |stack| > 0
    requires CellOf(m, stack[|stack| - 1]) == 0
    ensures Walks(m, width, height, seed, contour + [stack[|stack| - 1]], paths + [path])
  {
    var c := stack[|stack| - 1];
    if c == seed {
      path := [seed];
    } else {
      var j :| 0 <= j < |contour| && Adjacent(contour[j], c);
      path := paths[j] + [c];
      assert ZeroPath(m, width, height, paths[j]);
    }
  }

  /** The frontier after collecting the stack's top `c` and pushing its neighbours. */
  lemma TakeFrontier(m: seq<seq<int>>, width: int, height: int, seed: Point, stack: seq<Point>, contour: seq<Point>)
    requires IsMap(m, width, height) && InGrid(seed, width, height) && |stack| > 0
    requires InGrid(stack[|stack| - 1], width, height) && Frontier(m, width, height, seed, stack, contour)
    ensures Frontier(m, width, height, seed, stack[..|stack| - 1] + Pushes(stack[|stack| - 1], width, height),
                     contour + [stack[|stack| - 1]])
  {
    var c := stack[|stack| - 1];
    var s := stack[..|stack| - 1] + Pushes(c, width, height);
    var ct := contour + [c];
    forall k, n | 0 <= k < |ct| && InGrid(n, width, height) && Adjacent(ct[k], n)
      ensures n in ct || CellOf(m, n) != 0 || n in s
    {
      if k == |contour| {
        PushesNeighbours(c, width, height, n);
      } else if n != c && n in stack {
        InFront(stack, n);
      }
    }
    if seed != c && seed in stack {
      InFront(stack, seed);
    }
  }

  /**
   * Popping a zero point not yet collected collects it, with a zero walk that extends the walk
   * to the cell it was pushed from, and stacks its in-grid neighbours.
   */
  lemma FillTake(m: seq<seq<int>>, width: int, height: int, seed: Point,
                 stack: seq<Point>, contour: seq<Point>, paths: seq<seq<Point>>)
      returns (path: seq<Point>)
    requires FillState(m, width, height, seed, stack, contour, paths) && |stack| > 0
    requires stack[|stack| - 1] !in contour && CellOf(m, stack[|stack| - 1]) == 0
    ensures FillState(m, width, height, seed,
                      stack[..|stack| - 1] + Pushes(stack[|stack| - 1], width, height),
                      contour + [stack[|stack| - 1]], paths + [path])
  {
    var c := stack[|stack| - 1];
    var pushed := Pushes(c, width, height);
    forall i | 0 <= i < |pushed| ensures InGrid(pushed[i], width, height) && Adjacent(c, pushed[i]) {
      PushesNeighbours(c, width, height, pushed[i]);
    }
    TakeStack(width, height, seed, stack, contour, pushed);
    path := TakeWalk(m, width, height, seed, stack, contour, paths);
    TakeFrontier(m, width, height, seed, stack, contour);
  }

  /** When the stack is empty, every zero walk from the seed ends at a collected cell. */
  lemma {:induction false} FillDone(m: seq<seq<int>>, width: int, height: int, seed: Point,
                                    contour: seq<Point>, paths: seq<seq<Point>>, path: seq<Point>)
    requires FillState(m, width, height, seed, [], contour, paths)
    requires ZeroPath(m, width, height, path) && path[0] == seed
    ensures path[|path| - 1] in contour
    decreases |path|
  {
    if |path| > 1 {
      var prefix := path[..|path| - 1];
      assert ZeroPath(m, width, height, prefix) by {
        forall k | 0 <= k < |prefix| - 1 ensures Adjacent(prefix[k], prefix[k + 1]) {
          assert prefix[k] == path[k] && prefix[k + 1] == path[k + 1];
        }
      }
      FillDone(m, width, height, seed, contour, paths, prefix);
      var i :| 0 <= i < |contour| && contour[i] == prefix[|prefix| - 1];
      assert Adjacent(contour[i], path[|path| - 1]);
    }
  }

  /** A finished flood fill has collected exactly the component of the seed. */
  lemma FillResult(m: seq<seq<int>>, width: int, height: int, seed: Point, contour: seq<Point>, paths: seq<seq<Point>>)
    requires FillState(m, width, height, seed, [], contour, paths)
    ensures forall c :: c in contour ==> Connected(m, width, height, seed, c)
    ensures forall c :: Connected(m, width, height, seed, c) ==> c in contour
  {
    forall c | c in contour ensures Connected(m, width, height, seed, c) {
      var k :| 0 <= k < |contour| && contour[k] == c;
      assert ZeroPath(m, width, height, paths[k]);
    }
    forall c | Connected(m, width, height, seed, c) ensures c in contour {
      var path :| ZeroPath(m, width, height, path) && path[0] == seed && path[|path| - 1] == c;
      FillDone(m, width, height, seed, contour, paths, path);
    }
  }

  /** Every cell of `grid` holds -1 when its point is in `marked`, and its value in `g0` otherwise. */
  ghost predicate Marked(grid: array2<int>, g0: seq<seq<int>>, marked: set<Point>)
    reads grid
  {
    && |g0| == grid.Length0 && IsGrid(g0, grid.Length1)
    && forall i, j :: 0 <= i < grid.Length0 && 0 <= j < grid.Length1 ==>
         grid[i, j] == if Point(j, i) in marked then -1 else g0[i][j]
  }

  /** The loop state of FindContour, over the original whole array `g0` and its region `m0`. */
  ghost predicate Filling(grid: array2<int>, g0: seq<seq<int>>, m0: seq<seq<int>>, width: int, height: int, seed: Point,
                          stack: seq<Point>, contour: seq<Point>, paths: seq<seq<Point>>, collected: set<Point>)
    reads grid
  {
    && FillState(m0, width, height, seed, stack, contour, paths)
    && width <= grid.Length1 && height <= grid.Length0 && Marked(grid, g0, collected)
    && (forall i, j :: 0 <= i < height && 0 <= j < width ==> m0[i][j] == g0[i][j])
    && collected <= AllCells(width, height) && (forall c :: c in contour <==> c in collected)
    && (contour == [] ==> stack == [seed] || stack == [])
    && (contour != [] ==> contour[0] == seed)
  }

  /** One pass of FindContour's loop: pops the top point and, when it holds 0, collects and marks it and pushes its neighbours. */
  method FillStep(grid: array2<int>, width: int, height: int, ghost g0: seq<seq<int>>, ghost m0: seq<seq<int>>, seed: Point,
                  stack: seq<Point>, contour: seq<Point>, ghost paths: seq<seq<Point>>, ghost collected: set<Point>)
      returns (stack': seq<Point>, contour': seq<Point>, ghost paths': seq<seq<Point>>, ghost collected': set<Point>)
    requires Filling(grid, g0, m0, width, height, seed, stack, contour, paths, collected) && |stack| > 0
    modifies grid
    ensures Filling(grid, g0, m0, width, height, seed, stack', contour', paths', collected')
    ensures (collected <= collected' && collected' != collected) || (collected' == collected && |stack'| < |stack|)
  {
    var current := stack[|stack| - 1];
    stack' := stack[..|stack| - 1];
    var cx, cy := current.x, current.y;
    assert CellOf(m0, current) == grid[cy, cx] || current in collected;
    if grid[cy, cx] == 0 {
      ghost var path := FillTake(m0, width, height, seed, stack, contour, paths);
      paths' := paths + [path];
      contour' := contour + [current];
      collected' := collected + {current};
      grid[cy, cx] := -1;
      stack' := stack' + Pushes(current, width, height);
    } else {
      FillSkip(m0, width, height, seed, stack, contour, paths);
      contour', paths', collected' := contour, paths, collected;
    }
  }

  /**
   * FindContour: flood-fills from (x, y) with an explicit stack; a popped point that holds 0 is
   * collected and set to -1, and pushes its in-grid neighbours. It returns exactly the
   * 8-connected component of zero cells containing the seed (empty when the seed is not 0),
   * seed first, each cell once, and marks exactly those cells.
   */
  method FindContour(grid: array2<int>, x: int, y: int, width: int, height: int)
      returns (contour: seq<Point>, ghost paths: seq<seq<Point>>)
    requires 0 <= x < width <= grid.Length1 && 0 <= y < height <= grid.Length0
    modifies grid
    ensures forall c :: c in contour ==> Connected(old(Region(grid, height, width)), width, height, Point(x, y), c)
    ensures forall c :: Connected(old(Region(grid, height, width)), width, height, Point(x, y), c) ==> c in contour
    ensures forall a, b :: 0 <= a < b < |contour| ==> contour[a] != contour[b]
    ensures contour != [] ==> contour[0] == Point(x, y)
    ensures FillState(old(Region(grid, height, width)), width, height, Point(x, y), [], contour, paths)
    ensures forall i, j :: 0 <= i < grid.Length0 && 0 <= j < grid.Length1 ==>
              grid[i, j] == if Point(j, i) in contour then -1 else old(grid[i, j])
  {
    ghost var g0 := Region(grid, grid.Length0, grid.Length1);
    ghost var m0 := Region(grid, height, width);
    var seed := Point(x, y);
    var stack := [seed];
    paths := [];
    contour := [];
    ghost var collected: set<Point> := {};
    FillStart(m0, width, height, seed);
    while |stack| > 0
      invariant Filling(grid, g0, m0, width, height, seed, stack, contour, paths, collected)
      decreases AllCells(width, height) - collected, |stack|
    {
      stack, contour, paths, collected := FillStep(grid, width, height, g0, m0, seed, stack, contour, paths, collected);
    }
    FillResult(m0, width, height, seed, contour, paths);
  }

  // ---------------------------------------------------------------------------
  // The extraction loop of Build
  // ---------------------------------------------------------------------------

  /** Every zero cell of `m` is a zero cell of `m2`. */
  predicate ZerosWithin(m: seq<seq<int>>, m2: seq<seq<int>>, width: int, height: int)
    requires IsMap(m, width, height) && IsMap(m2, width, height)
  {
    forall i, j :: 0 <= i < height && 0 <= j < width && m[i][j] == 0 ==> m2[i][j] == 0
  }

  /** More zero cells can only join components. */
  lemma ConnectedWithin(m: seq<seq<int>>, m2: seq<seq<int>>, width: int, height: int, s: Point, t: Point)
    requires IsMap(m, width, height) && IsMap(m2, width, height) && ZerosWithin(m, m2, width, height)
    requires Connected(m, width, height, s, t)
    ensures Connected(m2, width, height, s, t)
  {
    var path :| ZeroPath(m, width, height, path) && path[0] == s && path[|path| - 1] == t;
    assert ZeroPath(m2, width, height, path) by {
      forall k | 0 <= k < |path| ensures CellOf(m2, path[k]) == 0 {
        assert CellOf(m, path[k]) == 0;
      }
    }
  }

  /** The points of all regions. */
  ghost function Union(regions: seq<seq<Point>>): set<Point> {
    set k, p | 0 <= k < |regions| && p in regions[k] :: p
  }

  /** Raster order of the extraction loop: row by row, left to right. */
  predicate Earlier(p: Point, q: Point) {
    p.y < q.y || (p.y == q.y && p.x < q.x)
  }

  /**
   * `r` is a finished flood fill from its first point, with the zero walks `walks` to its
   * cells, and that point is its raster-first cell.
   */
  ghost predicate Filled(m: seq<seq<int>>, width: int, height: int, r: seq<Point>, walks: seq<seq<Point>>) {
    && |r| > 0 && FillState(m, width, height, r[0], [], r, walks)
    && (forall p :: p in r ==> InGrid(p, width, height) && CellOf(m, p) == 0 && !Earlier(p, r[0]))
  }

  /**
   * Region `k` of `regions` is a finished flood fill. Quantified over `k` in Extracted, it is
   * the trigger there, so the facts about one region come into play only where it is named.
   */
  ghost predicate RegionOk(m: seq<seq<int>>, width: int, height: int, regions: seq<seq<Point>>,
                           walks: seq<seq<seq<Point>>>, k: int) {
    0 <= k < |regions| && k < |walks| ==> Filled(m, width, height, regions[k], walks[k])
  }

  /**
   * The regions found on `m` before raster position `q`: each is a finished flood fill; they
   * are disjoint and listed in the raster order of their first points, which come before `q`;
   * every zero cell before `q` is in one of them.
   */
  ghost predicate Extracted(m: seq<seq<int>>, width: int, height: int, regions: seq<seq<Point>>,
                            walks: seq<seq<seq<Point>>>, q: Point) {
    && IsMap(m, width, height) && |walks| == |regions|
    && (forall k :: RegionOk(m, width, height, regions, walks, k))
    && (forall k :: 0 <= k < |regions| ==> |regions[k]| > 0 && Earlier(regions[k][0], q))
    && (forall a, b :: 0 <= a < b < |regions| ==> Earlier(regions[a][0], regions[b][0]))
    && (forall a, b, p :: 0 <= a < b < |regions| && p in regions[a] ==> p !in regions[b])
    && (forall p :: InGrid(p, width, height) && Earlier(p, q) && CellOf(m, p) == 0 ==> p in Union(regions))
  }

  /** Appending a region adds its points to the union. */
  lemma UnionSnoc(regions: seq<seq<Point>>, r: seq<Point>)
    ensures forall p :: p in Union(regions + [r]) <==> p in Union(regions) || p in r
  {
    var ext := regions + [r];
    forall p | p in Union(regions) ensures p in Union(ext) {
      var k :| 0 <= k < |regions| && p in regions[k];
      assert ext[k] == regions[k];
    }
    forall p | p in r ensures p in Union(ext) {
      assert ext[|regions|] == r;
    }
    forall p | p in Union(ext) ensures p in Union(regions) || p in r {
      var k :| 0 <= k < |ext| && p in ext[k];
      if k < |regions| {
        assert ext[k] == regions[k];
      }
    }
  }

  /** Regions hold only cells of the grid. */
  lemma UnionInGrid(m: seq<seq<int>>, width: int, height: int, regions: seq<seq<Point>>, walks: seq<seq<seq<Point>>>, q: Point)
    requires Extracted(m, width, height, regions, walks, q)
    ensures forall p :: p in Union(regions) ==> InGrid(p, width, height)
  {
    forall p | p in Union(regions) ensures InGrid(p, width, height) {
      var k :| 0 <= k < |regions| && p in regions[k];
      assert RegionOk(m, width, height, regions, walks, k);
    }
  }

  /** The end of a row is the start of the next one. */
  lemma RowEnd(m: seq<seq<int>>, width: int, height: int, regions: seq<seq<Point>>, walks: seq<seq<seq<Point>>>, y: int)
    requires Extracted(m, width, height, regions, walks, Point(width, y))
    ensures Extracted(m, width, height, regions, walks, Point(0, y + 1))
  {
    forall k | 0 <= k < |regions| ensures Earlier(regions[k][0], Point(0, y + 1)) {
      assert regions[k][0] in regions[k];
    }
  }

  /** A cell in a region, or not 0, starts nothing. */
  lemma ExtractSkip(m: seq<seq<int>>, width: int, height: int, regions: seq<seq<Point>>, walks: seq<seq<seq<Point>>>,
                    x: int, y: int)
    requires Extracted(m, width, height, regions, walks, Point(x, y)) && InGrid(Point(x, y), width, height)
    requires Point(x, y) in Union(regions) || CellOf(m, Point(x, y)) != 0
    ensures Extracted(m, width, height, regions, walks, Point(x + 1, y))
  {
    forall p | InGrid(p, width, height) && Earlier(p, Point(x + 1, y)) && CellOf(m, p) == 0
      ensures p in Union(regions)
    {
      if p != Point(x, y) {
        assert Earlier(p, Point(x, y));
      }
    }
  }

  /** A zero cell next to a region is in it. */
  lemma Beside(m: seq<seq<int>>, width: int, height: int, regions: seq<seq<Point>>, walks: seq<seq<seq<Point>>>,
               q: Point, c: Point, n: Point)
    requires Extracted(m, width, height, regions, walks, q)
    requires InGrid(c, width, height) && CellOf(m, c) == 0 && Adjacent(c, n)
    ensures n in Union(regions) ==> c in Union(regions)
  {
    if n in Union(regions) {
      var a :| 0 <= a < |regions| && n in regions[a];
      assert RegionOk(m, width, height, regions, walks, a);
      var i :| 0 <= i < |regions[a]| && regions[a][i] == n;
      assert Adjacent(regions[a][i], c);
    }
  }

  /**
   * A flood fill on the grid with the regions found so far marked -1, from a cell still 0, is
   * a flood fill on the unmarked grid too: no region lies next to a cell outside it.
   */
  lemma FillUnmarked(m: seq<seq<int>>, mc: seq<seq<int>>, width: int, height: int, regions: seq<seq<Point>>,
                     walks: seq<seq<seq<Point>>>, q: Point, seed: Point, contour: seq<Point>, paths: seq<seq<Point>>)
    requires Extracted(m, width, height, regions, walks, q) && IsMap(mc, width, height)
    requires forall i, j :: 0 <= i < height && 0 <= j < width ==>
               mc[i][j] == if Point(j, i) in Union(regions) then -1 else m[i][j]
    requires FillState(mc, width, height, seed, [], contour, paths) && seed in contour
    ensures FillState(m, width, height, seed, [], contour, paths)
    ensures forall p :: p in contour ==> p !in Union(regions) && InGrid(p, width, height) && CellOf(m, p) == 0
  {
    forall k | 0 <= k < |contour|
      ensures ZeroPath(m, width, height, paths[k])
      ensures contour[k] !in Union(regions) && InGrid(contour[k], width, height) && CellOf(m, contour[k]) == 0
    {
      assert ZeroPath(mc, width, height, paths[k]);
      assert CellOf(mc, paths[k][|paths[k]| - 1]) == 0;
    }
    forall k, n | 0 <= k < |contour| && InGrid(n, width, height) && Adjacent(contour[k], n) && CellOf(m, n) == 0
      ensures n in contour
    {
      Beside(m, width, height, regions, walks, q, contour[k], n);
    }
  }

  /** A cell still 0 adds its flood fill as a region, with the cell first. */
  lemma ExtractTake(m: seq<seq<int>>, width: int, height: int, regions: seq<seq<Point>>, walks: seq<seq<seq<Point>>>,
                    contour: seq<Point>, paths: seq<seq<Point>>, x: int, y: int)
    requires Extracted(m, width, height, regions, walks, Point(x, y))
    requires contour != [] && contour[0] == Point(x, y) && FillState(m, width, height, Point(x, y), [], contour, paths)
    requires forall p :: p in contour ==> p !in Union(regions) && InGrid(p, width, height) && CellOf(m, p) == 0
    ensures Extracted(m, width, height, regions + [contour], walks + [paths], Point(x + 1, y))
  {
    var ext := regions + [contour];
    UnionSnoc(regions, contour);
    var wx := walks + [paths];
    var q := Point(x + 1, y);
    forall k ensures RegionOk(m, width, height, ext, wx, k) {
      if 0 <= k < |regions| {
        assert RegionOk(m, width, height, regions, walks, k);
        assert ext[k] == regions[k] && wx[k] == walks[k];
      } else if k == |regions| {
        assert ext[k] == contour && wx[k] == paths;
      }
    }
    forall k | 0 <= k < |ext| ensures |ext[k]| > 0 && Earlier(ext[k][0], q) {
      if k < |regions| {
        assert ext[k] == regions[k];
      }
    }
    forall a, b | 0 <= a < b < |ext| ensures Earlier(ext[a][0], ext[b][0]) {
      assert ext[a] == regions[a];
      if b < |regions| {
        assert ext[b] == regions[b];
      }
    }
    forall a, b, p | 0 <= a < b < |ext| && p in ext[a] ensures p !in ext[b] {
      assert ext[a] == regions[a];
      if b < |regions| {
        assert ext[b] == regions[b];
      } else {
        assert p in Union(regions);
      }
    }
    forall p | InGrid(p, width, height) && Earlier(p, q) && CellOf(m, p) == 0 ensures p in Union(ext) {
      if p != Point(x, y) {
        assert Earlier(p, Point(x, y));
      } else {
        assert contour[0] == p;
      }
    }
  }

  /**
   * One cell of the extraction loop: a cell still 0 starts a new region, the flood fill of its
   * component; any other cell is already in a region or not 0.
   */
  method ExtractAt(grid: array2<int>, x: int, y: int, width: int, height: int, ghost m: seq<seq<int>>,
                   regions: seq<seq<Point>>, ghost walks: seq<seq<seq<Point>>>)
      returns (regions': seq<seq<Point>>, ghost walks': seq<seq<seq<Point>>>)
    requires 0 <= x < width <= grid.Length1 && 0 <= y < height <= grid.Length0
    requires Extracted(m, width, height, regions, walks, Point(x, y))
    requires forall i, j :: 0 <= i < height && 0 <= j < width ==>
               grid[i, j] == if Point(j, i) in Union(regions) then -1 else m[i][j]
    modifies grid
    ensures Extracted(m, width, height, regions', walks', Point(x + 1, y))
    ensures forall i, j :: 0 <= i < height && 0 <= j < width ==>
              grid[i, j] == if Point(j, i) in Union(regions') then -1 else m[i][j]
    ensures forall i, j :: 0 <= i < grid.Length0 && 0 <= j < grid.Length1 && !(i < height && j < width) ==>
              grid[i, j] == old(grid[i, j])
  {
    if grid[y, x] == 0 {
      ghost var mc := Region(grid, height, width);
      var contour;
      ghost var paths;
      contour, paths := FindContour(grid, x, y, width, height);
      FillUnmarked(m, mc, width, height, regions, walks, Point(x, y), Point(x, y), contour, paths);
      regions', walks' := regions, walks;
      if |contour| > 0 {
        UnionSnoc(regions, contour);
        ExtractTake(m, width, height, regions, walks, contour, paths, x, y);
        regions', walks' := regions + [contour], walks + [paths];
      }
    } else {
      ExtractSkip(m, width, height, regions, walks, x, y);
      regions', walks' := regions, walks;
    }
  }

  /** One row of the extraction loop. */
  method ExtractLine(grid: array2<int>, y: int, width: int, height: int, ghost m: seq<seq<int>>,
                     regions: seq<seq<Point>>, ghost walks: seq<seq<seq<Point>>>)
      returns (regions': seq<seq<Point>>, ghost walks': seq<seq<seq<Point>>>)
    requires 0 <= y < height <= grid.Length0 && 0 <= width <= grid.Length1
    requires Extracted(m, width, height, regions, walks, Point(0, y))
    requires forall i, j :: 0 <= i < height && 0 <= j < width ==>
               grid[i, j] == if Point(j, i) in Union(regions) then -1 else m[i][j]
    modifies grid
    ensures Extracted(m, width, height, regions', walks', Point(0, y + 1))
    ensures forall i, j :: 0 <= i < height && 0 <= j < width ==>
              grid[i, j] == if Point(j, i) in Union(regions') then -1 else m[i][j]
    ensures forall i, j :: 0 <= i < grid.Length0 && 0 <= j < grid.Length1 && !(i < height && j < width) ==>
              grid[i, j] == old(grid[i, j])
  {
    regions', walks' := regions, walks;
    for x := 0 to width
      invariant Extracted(m, width, height, regions', walks', Point(x, y))
      invariant forall i, j :: 0 <= i < height && 0 <= j < width ==>
                  grid[i, j] == if Point(j, i) in Union(regions') then -1 else m[i][j]
      invariant forall i, j :: 0 <= i < grid.Length0 && 0 <= j < grid.Length1 && !(i < height && j < width) ==>
                  grid[i, j] == old(grid[i, j])
    {
      regions', walks' := ExtractAt(grid, x, y, width, height, m, regions', walks');
    }
    RowEnd(m, width, height, regions', walks', y);
  }

  /**
   * The regions are exactly the 8-connected components of zero cells of `m`, each listed once
   * from its raster-first cell, the regions in the raster order of those cells.
   */
  ghost predicate Components(m: seq<seq<int>>, width: int, height: int, regions: seq<seq<Point>>) {
    && IsMap(m, width, height)
    && (forall k :: 0 <= k < |regions| ==>
          && regions[k] != [] && Distinct(regions[k])
          && (forall p :: p in regions[k] <==> Connected(m, width, height, regions[k][0], p))
          && (forall p :: p in regions[k] ==> !Earlier(p, regions[k][0])))
    && (forall a, b :: 0 <= a < b < |regions| ==> Earlier(regions[a][0], regions[b][0]))
    && (forall a, b, p :: 0 <= a < b < |regions| && p in regions[a] ==> p !in regions[b])
    && (forall p :: InGrid(p, width, height) && CellOf(m, p) == 0 ==> p in Union(regions))
  }

  /** After the last row, the regions found are the components. */
  lemma ExtractDone(m: seq<seq<int>>, width: int, height: int, regions: seq<seq<Point>>, walks: seq<seq<seq<Point>>>)
    requires Extracted(m, width, height, regions, walks, Point(0, height))
    ensures Components(m, width, height, regions)
  {
    forall k | 0 <= k < |regions|
      ensures forall p :: p in regions[k] <==> Connected(m, width, height, regions[k][0], p)
    {
      assert RegionOk(m, width, height, regions, walks, k);
      FillResult(m, width, height, regions[k][0], regions[k], walks[k]);
    }
    forall k | 0 <= k < |regions| ensures Distinct(regions[k]) && forall p :: p in regions[k] ==> !Earlier(p, regions[k][0]) {
      assert RegionOk(m, width, height, regions, walks, k);
    }
  }

  /**
   * The extraction loop of Build: scans the cells row by row and flood-fills from every cell
   * still 0, so it returns the components of zero cells of the grid it was given, marking
   * their cells -1.
   */
  method ExtractRegions(grid: array2<int>, width: nat, height: nat) returns (regions: seq<seq<Point>>)
    requires width <= grid.Length1 && height <= grid.Length0
    modifies grid
    ensures Components(old(Region(grid, height, width)), width, height, regions)
    ensures forall i, j :: 0 <= i < grid.Length0 && 0 <= j < grid.Length1 ==>
              grid[i, j] == if Point(j, i) in Union(regions) then -1 else old(grid[i, j])
  {
    ghost var m := Region(grid, height, width);
    regions := [];
    ghost var walks: seq<seq<seq<Point>>> := [];
    for y := 0 to height
      invariant Extracted(m, width, height, regions, walks, Point(0, y))
      invariant forall i, j :: 0 <= i < height && 0 <= j < width ==>
                  grid[i, j] == if Point(j, i) in Union(regions) then -1 else m[i][j]
      invariant forall i, j :: 0 <= i < grid.Length0 && 0 <= j < grid.Length1 && !(i < height && j < width) ==>
                  grid[i, j] == old(grid[i, j])
    {
      regions, walks := ExtractLine(grid, y, width, height, m, regions, walks);
    }
    ExtractDone(m, width, height, regions, walks);
    UnionInGrid(m, width, height, regions, walks, Point(0, height));
  }

  /** Components depend only on which cells are zero. */
  lemma ComponentsSameZeros(m: seq<seq<int>>, m2: seq<seq<int>>, width: int, height: int, regions: seq<seq<Point>>)
    requires IsMap(m, width, height) && IsMap(m2, width, height)
    requires ZerosWithin(m, m2, width, height) && ZerosWithin(m2, m, width, height)
    requires Components(m, width, height, regions)
    ensures Components(m2, width, height, regions)
  {
    forall k, p | 0 <= k < |regions|
      ensures Connected(m, width, height, regions[k][0], p) <==> Connected(m2, width, height, regions[k][0], p)
    {
      if Connected(m, width, height, regions[k][0], p) {
        ConnectedWithin(m, m2, width, height, regions[k][0], p);
      }
      if Connected(m2, width, height, regions[k][0], p) {
        ConnectedWithin(m2, m, width, height, regions[k][0], p);
      }
    }
    forall p | InGrid(p, width, height) && CellOf(m2, p) == 0 ensures p in Union(regions) {
      assert CellOf(m, p) == 0;
    }
  }

  /** Restamping with non-negative ids keeps the zero cells. */
  lemma RestampedSameZeros(g: seq<seq<int>>, g0: seq<seq<int>>, width: nat, lo: int, hi: int)
    requires Restamped(g, g0, width, lo, hi) && lo >= 0
    ensures IsMap(g, width, |g|) && IsMap(g0, width, |g|)
    ensures ZerosWithin(g, g0, width, |g|) && ZerosWithin(g0, g, width, |g|)
  {
    forall i, j | 0 <= i < |g| && 0 <= j < width ensures g[i][j] == 0 <==> g0[i][j] == 0 {
      RestampedZeros(g, g0, width, lo, hi, Pos(i, j));
    }
  }

  // ---------------------------------------------------------------------------
  // The mask
  // ---------------------------------------------------------------------------

  /** The mask Build derives from a bitmap: 0 (background) where the red channel is positive, 1 elsewhere. */
  function Mask(red: (int, int) -> int, width: nat, height: nat): (m: seq<seq<int>>)
    ensures IsMap(m, width, height)
    ensures forall i, j :: 0 <= i < height && 0 <= j < width ==> m[i][j] == if red(j, i) > 0 then 0 else 1
  {
    seq(height, i => seq(width, j => if red(j, i) > 0 then 0 else 1))
  }

  /** Fills a fresh height × width buffer with the mask of the bitmap whose red channel is `red`. */
  method BuildMask(red: (int, int) -> int, width: nat, height: nat) returns (mask: array2<int>)
    ensures fresh(mask) && mask.Length0 == height && mask.Length1 == width
    ensures Region(mask, height, width) == Mask(red, width, height)
  {
    mask := new int[height, width];
    for i := 0 to height
      invariant forall a, b :: 0 <= a < i && 0 <= b < width ==> mask[a, b] == if red(b, a) > 0 then 0 else 1
    {
      for j := 0 to width
        invariant forall a, b :: 0 <= a < height && 0 <= b < width && (a < i || (a == i && b < j)) ==>
                    mask[a, b] == if red(b, a) > 0 then 0 else 1
      {
        mask[i, j] := if red(j, i) > 0 then 0 else 1;
      }
    }
    RegionIs(mask, height, width, Mask(red, width, height));
  }

  // ---------------------------------------------------------------------------
  // Bounding boxes
  // ---------------------------------------------------------------------------

  const IntMax: int := 0x7fff_ffff
  const IntMin: int := -0x8000_0000

  /** A value of the source's 32-bit `int`. */
  predicate IsInt32(v: int) {
    IntMin <= v <= IntMax
  }

  function Min(a: int, b: int): int { if a <= b then a else b }
  function Max(a: int, b: int): int { if a >= b then a else b }

  /**
   * The edges the bounding-box loop computes for the points `ps`: starting from int.MaxValue
   * for left and top and int.MinValue for right and bottom, each point lowers or raises them.
   */
  function BoxOf(ps: seq<Point>): Rect {
    if |ps| == 0 then Rect(IntMax, IntMax, IntMin, IntMin)
    else
      var b := BoxOf(ps[..|ps| - 1]);
      var p := ps[|ps| - 1];
      Rect(Min(b.left, p.x), Min(b.top, p.y), Max(b.right, p.x), Max(b.bottom, p.y))
  }

  /** A point lies in (or on the edge of) a rectangle. */
  predicate Inside(p: Point, r: Rect) {
    r.left <= p.x <= r.right && r.top <= p.y <= r.bottom
  }

  /**
   * For 32-bit points, BoxOf is the least rectangle holding them all: every point lies in it
   * and each edge passes through a point.
   */
  lemma {:induction false} BoxOfBounds(ps: seq<Point>)
    requires forall k :: 0 <= k < |ps| ==> IsInt32(ps[k].x) && IsInt32(ps[k].y)
    ensures forall k :: 0 <= k < |ps| ==> Inside(ps[k], BoxOf(ps))
    ensures |ps| > 0 ==> exists k :: 0 <= k < |ps| && ps[k].x == BoxOf(ps).left
    ensures |ps| > 0 ==> exists k :: 0 <= k < |ps| && ps[k].y == BoxOf(ps).top
    ensures |ps| > 0 ==> exists k :: 0 <= k < |ps| && ps[k].x == BoxOf(ps).right
    ensures |ps| > 0 ==> exists k :: 0 <= k < |ps| && ps[k].y == BoxOf(ps).bottom
  {
    if |ps| > 0 {
      var front := ps[..|ps| - 1];
      BoxOfBounds(front);
      var n := |ps| - 1;
      forall k | 0 <= k < n ensures ps[k] == front[k] { }
      if n > 0 {
        var l :| 0 <= l < n && front[l].x == BoxOf(front).left;
        var t :| 0 <= t < n && front[t].y == BoxOf(front).top;
        var r :| 0 <= r < n && front[r].x == BoxOf(front).right;
        var b :| 0 <= b < n && front[b].y == BoxOf(front).bottom;
        assert ps[l] == front[l] && ps[t] == front[t] && ps[r] == front[r] && ps[b] == front[b];
      }
    }
  }

  /** The bounding-box loop of Build over one region. */
  method BoundingBox(points: seq<Point>) returns (box: Rect)
    ensures box == BoxOf(points)
  {
    var left, top, right, bottom := IntMax, IntMax, IntMin, IntMin;
    for i := 0 to |points|
      invariant Rect(left, top, right, bottom) == BoxOf(points[..i])
    {
      assert points[..i + 1][..i] == points[..i];
      left := Min(left, points[i].x);
      top := Min(top, points[i].y);
      right := Max(right, points[i].x);
      bottom := Max(bottom, points[i].y);
    }
    assert points[..|points|] == points;
    box := Rect(left, top, right, bottom);
  }

  /** A box kept as a candidate: more than one pixel wide and high between its edges. */
  predicate Thick(r: Rect) {
    r.right - r.left > 1 && r.bottom - r.top > 1
  }

  /** The candidate boxes: the thick bounding boxes of the non-empty regions, in region order. */
  function Candidates(regions: seq<seq<Point>>): seq<Rect> {
    if |regions| == 0 then []
    else
      var ps := regions[|regions| - 1];
      Candidates(regions[..|regions| - 1]) + if |ps| > 0 && Thick(BoxOf(ps)) then [BoxOf(ps)] else []
  }

  /** A box is a candidate exactly when it is the thick bounding box of a non-empty region; there are at most as many as regions. */
  lemma {:induction false} CandidatesAre(regions: seq<seq<Point>>)
    ensures |Candidates(regions)| <= |regions|
    ensures forall r :: r in Candidates(regions) <==>
              exists k :: 0 <= k < |regions| && |regions[k]| > 0 && Thick(BoxOf(regions[k])) && r == BoxOf(regions[k])
  {
    if |regions| > 0 {
      var front := regions[..|regions| - 1];
      CandidatesAre(front);
      forall k | 0 <= k < |front| ensures regions[k] == front[k] { }
      forall r | r in Candidates(regions)
        ensures exists k :: 0 <= k < |regions| && |regions[k]| > 0 && Thick(BoxOf(regions[k])) && r == BoxOf(regions[k])
      {
        if r !in Candidates(front) {
          assert r == BoxOf(regions[|regions| - 1]);
        }
      }
    }
  }

  /** The bounding-box loop of Build over all regions. */
  method CandidateBoxes(regions: seq<seq<Point>>) returns (rects: seq<Rect>)
    ensures rects == Candidates(regions)
  {
    rects := [];
    for k := 0 to |regions|
      invariant rects == Candidates(regions[..k])
    {
      assert regions[..k + 1][..k] == regions[..k];
      if |regions[k]| > 0 {
        var box := BoundingBox(regions[k]);
        if box.right - box.left > 1 && box.bottom - box.top > 1 {
          rects := rects + [box];
        }
      }
    }
    assert regions[..|regions|] == regions;
  }

  // ---------------------------------------------------------------------------
  // Collapsing nested boxes
  // ---------------------------------------------------------------------------

  /** `a` contains `b` (edges may coincide). */
  predicate Contains(a: Rect, b: Rect) {
    a.left <= b.left && a.top <= b.top && a.right >= b.right && a.bottom >= b.bottom
  }

  /** A box wider and higher than 90% of the bitmap; the collapse never touches one. */
  predicate Oversized(r: Rect, width: int, height: int) {
    10 * r.Width() > 9 * width && 10 * r.Height() > 9 * height
  }

  /** Among the boxes after position `i`, no box that is not oversized contains or lies in another such box. */
  ghost predicate Settled(rects: seq<Rect>, i: int, width: int, height: int) {
    forall a, b ::
      (0 <= a && i < a < |rects| && 0 <= b < |rects| && a != b
       && !Oversized(rects[a], width, height) && !Oversized(rects[b], width, height)) ==>
      !Contains(rects[a], rects[b]) && !Contains(rects[b], rects[a])
  }

  /**
   * `out` keeps what matters of `rects`: it holds boxes of `rects`, no box more often than
   * `rects` does and every oversized box exactly as often, and a box containing each box of `rects`.
   */
  ghost predicate Keeps(out: seq<Rect>, rects: seq<Rect>, width: int, height: int) {
    && multiset(out) <= multiset(rects)
    && (forall r :: Oversized(r, width, height) ==> multiset(out)[r] == multiset(rects)[r])
    && Covers(out, rects)
  }

  /** Each box of `rects` lies in some box of `out`. */
  ghost predicate Covers(out: seq<Rect>, rects: seq<Rect>) {
    forall k :: 0 <= k < |rects| ==> Covered(out, rects[k])
  }

  /** `r` lies in some box of `out`. */
  ghost predicate Covered(out: seq<Rect>, r: Rect) {
    exists p :: 0 <= p < |out| && Contains(out[p], r)
  }

  /**
   * The result of collapsing `rects`: no more boxes, kept as Keeps says, and no box that is not
   * oversized contains another such box at a different position.
   */
  ghost predicate Reduced(out: seq<Rect>, rects: seq<Rect>, width: int, height: int) {
    && |out| <= |rects|
    && Keeps(out, rects, width, height)
    && forall a, b ::
         (0 <= a < |out| && 0 <= b < |out| && a != b
          && !Oversized(out[a], width, height) && !Oversized(out[b], width, height)) ==>
         !Contains(out[a], out[b])
  }

  /**
   * The inner loop of the collapse: the highest position below `i` holding a box that is not
   * oversized and contains or lies in box `i`, or -1 when there is none.
   */
  method Partner(rects: seq<Rect>, i: int, width: int, height: int) returns (j: int)
    requires 0 <= i < |rects|
    ensures -1 <= j < i
    ensures j >= 0 ==> !Oversized(rects[j], width, height) && (Contains(rects[i], rects[j]) || Contains(rects[j], rects[i]))
    ensures forall b :: j < b < i && !Oversized(rects[b], width, height) ==>
              !Contains(rects[i], rects[b]) && !Contains(rects[b], rects[i])
  {
    j := i - 1;
    while j >= 0
      invariant -1 <= j < i
      invariant forall b :: j < b < i && !Oversized(rects[b], width, height) ==>
                  !Contains(rects[i], rects[b]) && !Contains(rects[b], rects[i])
    {
      var width2 := rects[j].right - rects[j].left;
      var height2 := rects[j].bottom - rects[j].top;
      if !(10 * width2 > 9 * width && 10 * height2 > 9 * height) {
        if Contains(rects[i], rects[j]) || Contains(rects[j], rects[i]) {
          return;
        }
      }
      j := j - 1;
    }
  }

  /** Removing position `i` removes one occurrence of its box. */
  lemma DropCount(s: seq<Rect>, i: int)
    requires 0 <= i < |s|
    ensures multiset(s[..i] + s[i + 1..]) == multiset(s) - multiset{s[i]}
  {
    assert s == s[..i] + [s[i]] + s[i + 1..];
  }

  /** Overwriting position `j` trades one occurrence of its box for one of `v`. */
  lemma UpdateCount(s: seq<Rect>, j: int, v: Rect)
    requires 0 <= j < |s|
    ensures multiset(s[j := v]) == multiset(s) - multiset{s[j]} + multiset{v}
  {
    assert s == s[..j] + [s[j]] + s[j + 1..];
    assert s[j := v] == s[..j] + [v] + s[j + 1..];
  }

  /** The merge of box `i` into its partner `j`: `j` takes box `i` when that contains it, then position `i` goes. */
  function Merge(rects: seq<Rect>, i: int, j: int): seq<Rect>
    requires 0 <= j < i < |rects|
  {
    var next := if Contains(rects[i], rects[j]) then rects[j := rects[i]] else rects;
    next[..i] + next[i + 1..]
  }

  /** Where each box of a merge comes from. */
  lemma MergeFrom(rects: seq<Rect>, i: int, j: int, b: int)
    requires 0 <= j < i < |rects| && 0 <= b < |Merge(rects, i, j)|
    ensures |Merge(rects, i, j)| == |rects| - 1
    ensures Merge(rects, i, j)[b] == rects[if b < i then (if b == j && Contains(rects[i], rects[j]) then i else b) else b + 1]
  {
  }

  /** After a merge at `i`, the boxes from position `i` on are still settled. */
  lemma MergeSettled(rects: seq<Rect>, i: int, j: int, width: int, height: int)
    requires 0 <= j < i < |rects| && Settled(rects, i, width, height)
    ensures Settled(Merge(rects, i, j), i - 1, width, height)
  {
    var after := Merge(rects, i, j);
    forall a, b | i - 1 < a < |after| && 0 <= b < |after| && a != b
      && !Oversized(after[a], width, height) && !Oversized(after[b], width, height)
      ensures !Contains(after[a], after[b]) && !Contains(after[b], after[a])
    {
      MergeFrom(rects, i, j, a);
      MergeFrom(rects, i, j, b);
    }
  }

  /** A merge removes exactly one occurrence of box `j` (when box `i` contains it) or of box `i`. */
  lemma MergeDrops(rects: seq<Rect>, i: int, j: int)
    requires 0 <= j < i < |rects|
    ensures multiset(Merge(rects, i, j)) ==
            multiset(rects) - multiset{if Contains(rects[i], rects[j]) then rects[j] else rects[i]}
  {
    var swap := Contains(rects[i], rects[j]);
    var next := if swap then rects[j := rects[i]] else rects;
    var gone := if swap then rects[j] else rects[i];
    var before, mid, after := multiset(rects), multiset(next), multiset(Merge(rects, i, j));
    DropCount(next, i);
    assert next[i] == rects[i];
    if swap {
      UpdateCount(rects, j, rects[i]);
    }
    forall r ensures after[r] == (before - multiset{gone})[r] {
      assert after[r] == if r == rects[i] then mid[r] - 1 else mid[r];
    }
  }

  /** A merge removes one occurrence of a box, which is not oversized when neither box is. */
  lemma MergeCounts(rects: seq<Rect>, orig: seq<Rect>, i: int, j: int, width: int, height: int)
    requires 0 <= j < i < |rects| && multiset(rects) <= multiset(orig)
    requires forall r :: Oversized(r, width, height) ==> multiset(rects)[r] == multiset(orig)[r]
    requires !Oversized(rects[i], width, height) && !Oversized(rects[j], width, height)
    ensures multiset(Merge(rects, i, j)) <= multiset(orig)
    ensures forall r :: Oversized(r, width, height) ==> multiset(Merge(rects, i, j))[r] == multiset(orig)[r]
  {
    var gone := if Contains(rects[i], rects[j]) then rects[j] else rects[i];
    MergeDrops(rects, i, j);
    var before, after := multiset(rects), multiset(Merge(rects, i, j));
    forall r ensures after[r] <= multiset(orig)[r] {
      assert after[r] <= before[r];
    }
    forall r | Oversized(r, width, height) ensures after[r] == multiset(orig)[r] {
      assert r != gone;
    }
  }

  lemma MergeCovers(rects: seq<Rect>, orig: seq<Rect>, i: int, j: int)
    requires 0 <= j < i < |rects| && Covers(rects, orig)
    requires Contains(rects[i], rects[j]) || Contains(rects[j], rects[i])
    ensures Covers(Merge(rects, i, j), orig)
  {
    var after := Merge(rects, i, j);
    forall k | 0 <= k < |orig| ensures Covered(after, orig[k]) {
      var p :| 0 <= p < |rects| && Contains(rects[p], orig[k]);
      var q := if p != i && p != j then (if p < i then p else p - 1) else j;
      MergeFrom(rects, i, j, q);
      assert Contains(after[q], orig[k]);
    }
  }

  /** Merging box `i` with its partner `j` settles position `i` and keeps what Keeps asks. */
  lemma MergeStep(rects: seq<Rect>, orig: seq<Rect>, i: int, j: int, width: int, height: int)
    requires 0 <= j < i < |rects| <= |orig|
    requires Settled(rects, i, width, height) && Keeps(rects, orig, width, height)
    requires !Oversized(rects[i], width, height) && !Oversized(rects[j], width, height)
    requires Contains(rects[i], rects[j]) || Contains(rects[j], rects[i])
    ensures |Merge(rects, i, j)| == |rects| - 1
    ensures Settled(Merge(rects, i, j), i - 1, width, height) && Keeps(Merge(rects, i, j), orig, width, height)
  {
    MergeSettled(rects, i, j, width, height);
    MergeCounts(rects, orig, i, j, width, height);
    MergeCovers(rects, orig, i, j);
  }

  /** Box `i`, oversized or without a partner below it, joins the settled boxes after it. */
  lemma SettleOne(rects: seq<Rect>, i: int, width: int, height: int)
    requires 0 <= i < |rects| && Settled(rects, i, width, height)
    requires !Oversized(rects[i], width, height) ==>
               forall b :: 0 <= b < i && !Oversized(rects[b], width, height) ==>
                 !Contains(rects[i], rects[b]) && !Contains(rects[b], rects[i])
    ensures Settled(rects, i - 1, width, height)
  {
  }

  /**
   * One step of the collapse loop at position `i`: an oversized box stays; otherwise the
   * partner found below it absorbs it (taking its place first when box `i` is the larger),
   * and box `i` is removed.
   */
  method CollapseAt(out: seq<Rect>, rects: seq<Rect>, i: int, width: int, height: int) returns (next: seq<Rect>)
    requires 1 <= i < |out| <= |rects|
    requires Settled(out, i, width, height) && Keeps(out, rects, width, height)
    ensures |next| <= |out| && Settled(next, i - 1, width, height) && Keeps(next, rects, width, height)
    ensures i - 1 < |next|
  {
    next := out;
    var width1 := next[i].right - next[i].left;
    var height1 := next[i].bottom - next[i].top;
    if 10 * width1 > 9 * width && 10 * height1 > 9 * height {
      SettleOne(next, i, width, height);
      return;
    }
    var j := Partner(next, i, width, height);
    if j < 0 {
      SettleOne(next, i, width, height);
      return;
    }
    MergeStep(out, rects, i, j, width, height);
    if Contains(next[i], next[j]) {
      next := next[j := next[i]];
    }
    next := next[..i] + next[i + 1..];
    assert next == Merge(out, i, j);
  }

  /**
   * The collapse loop of Build, from the last box down to the second: a box that is not
   * oversized and has a partner below it is merged into that partner.
   */
  method Reduce(rects: seq<Rect>, width: int, height: int) returns (out: seq<Rect>)
    ensures Reduced(out, rects, width, height)
  {
    out := rects;
    var i := |out| - 1;
    forall k | 0 <= k < |rects| ensures Covered(out, rects[k]) {
      assert Contains(out[k], rects[k]);
    }
    while i >= 1
      invariant -1 <= i < |out| <= |rects|
      invariant Settled(out, i, width, height) && Keeps(out, rects, width, height)
    {
      out := CollapseAt(out, rects, i, width, height);
      i := i - 1;
    }
  }

  /**
   * The border-tracing pass of Build: `mask` is padded into a fresh tracer, its borders are
   * restamped with border ids, and the unpadded result is copied into a fresh buffer, which
   * holds a 0 exactly where the mask does.
   */
  method TraceBorders(mask: array2<int>, width: nat, height: nat) returns (map2: array2<int>)
    requires mask.Length0 == height && mask.Length1 == width
    ensures fresh(map2) && map2.Length0 == height && map2.Length1 == width
    ensures IsMap(Region(map2, height, width), width, height) && IsMap(Region(mask, height, width), width, height)
    ensures ZerosWithin(Region(map2, height, width), Region(mask, height, width), width, height)
    ensures ZerosWithin(Region(mask, height, width), Region(map2, height, width), width, height)
  {
    map2 := new int[height, width];
    ghost var m := Region(mask, height, width);
    var find := new FindContours();
    find.MapLoader(mask, height, width);
    ghost var seeds, kinds, grids, paths, closeds := find.RasterScan();
    find.CopyToMap(map2);
    UnpadPad(m, width, PadSize);
    RestampedSameZeros(Region(map2, height, width), m, width, 1, find.NBD);
  }

  /**
   * The detector's state: the zero regions of the last bitmap, row-major by seed, and the
   * collapsed bounding boxes of the thick ones.
   */
  class ClosedRegionBuilder {
    var pointList: seq<seq<Point>>
    var boundingBoxes: seq<Rect>

    constructor ()
      ensures pointList == [] && boundingBoxes == []
    {
      pointList := [];
      boundingBoxes := [];
    }

    /**
     * Builds both lists for a bitmap of `width` × `height` pixels whose red channel is `red`
     * (indexed x, y): the mask has a 0 wherever red is positive; the border tracer restamps its
     * borders; the flood fill collects every 8-connected block of 0s; the boxes of the thick ones
     * are collapsed.
     */
    method Build(red: (int, int) -> int, width: nat, height: nat)
      modifies this
      ensures Components(Mask(red, width, height), width, height, pointList)
      ensures Reduced(boundingBoxes, Candidates(pointList), width, height)
    {
      pointList := [];
      boundingBoxes := [];
      var mask := BuildMask(red, width, height);
      var map2 := TraceBorders(mask, width, height);
      ghost var traced := Region(map2, height, width);
      var regions := ExtractRegions(map2, width, height);
      ComponentsSameZeros(traced, Mask(red, width, height), width, height, regions);
      pointList := regions;
      var allRects := CandidateBoxes(pointList);
      boundingBoxes := Reduce(allRects, width, height);
    }
  }
}
