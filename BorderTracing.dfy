/**
 * The one-level border follower of FindContours.cs: a grid of integers is padded by one
 * background cell, raster-scanned for outer and hole border starts, each border is
 * traced around a fixed ring of eight neighbours and stamped with its id, and the
 * padding is removed again.
 */
module BorderTracing {
  import opened Wrappers

  /** A grid cell. As in the source's tuples, `x` is the row and `y` the column. */
  datatype Pos = Pos(x: int, y: int)

  /** The padding the tracer adds around the grid (the field `padSize`). */
  const PadSize: nat := 1

  /** Offsets (row + 1, column + 1) of the eight neighbours, in ring order NW, N, NE, E, SE, S, SW, W. */
  const Neighbors: seq<(int, int)> := [(0, 0), (0, 1), (0, 2), (1, 2), (2, 2), (2, 1), (2, 0), (1, 0)]

  /** Ring position of each offset (row + 1, column + 1); the centre itself reads as 0. */
  const Index: seq<seq<int>> := [[0, 1, 2], [7, 0, 3], [6, 5, 4]]

  // ---------------------------------------------------------------------------------------
  // Grids as values: the abstraction of the tracer's row buffers
  // ---------------------------------------------------------------------------------------

  /** `c` is a grid whose every row has `cols` cells. */
  predicate IsGrid(c: seq<seq<int>>, cols: nat) {
    forall i :: 0 <= i < |c| ==> |c[i]| == cols
  }

  /** The grid `c` surrounded by a margin of `p` zero cells. */
  function PadGrid(c: seq<seq<int>>, cols: nat, p: nat): (r: seq<seq<int>>)
    requires IsGrid(c, cols)
    ensures |r| == |c| + 2 * p && IsGrid(r, cols + 2 * p)
    ensures forall i, j :: 0 <= i < |c| && 0 <= j < cols ==> r[i + p][j + p] == c[i][j]
    ensures forall i, j :: 0 <= i < |r| && 0 <= j < cols + 2 * p && (i < p || i >= |c| + p || j < p || j >= cols + p) ==>
              r[i][j] == 0
  {
    seq(|c| + 2 * p, i requires 0 <= i < |c| + 2 * p =>
      seq(cols + 2 * p, j requires 0 <= j < cols + 2 * p =>
        if p <= i < |c| + p && p <= j < cols + p then c[i - p][j - p] else 0))
  }

  /** The grid `c` with a margin of `p` cells cut away on every side. */
  function UnpadGrid(c: seq<seq<int>>, cols: nat, p: nat): (r: seq<seq<int>>)
    requires IsGrid(c, cols) && |c| >= 2 * p && cols >= 2 * p
    ensures |r| == |c| - 2 * p && IsGrid(r, cols - 2 * p)
    ensures forall i, j :: 0 <= i < |r| && 0 <= j < cols - 2 * p ==> r[i][j] == c[i + p][j + p]
  {
    seq(|c| - 2 * p, i requires 0 <= i < |c| - 2 * p =>
      seq(cols - 2 * p, j requires 0 <= j < cols - 2 * p => c[i + p][j + p]))
  }

  /** Removing a margin of `p` after adding one gives back the original grid. */
  lemma UnpadPad(c: seq<seq<int>>, cols: nat, p: nat)
    requires IsGrid(c, cols)
    ensures UnpadGrid(PadGrid(c, cols, p), cols + 2 * p, p) == c
  {
    var r := UnpadGrid(PadGrid(c, cols, p), cols + 2 * p, p);
    forall i | 0 <= i < |c| ensures r[i] == c[i] {
      assert |r[i]| == |c[i]|;
    }
  }

  // ---------------------------------------------------------------------------------------
  // The ring of eight neighbours (FindNeighbor's tables)
  // ---------------------------------------------------------------------------------------

  /** `p` lies in the 3×3 block centred on `c` (possibly `c` itself). */
  predicate Near(c: Pos, p: Pos) {
    -1 <= p.x - c.x <= 1 && -1 <= p.y - c.y <= 1
  }

  /** The neighbour of `center` at ring position `k`. */
  function RingCell(center: Pos, k: int): (p: Pos)
    requires 0 <= k < 8
    ensures Near(center, p) && p != center
  {
    Pos(center.x + Neighbors[k].0 - 1, center.y + Neighbors[k].1 - 1)
  }

  /** The ring position of `start` around `center`, read from the index table. */
  function StartIndex(center: Pos, start: Pos): (k: int)
    requires Near(center, start)
    ensures 0 <= k < 8
    ensures start != center ==> RingCell(center, k) == start
    ensures start == center ==> k == 0
  {
    Index[start.x - center.x + 1][start.y - center.y + 1]
  }

  /** The index table inverts the neighbour table. */
  lemma IndexInvertsNeighbors(center: Pos, k: int)
    requires 0 <= k < 8
    ensures StartIndex(center, RingCell(center, k)) == k
  {
  }

  /** Distinct ring positions are distinct cells. */
  lemma RingCellInjective(center: Pos, k1: int, k2: int)
    requires 0 <= k1 < 8 && 0 <= k2 < 8
    requires RingCell(center, k1) == RingCell(center, k2)
    ensures k1 == k2
  {
  }

  /** The direction of the scan: +1 clockwise, -1 counter-clockwise. */
  function Weight(clockwise: bool): int {
    if clockwise then 1 else -1
  }

  /**
   * The ring position probed at step `i` (1..8) of a scan that starts after `startInd`.
   * The summand 8 keeps the dividend non-negative, so C#'s truncating `%` and Dafny's agree.
   */
  function Probe(startInd: int, i: int, clockwise: bool): (k: int)
    requires 0 <= startInd < 8 && 1 <= i <= 8
    ensures 0 <= k < 8
    ensures startInd + i * Weight(clockwise) + 8 >= 0
  {
    (startInd + i * Weight(clockwise) + 8) % 8
  }

  /** Probe without the modulus: `i` steps forward or back around the ring of eight. */
  lemma ProbeLinear(s: int, i: int, clockwise: bool)
    requires 0 <= s < 8 && 1 <= i <= 8
    ensures Probe(s, i, clockwise) == if clockwise then (if s + i >= 8 then s + i - 8 else s + i)
                                      else (if s - i >= 0 then s - i else s - i + 8)
  {
    if clockwise {
      assert s + i * Weight(clockwise) + 8 == (s + i) + 8;
    } else {
      assert s + i * Weight(clockwise) + 8 == (s - i) + 8;
    }
  }

  /**
   * The scan visits the ring in +1 or -1 order, each position once, and its eighth and
   * last probe is the start position itself.
   */
  lemma ProbeOrder(s: int, clockwise: bool)
    requires 0 <= s < 8
    ensures Probe(s, 8, clockwise) == s
    ensures forall i :: 1 <= i < 8 ==> Probe(s, i + 1, clockwise) == (Probe(s, i, clockwise) + Weight(clockwise) + 8) % 8
    ensures forall i, j :: 1 <= i < j <= 8 ==> Probe(s, i, clockwise) != Probe(s, j, clockwise)
  {
    forall i | 1 <= i <= 8 {
      ProbeLinear(s, i, clockwise);
    }
  }

  /** Two scans that meet at one ring position started at positions `b - a` steps apart. */
  lemma ProbeShift(s: int, t: int, a: int, b: int, clockwise: bool)
    requires 0 <= s < 8 && 0 <= t < 8 && 1 <= a <= b <= 8
    requires Probe(s, a, clockwise) == Probe(t, b, clockwise)
    ensures a == b ==> s == t
    ensures a < b ==> Probe(t, b - a, clockwise) == s
  {
    ProbeLinear(s, a, clockwise);
    ProbeLinear(t, b, clockwise);
    if a < b {
      ProbeLinear(t, b - a, clockwise);
    }
  }

  /** The step at which a scan started after `s` reaches ring position `k`. */
  function StepTo(s: int, k: int, clockwise: bool): (i: int)
    requires 0 <= s < 8 && 0 <= k < 8
    ensures 1 <= i <= 8 && Probe(s, i, clockwise) == k
  {
    var d := if clockwise then k - s else s - k;
    var i := if d <= 0 then d + 8 else d;
    ProbeLinear(s, i, clockwise);
    i
  }


  // ---------------------------------------------------------------------------------------
  // FindNeighbor as a function of the grid
  // ---------------------------------------------------------------------------------------

  /** `g` has rows of `cols` cells and all eight neighbours of `c` are cells of it. */
  predicate Interior(g: seq<seq<int>>, cols: nat, c: Pos) {
    IsGrid(g, cols) && 1 <= c.x < |g| - 1 && 1 <= c.y < cols - 1
  }

  /** The value of cell `p`. */
  function At(g: seq<seq<int>>, p: Pos): int
    requires 0 <= p.x < |g| && 0 <= p.y < |g[p.x]|
  {
    g[p.x][p.y]
  }

  /** The first step in `i`..8 whose probed neighbour is non-zero, or 9 when there is none. */
  function FirstHit(g: seq<seq<int>>, cols: nat, center: Pos, startInd: int, clockwise: bool, i: int): (h: int)
    requires Interior(g, cols, center) && 0 <= startInd < 8 && 1 <= i <= 9
    ensures i <= h <= 9
    ensures forall m :: i <= m < h ==> At(g, RingCell(center, Probe(startInd, m, clockwise))) == 0
    ensures h <= 8 ==> At(g, RingCell(center, Probe(startInd, h, clockwise))) != 0
    decreases 9 - i
  {
    if i == 9 then 9
    else if At(g, RingCell(center, Probe(startInd, i, clockwise))) != 0 then i
    else FirstHit(g, cols, center, startInd, clockwise, i + 1)
  }

  /** A scan that finds nothing has seen eight zero neighbours. */
  lemma ScanMissAll(g: seq<seq<int>>, cols: nat, center: Pos, s: int, clockwise: bool)
    requires Interior(g, cols, center) && 0 <= s < 8
    requires FirstHit(g, cols, center, s, clockwise, 1) == 9
    ensures forall k :: 0 <= k < 8 ==> At(g, RingCell(center, k)) == 0
  {
    forall k | 0 <= k < 8 ensures At(g, RingCell(center, k)) == 0 {
      var i := StepTo(s, k, clockwise);
    }
  }

  /**
   * What FindNeighbor returns: the first non-zero neighbour of `center` met when walking
   * the ring from just after `start`, or None (the source's (-1, -1)) when all eight are zero.
   */
  function Neighbor(g: seq<seq<int>>, cols: nat, center: Pos, start: Pos, clockwise: bool): (r: Option<Pos>)
    requires Interior(g, cols, center) && Near(center, start)
    ensures r.Some? ==> Near(center, r.value) && r.value != center && At(g, r.value) != 0
    ensures r.None? <==> forall k :: 0 <= k < 8 ==> At(g, RingCell(center, k)) == 0
  {
    var s := StartIndex(center, start);
    var h := FirstHit(g, cols, center, s, clockwise, 1);
    if h == 9 then ScanMissAll(g, cols, center, s, clockwise); None
    else Some(RingCell(center, Probe(s, h, clockwise)))
  }

  /** When the pixel the scan starts from is non-zero, the scan cannot come back empty. */
  lemma NeighborFromNonZero(g: seq<seq<int>>, cols: nat, c: Pos, p: Pos, clockwise: bool)
    requires Interior(g, cols, c) && Near(c, p) && p != c && At(g, p) != 0
    ensures Neighbor(g, cols, c, p, clockwise).Some?
  {
    var s := StartIndex(c, p);
    ProbeOrder(s, clockwise);
  }

  /**
   * The step of the border follower is injective once the previous pixel is non-zero:
   * two non-zero start pixels around one centre lead to the same next pixel only if
   * they are the same pixel.
   */
  lemma NeighborInjective(g: seq<seq<int>>, cols: nat, c: Pos, p: Pos, q: Pos, clockwise: bool)
    requires Interior(g, cols, c) && Near(c, p) && Near(c, q) && p != c && q != c
    requires At(g, p) != 0 && At(g, q) != 0
    requires Neighbor(g, cols, c, p, clockwise) == Neighbor(g, cols, c, q, clockwise)
    ensures p == q
  {
    var s, t := StartIndex(c, p), StartIndex(c, q);
    ProbeOrder(s, clockwise);
    ProbeOrder(t, clockwise);
    var h1 := FirstHit(g, cols, c, s, clockwise, 1);
    var h2 := FirstHit(g, cols, c, t, clockwise, 1);
    RingCellInjective(c, Probe(s, h1, clockwise), Probe(t, h2, clockwise));
    if h1 < h2 {
      ProbeShift(s, t, h1, h2, clockwise);
    } else if h2 < h1 {
      ProbeShift(t, s, h2, h1, clockwise);
    } else {
      ProbeShift(s, t, h1, h2, clockwise);
    }
  }

  // ---------------------------------------------------------------------------------------
  // BoardFollow's trace as a sequence of states
  // ---------------------------------------------------------------------------------------

  /** The region is at least 2 × 2, every row has `cols` cells, and its outer ring is background. */
  predicate Framed(g: seq<seq<int>>, cols: nat) {
    && IsGrid(g, cols) && |g| >= 2 && cols >= 2
    && forall i, j :: 0 <= i < |g| && 0 <= j < cols && (i == 0 || i == |g| - 1 || j == 0 || j == cols - 1) ==>
         g[i][j] == 0
  }

  /** In a framed grid every non-zero cell has all eight neighbours. */
  lemma FramedInterior(g: seq<seq<int>>, cols: nat, p: Pos)
    requires Framed(g, cols) && 0 <= p.x < |g| && 0 <= p.y < cols && At(g, p) != 0
    ensures Interior(g, cols, p)
  {
  }

  /** A state of the border follower: the current centre and the pixel it was entered from. */
  type State = (Pos, Pos)

  /** The state centred at (cx, cy) entered from the pixel at offset (dx, dy). */
  function StateAt(cx: int, cy: int, dx: int, dy: int): State {
    (Pos(cx, cy), Pos(cx + dx, cy + dy))
  }

  /** Every state whose centre lies in a rows × cols region: finitely many, which bounds any trace. */
  ghost function AllStates(rows: nat, cols: nat): set<State> {
    set cx, cy, dx, dy | 0 <= cx < rows && 0 <= cy < cols && -1 <= dx <= 1 && -1 <= dy <= 1 :: StateAt(cx, cy, dx, dy)
  }

  lemma InAllStates(s: State, rows: nat, cols: nat)
    requires 0 <= s.0.x < rows && 0 <= s.0.y < cols && Near(s.0, s.1)
    ensures s in AllStates(rows, cols)
  {
    var dx, dy := s.1.x - s.0.x, s.1.y - s.0.y;
    assert s == StateAt(s.0.x, s.0.y, dx, dy);
  }

  /** The follower's state `s` lies on a border: both of its pixels are non-zero and adjacent, the centre inside. */
  predicate OnBorder(g: seq<seq<int>>, cols: nat, s: State) {
    Interior(g, cols, s.0) && Near(s.0, s.1) && s.1 != s.0 && At(g, s.0) != 0 && At(g, s.1) != 0
  }

  /** One step of the follower: the found neighbour becomes the centre, the old centre the start. */
  function Step(g: seq<seq<int>>, cols: nat, s: State, clockwise: bool): (t: State)
    requires Interior(g, cols, s.0) && Near(s.0, s.1) && Neighbor(g, cols, s.0, s.1, clockwise).Some?
    ensures t.1 == s.0 && Near(t.0, t.1) && t.0 != t.1 && At(g, t.0) != 0
  {
    (Neighbor(g, cols, s.0, s.1, clockwise).value, s.0)
  }

  /**
   * `trail` lists, in order and without repetition, the states a trace over `g` seeded at
   * `center` from `start` has left, and `cur` is the state it is in now.
   */
  predicate Trail(g: seq<seq<int>>, cols: nat, trail: seq<State>, cur: State, center: Pos, start: Pos, clockwise: bool) {
    && Interior(g, cols, cur.0) && Near(cur.0, cur.1)
    && (trail == [] ==> cur == (center, start))
    && (trail != [] ==> trail[0] == (center, start) && cur.0 != center && OnBorder(g, cols, cur))
    && (forall k :: 1 <= k < |trail| ==> OnBorder(g, cols, trail[k]) && trail[k].0 != center)
    && (forall k :: 0 <= k < |trail| ==>
          Interior(g, cols, trail[k].0) && Near(trail[k].0, trail[k].1) && Neighbor(g, cols, trail[k].0, trail[k].1, clockwise).Some?)
    && (forall k :: 0 <= k < |trail| - 1 ==> trail[k + 1] == Step(g, cols, trail[k], clockwise))
    && (trail != [] ==> cur == Step(g, cols, trail[|trail| - 1], clockwise))
    && (forall a, b :: 0 <= a < b < |trail| ==> trail[a] != trail[b])
    && cur !in trail
  }

  /**
   * A trace that moves on from `cur` (its neighbour exists and is not the seed) extends its
   * trail and again is in a state it has not been in before.
   */
  lemma TrailStep(g: seq<seq<int>>, cols: nat, trail: seq<State>, cur: State, center: Pos, start: Pos, clockwise: bool)
    requires Framed(g, cols) && Interior(g, cols, center) && At(g, center) != 0
    requires Trail(g, cols, trail, cur, center, start, clockwise)
    requires Neighbor(g, cols, cur.0, cur.1, clockwise).Some? && Neighbor(g, cols, cur.0, cur.1, clockwise).value != center
    ensures Trail(g, cols, trail + [cur], Step(g, cols, cur, clockwise), center, start, clockwise)
  {
    var t := trail + [cur];
    var next := Step(g, cols, cur, clockwise);
    FramedInterior(g, cols, next.0);
    assert OnBorder(g, cols, next);
    assert t[0] == (center, start);
    TrailSnocStates(g, cols, trail, cur, center, start, clockwise);
    TrailSnocChain(g, cols, trail, cur, center, start, clockwise);
    forall k | 0 <= k < |t| ensures t[k] != next {
      if t[k] == next {
        StepNotBack(g, cols, trail, cur, center, start, clockwise, k);
      }
    }
  }

  /** Every state on the extended trail is in bounds with a successor, and all but the first lie on the border. */
  lemma TrailSnocStates(g: seq<seq<int>>, cols: nat, trail: seq<State>, cur: State, center: Pos, start: Pos, clockwise: bool)
    requires Trail(g, cols, trail, cur, center, start, clockwise) && Neighbor(g, cols, cur.0, cur.1, clockwise).Some?
    ensures forall k :: 1 <= k < |trail + [cur]| ==> OnBorder(g, cols, (trail + [cur])[k]) && (trail + [cur])[k].0 != center
    ensures forall k :: 0 <= k < |trail + [cur]| ==>
              var s := (trail + [cur])[k];
              Interior(g, cols, s.0) && Near(s.0, s.1) && Neighbor(g, cols, s.0, s.1, clockwise).Some?
  {
    var t := trail + [cur];
    forall k | 1 <= k < |t| ensures OnBorder(g, cols, t[k]) && t[k].0 != center {
      if k < |trail| {
        assert t[k] == trail[k];
      }
    }
    forall k | 0 <= k < |t|
      ensures Interior(g, cols, t[k].0) && Near(t[k].0, t[k].1) && Neighbor(g, cols, t[k].0, t[k].1, clockwise).Some?
    {
      if k < |trail| {
        assert t[k] == trail[k];
      }
    }
  }

  /** The extended trail is still a chain of steps without repetition. */
  lemma TrailSnocChain(g: seq<seq<int>>, cols: nat, trail: seq<State>, cur: State, center: Pos, start: Pos, clockwise: bool)
    requires Trail(g, cols, trail, cur, center, start, clockwise) && Neighbor(g, cols, cur.0, cur.1, clockwise).Some?
    ensures forall k :: 0 <= k < |trail + [cur]| - 1 ==>
              (trail + [cur])[k + 1] == Step(g, cols, (trail + [cur])[k], clockwise)
    ensures forall a, b :: 0 <= a < b < |trail + [cur]| ==> (trail + [cur])[a] != (trail + [cur])[b]
  {
    var t := trail + [cur];
    forall k | 0 <= k < |t| - 1 ensures t[k + 1] == Step(g, cols, t[k], clockwise) {
      assert t[k] == trail[k];
      if k + 1 < |trail| {
        assert t[k + 1] == trail[k + 1];
      } else {
        assert t[k + 1] == cur;
      }
    }
    forall a, b | 0 <= a < b < |t| ensures t[a] != t[b] {
      assert t[a] == trail[a];
    }
  }

  /** The state a trace moves into is none of the states on its extended trail. */
  lemma StepNotBack(g: seq<seq<int>>, cols: nat, trail: seq<State>, cur: State, center: Pos, start: Pos, clockwise: bool, k: nat)
    requires Interior(g, cols, center) && At(g, center) != 0
    requires Trail(g, cols, trail, cur, center, start, clockwise)
    requires Neighbor(g, cols, cur.0, cur.1, clockwise).Some? && Neighbor(g, cols, cur.0, cur.1, clockwise).value != center
    requires k <= |trail|
    ensures (trail + [cur])[k] != Step(g, cols, cur, clockwise)
  {
    var t := trail + [cur];
    var next := Step(g, cols, cur, clockwise);
    if k == 0 {
      if trail != [] {
        assert t[0] == (center, start);
      }
    } else if t[k] == next {
      assert t[k] == Step(g, cols, t[k - 1], clockwise);
      assert t[k - 1].0 == cur.0;
      if k - 1 != 0 {
        assert OnBorder(g, cols, t[k - 1]) && OnBorder(g, cols, cur);
        NeighborInjective(g, cols, cur.0, t[k - 1].1, cur.1, clockwise);
      }
    }
  }

  /** Consecutive cells of `b` are distinct neighbours. */
  predicate Chained(b: seq<Pos>) {
    forall k :: 0 <= k < |b| - 1 ==> Near(b[k], b[k + 1]) && b[k] != b[k + 1]
  }

  lemma ChainedSnoc(b: seq<Pos>, c: Pos)
    requires Chained(b) && (b != [] ==> Near(b[|b| - 1], c) && b[|b| - 1] != c)
    ensures Chained(b + [c])
  {
  }

  /**
   * `b` is the list of centres of a trace seeded at `center` over the grid `g0`: it starts at
   * the seed, keeps to cells with all eight neighbours, moves between distinct neighbouring
   * cells, and every later centre is a non-zero cell other than the seed.
   */
  predicate TracedPath(g0: seq<seq<int>>, cols: nat, b: seq<Pos>, center: Pos) {
    && (b != [] ==> b[0] == center)
    && (forall k :: 0 <= k < |b| ==> Interior(g0, cols, b[k]) && (k >= 1 ==> b[k] != center && At(g0, b[k]) != 0))
    && Chained(b)
  }

  lemma TracedSnoc(g0: seq<seq<int>>, cols: nat, b: seq<Pos>, c: Pos, center: Pos)
    requires TracedPath(g0, cols, b, center) && b != []
    requires Interior(g0, cols, c) && c != center && At(g0, c) != 0 && Near(b[|b| - 1], c) && b[|b| - 1] != c
    ensures TracedPath(g0, cols, b + [c], center)
  {
    ChainedSnoc(b, c);
  }

  /** The pixel the trace entered centre `b[k]` from: `start` for the seed, the centre before it otherwise. */
  function EnteredFrom(b: seq<Pos>, start: Pos, k: int): Pos
    requires 0 <= k < |b|
  {
    if k == 0 then start else b[k - 1]
  }

  /**
   * `b` is the list of centres FindNeighbor leads the follower through over `g`: the seed
   * first, each later centre the neighbour found around the one before it (scanning from
   * the pixel that one was entered from), and none of them the seed again.
   */
  predicate FollowedFrom(g: seq<seq<int>>, cols: nat, b: seq<Pos>, center: Pos, start: Pos, clockwise: bool) {
    && (b != [] ==> b[0] == center)
    && (forall k :: 1 <= k < |b| ==> b[k] != center)
    && (forall k :: 0 <= k < |b| ==> Interior(g, cols, b[k]) && Near(b[k], EnteredFrom(b, start, k)))
    && forall k :: 0 <= k < |b| - 1 ==> Neighbor(g, cols, b[k], EnteredFrom(b, start, k), clockwise) == Some(b[k + 1])
  }

  /** The trace `b` closes: the search around its last centre finds the seed. */
  predicate ClosesAt(g: seq<seq<int>>, cols: nat, b: seq<Pos>, center: Pos, start: Pos, clockwise: bool) {
    && FollowedFrom(g, cols, b, center, start, clockwise) && b != []
    && Neighbor(g, cols, b[|b| - 1], EnteredFrom(b, start, |b| - 1), clockwise) == Some(center)
  }

  /** Moving on to the neighbour found around the last centre extends the trace. */
  lemma FollowedSnoc(g: seq<seq<int>>, cols: nat, b: seq<Pos>, n: Pos, center: Pos, start: Pos, clockwise: bool)
    requires FollowedFrom(g, cols, b, center, start, clockwise) && b != []
    requires Interior(g, cols, n) && n != center
    requires Neighbor(g, cols, b[|b| - 1], EnteredFrom(b, start, |b| - 1), clockwise) == Some(n)
    ensures FollowedFrom(g, cols, b + [n], center, start, clockwise)
  {
    var b' := b + [n];
    forall k | 0 <= k < |b'| ensures EnteredFrom(b', start, k) == if k == |b| then b[|b| - 1] else EnteredFrom(b, start, k) {
    }
    assert Near(n, b[|b| - 1]);
  }

  /** `g` with cell `p` set to `v`. */
  function SetCell(g: seq<seq<int>>, p: Pos, v: int): (r: seq<seq<int>>)
    requires 0 <= p.x < |g| && 0 <= p.y < |g[p.x]|
  {
    g[p.x := g[p.x][p.y := v]]
  }

  /** `g` is `g0` with the seed cell overwritten by a non-zero value. */
  predicate SeedStamped(g: seq<seq<int>>, cols: nat, g0: seq<seq<int>>, center: Pos) {
    && |g| == |g0| && (forall i :: 0 <= i < |g| ==> |g[i]| == |g0[i]|)
    && Interior(g, cols, center) && At(g, center) != 0
    && forall i, j :: 0 <= i < |g| && 0 <= j < |g[i]| && Pos(i, j) != center ==> g[i][j] == g0[i][j]
  }

  /**
   * The follower's loop state over the grid `g` (the input `g0` with the seed stamped):
   * `trail` is the list of states left, `board` the list of centres left, `cur` the state
   * it is in, `nb` the result of scanning around it, and `visited` the set of states left.
   */
  ghost predicate Following(g: seq<seq<int>>, g0: seq<seq<int>>, cols: nat, trail: seq<State>, board: seq<Pos>,
                            cur: State, nb: Option<Pos>, visited: set<State>, center: Pos, start: Pos, clockwise: bool)
  {
    && Framed(g, cols) && SeedStamped(g, cols, g0, center)
    && Trail(g, cols, trail, cur, center, start, clockwise) && |board| == |trail| && TracedPath(g0, cols, board + [cur.0], center)
    && FollowedFrom(g, cols, board + [cur.0], center, start, clockwise) && cur.1 == EnteredFrom(board + [cur.0], start, |board|)
    && nb == Neighbor(g, cols, cur.0, cur.1, clockwise)
    && (forall s :: s in visited <==> s in trail) && visited <= AllStates(|g|, cols)
  }

  /** A grid that is `g0` with only the seed changed, to `v`, is `g0` with the seed set to `v`. */
  lemma SeedStampedIs(g: seq<seq<int>>, g0: seq<seq<int>>, cols: nat, center: Pos, v: int)
    requires SeedStamped(g, cols, g0, center) && At(g, center) == v
    ensures g == SetCell(g0, center, v)
  {
    var s := SetCell(g0, center, v);
    forall i | 0 <= i < |g| ensures g[i] == s[i] {
    }
  }

  /** A trace over the stamped grid is a trace over the grid before the seed was stamped. */
  lemma TracedOffSeed(g: seq<seq<int>>, g0: seq<seq<int>>, cols: nat, b: seq<Pos>, center: Pos)
    requires SeedStamped(g, cols, g0, center) && TracedPath(g, cols, b, center)
    ensures TracedPath(g0, cols, b, center)
  {
  }

  /** A seed whose scan finds nothing had only background around it before it was stamped. */
  lemma EmptyRingOffSeed(g: seq<seq<int>>, g0: seq<seq<int>>, cols: nat, center: Pos, start: Pos, clockwise: bool)
    requires SeedStamped(g, cols, g0, center) && Near(center, start) && Neighbor(g, cols, center, start, clockwise).None?
    ensures Interior(g0, cols, center)
    ensures forall k :: 0 <= k < 8 ==> At(g0, RingCell(center, k)) == 0
  {
    forall k | 0 <= k < 8 ensures At(g0, RingCell(center, k)) == 0 {
      var p := RingCell(center, k);
      assert At(g, p) == 0;
    }
  }

  /** The follower's first state, at the seed, is consistent. */
  lemma FollowStart(g: seq<seq<int>>, g0: seq<seq<int>>, cols: nat, center: Pos, start: Pos, clockwise: bool)
    requires Framed(g, cols) && SeedStamped(g, cols, g0, center) && Near(center, start) && IsGrid(g0, cols)
    ensures Following(g, g0, cols, [], [], (center, start), Neighbor(g, cols, center, start, clockwise), {},
                      center, start, clockwise)
  {
    assert [] + [center] == [center];
    assert Trail(g, cols, [], (center, start), center, start, clockwise);
    assert TracedPath(g0, cols, [center], center) && FollowedFrom(g, cols, [center], center, start, clockwise);
  }

  /** One turn of the follower's loop keeps its state consistent and enters a state not yet visited. */
  lemma FollowStep(g: seq<seq<int>>, g0: seq<seq<int>>, cols: nat, trail: seq<State>, board: seq<Pos>,
                   cur: State, nb: Option<Pos>, visited: set<State>, center: Pos, start: Pos, clockwise: bool)
    requires Following(g, g0, cols, trail, board, cur, nb, visited, center, start, clockwise)
    requires nb.Some? && nb.value != center
    ensures Interior(g, cols, nb.value) && Near(nb.value, cur.0)
    ensures Following(g, g0, cols, trail + [cur], board + [cur.0], (nb.value, cur.0),
                      Neighbor(g, cols, nb.value, cur.0, clockwise), visited + {cur}, center, start, clockwise)
    ensures cur !in visited && cur in AllStates(|g|, cols)
  {
    InAllStates(cur, |g|, cols);
    TrailStep(g, cols, trail, cur, center, start, clockwise);
    var n := nb.value;
    assert Interior(g, cols, n) && At(g0, n) != 0;
    TracedSnoc(g0, cols, board + [cur.0], n, center);
    FollowedSnoc(g, cols, board + [cur.0], n, center, start, clockwise);
  }

  /** A follower whose scan finds the seed again has traced a closed border. */
  lemma FollowClose(g: seq<seq<int>>, g0: seq<seq<int>>, cols: nat, trail: seq<State>, board: seq<Pos>,
                    cur: State, nb: Option<Pos>, visited: set<State>, center: Pos, start: Pos, clockwise: bool)
    requires Following(g, g0, cols, trail, board, cur, nb, visited, center, start, clockwise) && nb == Some(center)
    ensures TracedPath(g0, cols, board + [cur.0], center) && ClosesAt(g, cols, board + [cur.0], center, start, clockwise)
  {
  }

  /**
   * What BoardFollow promises about the trace `b` it stamps with `v`, seeded at `center` of `g0`
   * and scanned first from `start`: `b` lists the successive centres FindNeighbor leads through
   * on `g0` with the seed stamped, up to the one whose search finds the seed again (`closed`);
   * when the first search finds nothing, the seed is isolated and `b` is empty.
   */
  predicate TracedBorder(g0: seq<seq<int>>, cols: nat, b: seq<Pos>, closed: bool, center: Pos, start: Pos,
                         clockwise: bool, v: int)
  {
    && Interior(g0, cols, center) && TracedPath(g0, cols, b, center)
    && FollowedFrom(SetCell(g0, center, v), cols, b, center, start, clockwise)
    && (closed ==> ClosesAt(SetCell(g0, center, v), cols, b, center, start, clockwise))
    && (!closed ==> b == [] && forall k :: 0 <= k < 8 ==> At(g0, RingCell(center, k)) == 0)
  }

  /** A trace of the grid with the seed stamped is a TracedBorder of the grid before the stamp. */
  lemma BorderTraced(g: seq<seq<int>>, g0: seq<seq<int>>, cols: nat, b: seq<Pos>, closed: bool, center: Pos, start: Pos,
                     clockwise: bool)
    requires SeedStamped(g, cols, g0, center) && Near(center, start)
    requires TracedPath(g, cols, b, center) && FollowedFrom(g, cols, b, center, start, clockwise)
    requires closed ==> ClosesAt(g, cols, b, center, start, clockwise)
    requires !closed ==> b == [] && Neighbor(g, cols, center, start, clockwise).None?
    ensures TracedBorder(g0, cols, b, closed, center, start, clockwise, At(g, center))
  {
    SeedStampedIs(g, g0, cols, center, At(g, center));
    TracedOffSeed(g, g0, cols, b, center);
    if !closed {
      EmptyRingOffSeed(g, g0, cols, center, start, clockwise);
    }
  }

  /** A follower whose scan comes back empty has not left its first state. */
  lemma FollowEnd(g: seq<seq<int>>, g0: seq<seq<int>>, cols: nat, trail: seq<State>, board: seq<Pos>,
                  cur: State, nb: Option<Pos>, visited: set<State>, center: Pos, start: Pos, clockwise: bool)
    requires Following(g, g0, cols, trail, board, cur, nb, visited, center, start, clockwise) && nb.None?
    ensures board == [] && cur == (center, start)
  {
    if trail != [] {
      NeighborFromNonZero(g, cols, cur.0, cur.1, clockwise);
    }
  }

  // ---------------------------------------------------------------------------
  // RasterScan's effect as a relation between grid values
  // ---------------------------------------------------------------------------

  /**
   * `g` is `g0` with some non-zero cells overwritten by border ids in lo+1..hi: every cell
   * keeps its value, or was non-zero and now holds such an id.
   */
  predicate Restamped(g: seq<seq<int>>, g0: seq<seq<int>>, cols: nat, lo: int, hi: int) {
    && IsGrid(g, cols) && IsGrid(g0, cols) && |g| == |g0|
    && forall i, j :: 0 <= i < |g| && 0 <= j < cols ==> g[i][j] == g0[i][j] || (g0[i][j] != 0 && lo < g[i][j] <= hi)
  }

  /** With non-negative ids, restamping changes no zero cell into a non-zero one and vice versa. */
  lemma RestampedZeros(g: seq<seq<int>>, g0: seq<seq<int>>, cols: nat, lo: int, hi: int, p: Pos)
    requires Restamped(g, g0, cols, lo, hi) && lo >= 0 && 0 <= p.x < |g| && 0 <= p.y < cols
    ensures At(g, p) == 0 <==> At(g0, p) == 0
  {
  }

  /** With ids above 1, a cell holding 1 after restamping held 1 before. */
  lemma RestampedOne(g: seq<seq<int>>, g0: seq<seq<int>>, cols: nat, lo: int, hi: int, p: Pos)
    requires Restamped(g, g0, cols, lo, hi) && lo >= 1 && 0 <= p.x < |g| && 0 <= p.y < cols
    ensures At(g, p) == 1 ==> At(g0, p) == 1
  {
  }

  /** Restamping keeps the zero frame. */
  lemma RestampedFramed(g: seq<seq<int>>, g0: seq<seq<int>>, cols: nat, lo: int, hi: int)
    requires Restamped(g, g0, cols, lo, hi) && Framed(g0, cols)
    ensures Framed(g, cols)
  {
  }

  /** Restamping commutes with cutting away a margin. */
  lemma RestampedUnpad(g: seq<seq<int>>, g0: seq<seq<int>>, cols: nat, lo: int, hi: int, p: nat)
    requires Restamped(g, g0, cols, lo, hi) && |g| >= 2 * p && cols >= 2 * p
    ensures Restamped(UnpadGrid(g, cols, p), UnpadGrid(g0, cols, p), cols - 2 * p, lo, hi)
  {
    var u, u0 := UnpadGrid(g, cols, p), UnpadGrid(g0, cols, p);
    forall i, j | 0 <= i < |u| && 0 <= j < cols - 2 * p
      ensures u[i][j] == u0[i][j] || (u0[i][j] != 0 && lo < u[i][j] <= hi)
    {
      assert u[i][j] == g[i + p][j + p] && u0[i][j] == g0[i + p][j + p];
    }
  }

  /** `p` comes before `q` in RasterScan's row-major order. */
  predicate RasterBefore(p: Pos, q: Pos) {
    p.x < q.x || (p.x == q.x && p.y < q.y)
  }

  /**
   * The cell `p` of the grid `g0` starts a border of type `kind`: it holds 1, and either its
   * left neighbour is 0 (an outer border, "out") or else its right neighbour is 0 (a hole, "in").
   */
  predicate BorderStart(g0: seq<seq<int>>, cols: nat, p: Pos, kind: string) {
    && Interior(g0, cols, p) && At(g0, p) == 1
    && if At(g0, Pos(p.x, p.y - 1)) == 0 then kind == "out" else At(g0, Pos(p.x, p.y + 1)) == 0 && kind == "in"
  }

  /**
   * RasterScan's log before cell `q`: the starts found so far, each a border start of `g0`
   * of the logged type, strictly in scan order and all before `q`.
   */
  predicate ScanLog(g0: seq<seq<int>>, cols: nat, seeds: seq<Pos>, kinds: seq<string>, q: Pos) {
    && |kinds| == |seeds|
    && (forall k :: 0 <= k < |seeds| ==> BorderStart(g0, cols, seeds[k], kinds[k]) && RasterBefore(seeds[k], q))
    && (forall k :: 0 <= k < |seeds| - 1 ==> RasterBefore(seeds[k], seeds[k + 1]))
  }

  /** The row of the last logged start, or -1 when there is none. */
  function LastRow(seeds: seq<Pos>): int {
    if seeds == [] then -1 else seeds[|seeds| - 1].x
  }

  /** The log before `p` is a log before any later cell. */
  lemma ScanLogLater(g0: seq<seq<int>>, cols: nat, seeds: seq<Pos>, kinds: seq<string>, p: Pos, q: Pos)
    requires ScanLog(g0, cols, seeds, kinds, p) && (p.x < q.x || (p.x == q.x && p.y <= q.y))
    ensures ScanLog(g0, cols, seeds, kinds, q)
  {
  }

  /** Logging a start at `p` gives a log before the cell after `p`. */
  lemma ScanLogSnoc(g0: seq<seq<int>>, cols: nat, seeds: seq<Pos>, kinds: seq<string>, p: Pos, kind: string)
    requires ScanLog(g0, cols, seeds, kinds, p) && BorderStart(g0, cols, p, kind)
    ensures ScanLog(g0, cols, seeds + [p], kinds + [kind], Pos(p.x, p.y + 1))
  {
  }

  /**
   * Cell (i, j) of `g` starts no border: it does not hold 1, or it holds 1 between two non-zero
   * cells of its row.
   */
  predicate Settled(g: seq<seq<int>>, cols: nat, i: int, j: int)
    requires IsGrid(g, cols) && 0 <= i < |g| && 0 <= j < cols
  {
    g[i][j] == 1 ==> 0 < j < cols - 1 && g[i][j - 1] != 0 && g[i][j + 1] != 0
  }

  /** Every cell of `g` is settled: none is left as a border start. */
  predicate NoStartLeft(g: seq<seq<int>>, cols: nat) {
    && IsGrid(g, cols)
    && forall i, j :: 0 <= i < |g| && 0 <= j < cols ==> Settled(g, cols, i, j)
  }

  /** NoStartLeft for the cells before `q` in scan order: what RasterScan has settled when it reaches `q`. */
  predicate ScannedBefore(g: seq<seq<int>>, cols: nat, q: Pos) {
    && IsGrid(g, cols)
    && forall i, j :: 0 <= i < |g| && 0 <= j < cols && RasterBefore(Pos(i, j), q) ==> Settled(g, cols, i, j)
  }

  /** Restamping with ids above 1 keeps the settled cells settled: it writes no 1 and no zero. */
  lemma ScannedKept(g: seq<seq<int>>, g0: seq<seq<int>>, cols: nat, lo: int, hi: int, q: Pos)
    requires ScannedBefore(g0, cols, q) && Restamped(g, g0, cols, lo, hi) && lo >= 1
    ensures ScannedBefore(g, cols, q)
  {
    forall i, j | 0 <= i < |g| && 0 <= j < cols && RasterBefore(Pos(i, j), q)
      ensures Settled(g, cols, i, j)
    {
      assert Settled(g0, cols, i, j);
    }
  }

  /** A settled cell extends the settled part by one cell. */
  lemma ScannedStep(g: seq<seq<int>>, cols: nat, p: Pos)
    requires ScannedBefore(g, cols, p) && 0 <= p.x < |g| && 0 <= p.y < cols && Settled(g, cols, p.x, p.y)
    ensures ScannedBefore(g, cols, Pos(p.x, p.y + 1))
  {
  }

  /** The end of a row is the start of the next. */
  lemma ScannedRow(g: seq<seq<int>>, cols: nat, i: int)
    requires ScannedBefore(g, cols, Pos(i, cols))
    ensures ScannedBefore(g, cols, Pos(i + 1, 0))
  {
  }

  /** A framed grid settled to its end has, once its margin is cut off, no border start left. */
  lemma ScannedUnpad(g: seq<seq<int>>, cols: nat)
    requires Framed(g, cols) && ScannedBefore(g, cols, Pos(|g|, 0))
    ensures NoStartLeft(UnpadGrid(g, cols, 1), cols - 2)
  {
    var u := UnpadGrid(g, cols, 1);
    forall i, j | 0 <= i < |u| && 0 <= j < cols - 2 && u[i][j] == 1
      ensures 0 < j < cols - 3 && u[i][j - 1] != 0 && u[i][j + 1] != 0
    {
      assert g[i + 1][j + 1] == 1 && Settled(g, cols, i + 1, j + 1);
      assert g[i + 1][j] != 0 && g[i + 1][j + 2] != 0;
    }
  }

  // ---------------------------------------------------------------------------
  // RasterScan's history: one border per logged start
  // ---------------------------------------------------------------------------

  /**
   * The pixel RasterScan traces a start of type `kind` from: its left neighbour for an outer
   * border, its right one for a hole.
   */
  function EntryOf(p: Pos, kind: string): (e: Pos)
    ensures Near(p, e) && e.x == p.x && (e.y == p.y - 1 <==> kind == "out") && (e.y == p.y + 1 <==> kind != "out")
  {
    if kind == "out" then Pos(p.x, p.y - 1) else Pos(p.x, p.y + 1)
  }

  /**
   * `g1` is `g` after the border from `p` of type `kind` got the id `id`: its trace `b` is
   * followed from EntryOf(p, kind), counter-clockwise for an outer border and clockwise for a
   * hole, and the start and the centres of the trace hold `id` while every other cell is kept.
   */
  predicate BorderStamped(g: seq<seq<int>>, g1: seq<seq<int>>, cols: nat, p: Pos, kind: string, id: int,
                          b: seq<Pos>, closed: bool)
  {
    && IsGrid(g, cols) && IsGrid(g1, cols) && |g1| == |g|
    && TracedBorder(g, cols, b, closed, p, EntryOf(p, kind), kind == "in", id)
    && forall i, j :: 0 <= i < |g| && 0 <= j < cols ==> g1[i][j] == if Pos(i, j) == p || Pos(i, j) in b then id else g[i][j]
  }

  /** The id RasterScan gives the border of its k-th logged start (counting from 0). */
  function BorderId(nbd0: int, k: int): int {
    nbd0 + k + 1
  }

  /**
   * RasterScan's history after it logged the starts `seeds` of types `kinds`: `grids[0]` is the
   * region it began with, and each `grids[k + 1]` is `grids[k]` after the border from `seeds[k]`,
   * a border start of `grids[k]`, got the id BorderId(nbd0, k); its trace is `paths[k]`, closed or
   * not as `closeds[k]` says.
   */
  predicate ScanHistory(g0: seq<seq<int>>, cols: nat, nbd0: int, seeds: seq<Pos>, kinds: seq<string>,
                        grids: seq<seq<seq<int>>>, paths: seq<seq<Pos>>, closeds: seq<bool>)
  {
    && |kinds| == |seeds| && |grids| == |seeds| + 1 && |paths| == |seeds| && |closeds| == |seeds| && grids[0] == g0
    && forall k {:trigger paths[k]} :: 0 <= k < |seeds| ==>
         && BorderStart(grids[k], cols, seeds[k], kinds[k])
         && BorderStamped(grids[k], grids[k + 1], cols, seeds[k], kinds[k], BorderId(nbd0, k), paths[k], closeds[k])
  }

  /**
   * RasterScan passed no start without logging it: every cell it reached after the start
   * `seeds[k - 1]` and before `seeds[k]` (or, after the last start, before `q`) was settled in
   * `grids[k]`, the region as it stood then.
   */
  predicate ScanComplete(cols: nat, seeds: seq<Pos>, grids: seq<seq<seq<int>>>, q: Pos) {
    && |grids| == |seeds| + 1
    && forall k, i, j {:trigger Settled(grids[k], cols, i, j)} :: 0 <= k < |grids| && IsGrid(grids[k], cols) && 0 <= i < |grids[k]| && 0 <= j < cols
         && (k == 0 || RasterBefore(seeds[k - 1], Pos(i, j)))
         && RasterBefore(Pos(i, j), if k < |seeds| then seeds[k] else q)
         ==> Settled(grids[k], cols, i, j)
  }

  /** The type RasterScan logs for a start at (i, j): outer when its left neighbour is 0, else a hole. */
  function StartKind(g: seq<seq<int>>, cols: nat, i: int, j: int): (kind: string)
    requires IsGrid(g, cols) && 0 <= i < |g| && 0 <= j < cols
    ensures kind == "out" <==> 0 < j && g[i][j - 1] == 0
    ensures kind == "out" || kind == "in"
  {
    if 0 < j && g[i][j - 1] == 0 then "out" else "in"
  }

  /**
   * RasterScan's step at cell (i, j) of `g`, leading to `g1`: a settled cell is passed over and
   * nothing changes; any other cell is a border start of `g`, logged with its type, and its
   * border gets the id `id`.
   */
  predicate CellStep(g: seq<seq<int>>, g1: seq<seq<int>>, cols: nat, i: int, j: int, id: int,
                     seeds0: seq<Pos>, kinds0: seq<string>, seeds: seq<Pos>, kinds: seq<string>, b: seq<Pos>, closed: bool)
    requires IsGrid(g, cols) && 0 <= i < |g| && 0 <= j < cols
  {
    if Settled(g, cols, i, j) then g1 == g && seeds == seeds0 && kinds == kinds0
    else
      && seeds == seeds0 + [Pos(i, j)] && kinds == kinds0 + [StartKind(g, cols, i, j)]
      && BorderStart(g, cols, Pos(i, j), StartKind(g, cols, i, j))
      && BorderStamped(g, g1, cols, Pos(i, j), StartKind(g, cols, i, j), id, b, closed)
  }

  /** A start logged at (i, j), with its stamped border, extends the history by one border. */
  lemma HistoryTake(g0: seq<seq<int>>, cols: nat, nbd0: int, seeds: seq<Pos>, kinds: seq<string>,
                    grids: seq<seq<seq<int>>>, paths: seq<seq<Pos>>, closeds: seq<bool>, i: int, j: int,
                    g1: seq<seq<int>>, seeds1: seq<Pos>, kinds1: seq<string>, b: seq<Pos>, closed: bool)
    requires ScanHistory(g0, cols, nbd0, seeds, kinds, grids, paths, closeds)
    requires IsGrid(grids[|seeds|], cols) && 0 <= i < |grids[|seeds|]| && 0 <= j < cols && !Settled(grids[|seeds|], cols, i, j)
    requires CellStep(grids[|seeds|], g1, cols, i, j, BorderId(nbd0, |seeds|), seeds, kinds, seeds1, kinds1, b, closed)
    ensures ScanHistory(g0, cols, nbd0, seeds1, kinds1, grids + [g1], paths + [b], closeds + [closed])
  {
    var grids1, paths1, closeds1 := grids + [g1], paths + [b], closeds + [closed];
    assert |seeds1| == |seeds| + 1 && |kinds| == |seeds|;
    forall k | 0 <= k < |seeds1|
      ensures BorderStart(grids1[k], cols, seeds1[k], kinds1[k])
      ensures BorderStamped(grids1[k], grids1[k + 1], cols, seeds1[k], kinds1[k], BorderId(nbd0, k), paths1[k], closeds1[k])
    {
      if k < |seeds| {
        assert paths1[k] == paths[k] && closeds1[k] == closeds[k] && seeds1[k] == seeds[k] && kinds1[k] == kinds[k];
        assert grids1[k] == grids[k] && grids1[k + 1] == grids[k + 1];
      } else {
        assert grids1[k] == grids[|seeds|] && grids1[k + 1] == g1 && seeds1[k] == Pos(i, j) && kinds1[k] == StartKind(grids[|seeds|], cols, i, j);
        assert k == |seeds| && paths1[k] == b && closeds1[k] == closed;
      }
    }
  }

  /** A settled cell extends the completed part of the scan by one cell. */
  lemma CompletePass(cols: nat, seeds: seq<Pos>, grids: seq<seq<seq<int>>>, p: Pos)
    requires ScanComplete(cols, seeds, grids, p) && IsGrid(grids[|seeds|], cols)
    requires 0 <= p.x < |grids[|seeds|]| && 0 <= p.y < cols && Settled(grids[|seeds|], cols, p.x, p.y)
    ensures ScanComplete(cols, seeds, grids, Pos(p.x, p.y + 1))
  {
    forall k, i, j | 0 <= k < |grids| && IsGrid(grids[k], cols) && 0 <= i < |grids[k]| && 0 <= j < cols
         && (k == 0 || RasterBefore(seeds[k - 1], Pos(i, j)))
         && RasterBefore(Pos(i, j), if k < |seeds| then seeds[k] else Pos(p.x, p.y + 1))
      ensures Settled(grids[k], cols, i, j)
    {
      if k < |seeds| || Pos(i, j) != p {
        assert RasterBefore(Pos(i, j), if k < |seeds| then seeds[k] else p);
        assert Settled(grids[k], cols, i, j);
      } else {
        assert k == |seeds| && i == p.x && j == p.y;
      }
    }
  }

  /** Logging the start `p` ends the stretch before it; the next one begins after `p`. */
  lemma CompleteTake(cols: nat, seeds: seq<Pos>, grids: seq<seq<seq<int>>>, p: Pos, g1: seq<seq<int>>)
    requires ScanComplete(cols, seeds, grids, p)
    ensures ScanComplete(cols, seeds + [p], grids + [g1], Pos(p.x, p.y + 1))
  {
    var seeds1, grids1 := seeds + [p], grids + [g1];
    forall k, i, j | 0 <= k < |grids1| && IsGrid(grids1[k], cols) && 0 <= i < |grids1[k]| && 0 <= j < cols
         && (k == 0 || RasterBefore(seeds1[k - 1], Pos(i, j)))
         && RasterBefore(Pos(i, j), if k < |seeds1| then seeds1[k] else Pos(p.x, p.y + 1))
      ensures Settled(grids1[k], cols, i, j)
    {
      assert k <= |seeds|;
      assert grids1[k] == grids[k] && (k > 0 ==> seeds1[k - 1] == seeds[k - 1]);
      assert RasterBefore(Pos(i, j), if k < |seeds| then seeds[k] else p);
    }
  }

  /**
   * RasterScan's step at cell (i, j) extends its history and its completed part by that cell:
   * by the border logged there, if any, and the region `g1` the step leaves.
   */
  lemma ScanGrow(g0: seq<seq<int>>, cols: nat, nbd0: int, seeds: seq<Pos>, kinds: seq<string>,
                 grids: seq<seq<seq<int>>>, paths: seq<seq<Pos>>, closeds: seq<bool>, i: int, j: int,
                 g1: seq<seq<int>>, seeds1: seq<Pos>, kinds1: seq<string>, b: seq<Pos>, closed: bool)
    returns (grids1: seq<seq<seq<int>>>, paths1: seq<seq<Pos>>, closeds1: seq<bool>)
    requires ScanHistory(g0, cols, nbd0, seeds, kinds, grids, paths, closeds) && ScanComplete(cols, seeds, grids, Pos(i, j))
    requires IsGrid(grids[|seeds|], cols) && 0 <= i < |grids[|seeds|]| && 0 <= j < cols
    requires CellStep(grids[|seeds|], g1, cols, i, j, BorderId(nbd0, |seeds|), seeds, kinds, seeds1, kinds1, b, closed)
    ensures ScanHistory(g0, cols, nbd0, seeds1, kinds1, grids1, paths1, closeds1)
    ensures ScanComplete(cols, seeds1, grids1, Pos(i, j + 1)) && grids1[|seeds1|] == g1
  {
    if Settled(grids[|seeds|], cols, i, j) {
      grids1, paths1, closeds1 := grids, paths, closeds;
      CompletePass(cols, seeds, grids, Pos(i, j));
    } else {
      grids1, paths1, closeds1 := grids + [g1], paths + [b], closeds + [closed];
      HistoryTake(g0, cols, nbd0, seeds, kinds, grids, paths, closeds, i, j, g1, seeds1, kinds1, b, closed);
      CompleteTake(cols, seeds, grids, Pos(i, j), g1);
    }
  }

  /** The end of a row is the start of the next in the completed part of the scan. */
  lemma CompleteRow(cols: nat, seeds: seq<Pos>, grids: seq<seq<seq<int>>>, i: int)
    requires ScanComplete(cols, seeds, grids, Pos(i, cols))
    ensures ScanComplete(cols, seeds, grids, Pos(i + 1, 0))
  {
    forall k, a, b | 0 <= k < |grids| && IsGrid(grids[k], cols) && 0 <= a < |grids[k]| && 0 <= b < cols
         && (k == 0 || RasterBefore(seeds[k - 1], Pos(a, b)))
         && RasterBefore(Pos(a, b), if k < |seeds| then seeds[k] else Pos(i + 1, 0))
      ensures Settled(grids[k], cols, a, b)
    {
      assert RasterBefore(Pos(a, b), if k < |seeds| then seeds[k] else Pos(i, cols));
    }
  }

  /** The rows × cols region of `g`, as a grid value. */
  ghost function Region(g: array2<int>, rows: nat, cols: nat): (c: seq<seq<int>>)
    reads g
    requires rows <= g.Length0 && cols <= g.Length1
    ensures |c| == rows && IsGrid(c, cols)
    ensures forall i, j {:trigger c[i][j]} :: 0 <= i < rows && 0 <= j < cols ==> c[i][j] == g[i, j]
  {
    if rows == 0 then [] else Region(g, rows - 1, cols) + [Row(g, rows - 1, cols)]
  }

  /** The first `n` cells of row `i` of `g`. */
  ghost function Row(g: array2<int>, i: nat, n: nat): (r: seq<int>)
    reads g
    requires i < g.Length0 && n <= g.Length1
    ensures |r| == n && forall j {:trigger r[j]} :: 0 <= j < n ==> r[j] == g[i, j]
  {
    if n == 0 then [] else Row(g, i, n - 1) + [g[i, n - 1]]
  }

  /** A buffer whose region agrees with `c` cell by cell has `c` as its region. */
  lemma RegionIs(g: array2<int>, rows: nat, cols: nat, c: seq<seq<int>>)
    requires rows <= g.Length0 && cols <= g.Length1 && |c| == rows && IsGrid(c, cols)
    requires forall a, b :: 0 <= a < rows && 0 <= b < cols ==> g[a, b] == c[a][b]
    ensures Region(g, rows, cols) == c
  {
    var r := Region(g, rows, cols);
    forall a | 0 <= a < rows ensures r[a] == c[a] {
    }
  }

  /** Clears every cell of a freshly rented buffer. */
  method ZeroFill(a: array2<int>)
    modifies a
    ensures forall i, j :: 0 <= i < a.Length0 && 0 <= j < a.Length1 ==> a[i, j] == 0
  {
    for i := 0 to a.Length0
      invariant forall x, y :: 0 <= x < i && 0 <= y < a.Length1 ==> a[x, y] == 0
    {
      for j := 0 to a.Length1
        invariant forall x, y :: 0 <= x < i && 0 <= y < a.Length1 ==> a[x, y] == 0
        invariant forall y :: 0 <= y < j ==> a[i, y] == 0
      {
        a[i, j] := 0;
      }
    }
  }

  /** Pad's buffer: a fresh grid holding the region of `src` behind a zero margin of `p` cells. */
  method PaddedBuffer(src: array2<int>, rows: nat, cols: nat, p: nat) returns (dst: array2<int>)
    requires rows <= src.Length0 && cols <= src.Length1
    ensures fresh(dst) && dst.Length0 == rows + 2 * p && dst.Length1 == cols + 2 * p
    ensures forall a, b :: 0 <= a < dst.Length0 && 0 <= b < dst.Length1 && !(p <= a < rows + p && p <= b < cols + p) ==>
              dst[a, b] == 0
    ensures forall a, b :: 0 <= a < rows && 0 <= b < cols ==> dst[a + p, b + p] == src[a, b]
  {
    var newRows := rows + 2 * p;
    var newCols := cols + 2 * p;
    dst := new int[newRows, newCols];
    ZeroFill(dst);
    for i := 0 to rows
      invariant forall a, b :: 0 <= a < newRows && 0 <= b < newCols && !(p <= a < i + p && p <= b < cols + p) ==>
                  dst[a, b] == 0
      invariant forall a, b :: 0 <= a < i && 0 <= b < cols ==> dst[a + p, b + p] == src[a, b]
    {
      for j := 0 to cols
        invariant forall a, b :: (0 <= a < newRows && 0 <= b < newCols && !(p <= a < i + p && p <= b < cols + p)
                    && !(a == i + p && p <= b < j + p)) ==> dst[a, b] == 0
        invariant forall a, b :: 0 <= a < i && 0 <= b < cols ==> dst[a + p, b + p] == src[a, b]
        invariant forall b :: 0 <= b < j ==> dst[i + p, b + p] == src[i, b]
      {
        dst[i + p, j + p] := src[i, j];
      }
    }
  }

  /** A buffer holding `before` behind a zero margin of `p` cells has the padded grid as its region. */
  lemma PaddedRegion(dst: array2<int>, before: seq<seq<int>>, cols: nat, p: nat)
    requires IsGrid(before, cols) && dst.Length0 == |before| + 2 * p && dst.Length1 == cols + 2 * p
    requires forall a, b :: 0 <= a < dst.Length0 && 0 <= b < dst.Length1 && !(p <= a < |before| + p && p <= b < cols + p) ==>
               dst[a, b] == 0
    requires forall a, b :: 0 <= a < |before| && 0 <= b < cols ==> dst[a + p, b + p] == before[a][b]
    ensures Region(dst, |before| + 2 * p, cols + 2 * p) == PadGrid(before, cols, p)
  {
    var d := PadGrid(before, cols, p);
    forall a, b | 0 <= a < |before| + 2 * p && 0 <= b < cols + 2 * p ensures dst[a, b] == d[a][b] {
      if p <= a < |before| + p && p <= b < cols + p {
        assert d[(a - p) + p][(b - p) + p] == before[a - p][b - p];
      }
    }
    RegionIs(dst, |before| + 2 * p, cols + 2 * p, d);
  }

  /** RmPad's buffer: a fresh grid holding the region of `src` without its outer `p` cells. */
  method UnpaddedBuffer(src: array2<int>, rows: nat, cols: nat, p: nat) returns (dst: array2<int>)
    requires rows <= src.Length0 && cols <= src.Length1 && rows >= 2 * p && cols >= 2 * p
    ensures fresh(dst) && dst.Length0 == rows - 2 * p && dst.Length1 == cols - 2 * p
    ensures forall a, b :: 0 <= a < dst.Length0 && 0 <= b < dst.Length1 ==> dst[a, b] == src[a + p, b + p]
  {
    var newRows := rows - 2 * p;
    var newCols := cols - 2 * p;
    dst := new int[newRows, newCols];
    ZeroFill(dst);
    for i := 0 to newRows
      invariant forall a, b :: 0 <= a < i && 0 <= b < newCols ==> dst[a, b] == src[a + p, b + p]
    {
      for j := 0 to cols - 2 * p
        invariant forall a, b :: 0 <= a < i && 0 <= b < newCols ==> dst[a, b] == src[a + p, b + p]
        invariant forall b :: 0 <= b < j ==> dst[i, b] == src[i + p, b + p]
      {
        dst[i, j] := src[i + p, j + p];
      }
    }
  }

  /**
   * The tracer (class FindContours): a grid buffer of which the first `rows` × `cols`
   * cells are in use, the current and last border ids, and the log of border types
   * indexed by border id.
   */
  class FindContours {
    var grid: array2<int>
    var rows: nat
    var cols: nat
    var LNBD: int
    var NBD: int
    var boardType: seq<string>

    /** The region in use fits the buffer (pooled rows may be longer than asked for). */
    ghost predicate Valid()
      reads this
    {
      rows <= grid.Length0 && cols <= grid.Length1
    }

    /** The region in use, as a grid value. */
    ghost function Cells(): (c: seq<seq<int>>)
      reads this, grid
      requires Valid()
      ensures |c| == rows && IsGrid(c, cols)
    {
      Region(grid, rows, cols)
    }

    /** A cell strictly inside the region. */
    ghost predicate Inner(c: Pos)
      reads this
    {
      1 <= c.x < rows - 1 && 1 <= c.y < cols - 1
    }

    constructor ()
      ensures Valid() && Framed(Cells(), cols) && fresh(grid)
      ensures rows == 2 && cols == 2 && NBD == 1 && LNBD == 1
      ensures boardType == [" ", "in"]
    {
      grid := new int[0, 0];
      rows, cols := 0, 0;
      LNBD, NBD := 1, 1;
      boardType := [" ", "in"];
      new;
      Reset();
    }

    /** Copies the region in use into the first rows × cols cells of `buf` (the source's `map`). */
    method CopyToMap(buf: array2<int>)
      requires Valid() && rows <= buf.Length0 && cols <= buf.Length1
      modifies buf
      ensures Region(buf, rows, cols) == old(Cells())
      ensures forall i, j :: 0 <= i < buf.Length0 && 0 <= j < buf.Length1 && !(i < rows && j < cols) ==>
                buf[i, j] == old(buf[i, j])
    {
      for i := 0 to rows
        invariant forall a, b :: 0 <= a < buf.Length0 && 0 <= b < buf.Length1 ==>
                    buf[a, b] == if a < i && b < cols then old(grid[a, b]) else old(buf[a, b])
        invariant forall a, b :: 0 <= a < grid.Length0 && 0 <= b < grid.Length1 && !(a < i && b < cols) ==>
                    grid[a, b] == old(grid[a, b])
      {
        for j := 0 to cols
          invariant forall a, b :: 0 <= a < buf.Length0 && 0 <= b < buf.Length1 ==>
                      buf[a, b] == if (a < i && b < cols) || (a == i && b < j) then old(grid[a, b]) else old(buf[a, b])
          invariant forall a, b :: 0 <= a < grid.Length0 && 0 <= b < grid.Length1 && !(a < i && b < cols) && !(a == i && b < j) ==>
                      grid[a, b] == old(grid[a, b])
        {
          buf[i, j] := grid[i, j];
        }
      }
      RegionIs(buf, rows, cols, old(Cells()));
    }

    /** Adopts the first rows × cols cells of `buf` (the source's `map`), pads them by one cell and resets the border ids. */
    method MapLoader(buf: array2<int>, rows: nat, cols: nat)
      requires rows <= buf.Length0 && cols <= buf.Length1
      modifies this
      ensures Valid() && Framed(Cells(), this.cols) && fresh(grid)
      ensures this.rows == rows + 2 * PadSize && this.cols == cols + 2 * PadSize
      ensures Cells() == PadGrid(old(Region(buf, rows, cols)), cols, PadSize)
      ensures NBD == 1 && LNBD == 1 && boardType == old(boardType)
    {
      this.grid := buf;
      this.rows := rows;
      this.cols := cols;
      Reset();
    }

    /** Pads the region by PadSize and resets both border ids to 1. */
    method Reset()
      requires Valid()
      modifies this
      ensures Valid() && Framed(Cells(), cols) && fresh(grid)
      ensures rows == old(rows) + 2 * PadSize && cols == old(cols) + 2 * PadSize
      ensures Cells() == PadGrid(old(Cells()), old(cols), PadSize)
      ensures NBD == 1 && LNBD == 1 && boardType == old(boardType)
    {
      Pad(PadSize);
      LNBD := 1;
      NBD := 1;
      assert forall i, j :: 0 <= i < rows && 0 <= j < cols ==> grid[i, j] == Cells()[i][j];
    }

    /** Replaces the region by a fresh one `padSize` cells larger on every side, with a zero margin. */
    method Pad(padSize: nat)
      requires Valid()
      modifies this
      ensures Valid() && fresh(grid)
      ensures rows == old(rows) + 2 * padSize && cols == old(cols) + 2 * padSize
      ensures Cells() == PadGrid(old(Cells()), old(cols), padSize)
      ensures NBD == old(NBD) && LNBD == old(LNBD) && boardType == old(boardType)
    {
      ghost var before := Cells();
      var gridPad := PaddedBuffer(grid, rows, cols, padSize);
      grid := gridPad;
      rows := rows + 2 * padSize;
      cols := cols + 2 * padSize;
      PaddedRegion(grid, before, old(cols), padSize);
    }

    /** Replaces the region by a fresh one without its outer `padSize` cells. */
    method RmPad(padSize: nat)
      requires Valid() && rows >= 2 * padSize && cols >= 2 * padSize
      modifies this
      ensures Valid() && fresh(grid)
      ensures rows == old(rows) - 2 * padSize && cols == old(cols) - 2 * padSize
      ensures Cells() == UnpadGrid(old(Cells()), old(cols), padSize)
      ensures NBD == old(NBD) && LNBD == old(LNBD) && boardType == old(boardType)
    {
      ghost var after := UnpadGrid(Cells(), cols, padSize);
      var gridRm := UnpaddedBuffer(grid, rows, cols, padSize);
      grid := gridRm;
      rows := rows - 2 * padSize;
      cols := cols - 2 * padSize;
      RegionIs(grid, rows, cols, after);
    }

    /** Inside the region, the class's notion of an inner cell and the grid's agree. */
    lemma InnerInterior(c: Pos)
      requires Valid() && Inner(c)
      ensures Interior(Cells(), cols, c)
    {
    }

    /** FindNeighbor: walks the ring of `center` from just after `start`, returning the first non-zero cell. */
    method FindNeighbor(center: Pos, start: Pos, clockwise: bool) returns (r: Option<Pos>)
      requires Valid() && Inner(center) && Near(center, start)
      ensures Interior(Cells(), cols, center) && r == Neighbor(Cells(), cols, center, start, clockwise)
    {
      InnerInterior(center);
      ghost var g := Cells();
      var startInd := Index[start.x - center.x + 1][start.y - center.y + 1];
      assert startInd == StartIndex(center, start);
      for i := 1 to |Neighbors| + 1
        invariant FirstHit(g, cols, center, startInd, clockwise, i) == FirstHit(g, cols, center, startInd, clockwise, 1)
      {
        var curInd := Probe(startInd, i, clockwise);
        var x := center.x + Neighbors[curInd].0 - 1;
        var y := center.y + Neighbors[curInd].1 - 1;
        assert Pos(x, y) == RingCell(center, curInd);
        if grid[x, y] != 0 {
          return Some(Pos(x, y));
        }
      }
      return None;
    }

    /** Writes `NBD` into every cell of `board`. */
    method StampBoard(board: seq<Pos>)
      requires forall k :: 0 <= k < |board| ==> 0 <= board[k].x < grid.Length0 && 0 <= board[k].y < grid.Length1
      modifies grid
      ensures forall i, j :: 0 <= i < grid.Length0 && 0 <= j < grid.Length1 ==>
                grid[i, j] == if Pos(i, j) in board then NBD else old(grid[i, j])
    {
      for k := 0 to |board|
        invariant forall i, j :: 0 <= i < grid.Length0 && 0 <= j < grid.Length1 ==>
                    grid[i, j] == if Pos(i, j) in board[..k] then NBD else old(grid[i, j])
      {
        grid[board[k].x, board[k].y] := NBD;
        assert board[..k + 1] == board[..k] + [board[k]];
      }
      assert board[..|board|] == board;
    }

    /** Stamping the seed of a framed region keeps it framed and changes only the seed. */
    lemma StampedSeed(g0: seq<seq<int>>, center: Pos)
      requires Valid() && Framed(g0, cols) && |g0| == rows && Inner(center) && NBD != 0
      requires grid[center.x, center.y] == NBD
      requires forall i, j :: 0 <= i < rows && 0 <= j < cols && Pos(i, j) != center ==> grid[i, j] == g0[i][j]
      ensures Framed(Cells(), cols) && SeedStamped(Cells(), cols, g0, center)
    {
    }

    /** Writes NBD into the seed: the region stays framed and no other cell changes. */
    method StampSeed(center: Pos)
      requires Valid() && Framed(Cells(), cols) && Inner(center) && NBD != 0
      modifies grid
      ensures Valid() && Framed(Cells(), cols) && SeedStamped(Cells(), cols, old(Cells()), center) && At(Cells(), center) == NBD
      ensures forall i, j :: 0 <= i < grid.Length0 && 0 <= j < grid.Length1 ==>
                grid[i, j] == if Pos(i, j) == center then NBD else old(grid[i, j])
    {
      ghost var g0 := Cells();
      InnerInterior(center);
      grid[center.x, center.y] := NBD;
      StampedSeed(g0, center);
    }

    /**
     * The loop of BoardFollow: follows the border through the (already stamped) seed, starting
     * the ring scan after `start`, until the scan finds the seed again (`closed`) or finds
     * nothing, and lists the centres it passed in `board`.
     */
    method Follow(center: Pos, start: Pos, clockwise: bool) returns (board: seq<Pos>, ghost closed: bool)
      requires Valid() && Framed(Cells(), cols) && Inner(center) && Near(center, start) && At(Cells(), center) != 0
      ensures TracedPath(Cells(), cols, board, center) && FollowedFrom(Cells(), cols, board, center, start, clockwise)
      ensures closed ==> ClosesAt(Cells(), cols, board, center, start, clockwise)
      ensures !closed ==> board == [] && Neighbor(Cells(), cols, center, start, clockwise).None?
    {
      ghost var g := Cells();
      assert SeedStamped(g, cols, g, center);
      board := [];
      var newCenter := center;
      var neighbor := start;
      var newNeighbor := FindNeighbor(newCenter, neighbor, clockwise);
      ghost var trail: seq<State> := [];
      ghost var visited: set<State> := {};
      FollowStart(g, g, cols, center, start, clockwise);
      closed := false;
      while newNeighbor.Some?
        invariant Cells() == g
        invariant Following(g, g, cols, trail, board, (newCenter, neighbor), newNeighbor, visited, center, start, clockwise)
        decreases AllStates(rows, cols) - visited
      {
        if newNeighbor.value == center {
          FollowClose(g, g, cols, trail, board, (newCenter, neighbor), newNeighbor, visited, center, start, clockwise);
          board := board + [newCenter];
          closed := true;
          return;
        }
        FollowStep(g, g, cols, trail, board, (newCenter, neighbor), newNeighbor, visited, center, start, clockwise);
        board := board + [newCenter];
        trail := trail + [(newCenter, neighbor)];
        visited := visited + {(newCenter, neighbor)};
        neighbor := newCenter;
        newCenter := newNeighbor.value;
        newNeighbor := FindNeighbor(newCenter, neighbor, clockwise);
      }
      FollowEnd(g, g, cols, trail, board, (newCenter, neighbor), newNeighbor, visited, center, start, clockwise);
    }

    /**
     * BoardFollow: stamps the seed with NBD, follows the border through it and then stamps
     * every centre the trace passed. `path` lists those centres and `closed` says whether
     * the scan found the seed again.
     */
    method BoardFollow(center: Pos, start: Pos, clockwise: bool) returns (ghost path: seq<Pos>, ghost closed: bool)
      requires Valid() && Framed(Cells(), cols) && Inner(center) && Near(center, start) && NBD != 0
      modifies grid
      ensures forall i, j :: 0 <= i < grid.Length0 && 0 <= j < grid.Length1 ==>
                grid[i, j] == if Pos(i, j) == center || Pos(i, j) in path then NBD else old(grid[i, j])
      ensures TracedBorder(old(Cells()), cols, path, closed, center, start, clockwise, NBD)
    {
      ghost var g0 := Cells();
      StampSeed(center);
      label Stamped:
      ghost var g := Cells();
      var board;
      board, closed := Follow(center, start, clockwise);
      BorderTraced(g, g0, cols, board, closed, center, start, clockwise);
      assert TracedBorder(g0, cols, board, closed, center, start, clockwise, NBD);
      StampBoard(board);
      path := board;
      forall i, j | 0 <= i < grid.Length0 && 0 <= j < grid.Length1
        ensures grid[i, j] == if Pos(i, j) == center || Pos(i, j) in path then NBD else old(grid[i, j])
      {
        assert grid[i, j] == if Pos(i, j) in path then NBD else old@Stamped(grid[i, j]);
        assert old@Stamped(grid[i, j]) == if Pos(i, j) == center then NBD else old(grid[i, j]);
      }
    }

    /** A non-zero cell of a framed region is an inner cell. */
    lemma NonZeroInner(i: int, j: int)
      requires Valid() && Framed(Cells(), cols) && 0 <= i < rows && 0 <= j < cols
      ensures grid[i, j] != 0 ==> Inner(Pos(i, j))
    {
      assert grid[i, j] == Cells()[i][j];
    }

    /** The stamps of one BoardFollow call from a cell that held 1 keep the region restamped from `g0`. */
    lemma Restamp(g0: seq<seq<int>>, g1: seq<seq<int>>, center: Pos, path: seq<Pos>, lo: int)
      requires Valid() && Restamped(g1, g0, cols, lo, NBD) && |g1| == rows && lo < NBD
      requires TracedPath(g1, cols, path, center) && Inner(center) && At(g1, center) == 1
      requires forall i, j :: 0 <= i < rows && 0 <= j < cols ==>
                 grid[i, j] == if Pos(i, j) == center || Pos(i, j) in path then NBD else g1[i][j]
      ensures Restamped(Cells(), g0, cols, lo, NBD)
    {
      var g := Cells();
      forall i, j | 0 <= i < rows && 0 <= j < cols
        ensures g[i][j] == g0[i][j] || (g0[i][j] != 0 && lo < g[i][j] <= NBD)
      {
        if Pos(i, j) in path && Pos(i, j) != center {
          var k :| 0 <= k < |path| && path[k] == Pos(i, j);
          assert At(g1, path[k]) != 0;
        }
      }
    }

    /**
     * RasterScan's state on reaching cell `q` of the padded region, which held `g0` when the scan
     * began with ids up to `nbd0` and types `bt0`: the region is `g0` restamped with ids above
     * `nbd0`, one id and one type per logged start, the log `seeds`/`kinds` holds the border
     * starts of `g0` before `q`, and no cell before `q` still starts a border.
     */
    ghost predicate ScanState(g0: seq<seq<int>>, nbd0: int, bt0: seq<string>, seeds: seq<Pos>, kinds: seq<string>, q: Pos)
      reads this, grid
    {
      && Valid() && Framed(g0, cols) && nbd0 >= 1 && Restamped(Cells(), g0, cols, nbd0, NBD)
      && NBD == nbd0 + |seeds| && boardType == bt0 + kinds && ScanLog(g0, cols, seeds, kinds, q)
      && ScannedBefore(Cells(), cols, q)
    }

    /** At the end of the scan the region is still framed and the last start lies above the bottom row. */
    lemma ScanDone(g0: seq<seq<int>>, nbd0: int, bt0: seq<string>, seeds: seq<Pos>, kinds: seq<string>)
      requires ScanState(g0, nbd0, bt0, seeds, kinds, Pos(rows, 0))
      ensures Framed(Cells(), cols) && ScannedBefore(Cells(), cols, Pos(|Cells()|, 0))
      ensures LastRow(seeds) < rows - 1
      ensures forall k :: 0 <= k < |seeds| ==> BorderStart(g0, cols, seeds[k], kinds[k])
      ensures forall k :: 0 <= k < |seeds| - 1 ==> RasterBefore(seeds[k], seeds[k + 1])
    {
      RestampedFramed(Cells(), g0, cols, nbd0, NBD);
      if seeds != [] {
        assert BorderStart(g0, cols, seeds[|seeds| - 1], kinds[|seeds| - 1]);
      }
    }

    /** A cell that starts no border moves the scan on by one cell. */
    lemma ScanStatePass(g0: seq<seq<int>>, nbd0: int, bt0: seq<string>, seeds: seq<Pos>, kinds: seq<string>, p: Pos)
      requires ScanState(g0, nbd0, bt0, seeds, kinds, p) && 0 <= p.x < rows && 0 <= p.y < cols
      requires grid[p.x, p.y] == 1 ==> Inner(p) && grid[p.x, p.y - 1] != 0 && grid[p.x, p.y + 1] != 0
      ensures ScanState(g0, nbd0, bt0, seeds, kinds, Pos(p.x, p.y + 1))
    {
      ScanLogLater(g0, cols, seeds, kinds, p, Pos(p.x, p.y + 1));
      assert Cells()[p.x][p.y] == grid[p.x, p.y];
      assert Settled(Cells(), cols, p.x, p.y) by {
        if grid[p.x, p.y] == 1 {
          assert Cells()[p.x][p.y - 1] == grid[p.x, p.y - 1] && Cells()[p.x][p.y + 1] == grid[p.x, p.y + 1];
        }
      }
      ScannedStep(Cells(), cols, p);
    }

    /** The end of a row moves the scan on to the next row. */
    lemma ScanStateRow(g0: seq<seq<int>>, nbd0: int, bt0: seq<string>, seeds: seq<Pos>, kinds: seq<string>, i: int)
      requires ScanState(g0, nbd0, bt0, seeds, kinds, Pos(i, cols))
      ensures ScanState(g0, nbd0, bt0, seeds, kinds, Pos(i + 1, 0))
    {
      ScanLogLater(g0, cols, seeds, kinds, Pos(i, cols), Pos(i + 1, 0));
      ScannedRow(Cells(), cols, i);
    }

    /**
     * RasterScan: scans the padded region row by row; a cell holding 1 whose left neighbour is 0
     * starts an outer border, and otherwise one whose right neighbour is 0 starts a hole. Each start
     * takes the next border id, is traced by BoardFollow and logs its type; then the padding is
     * removed. `seeds` lists the starts in scan order and `kinds` their types; `grids` is the
     * padded region before the scan and after each start, `paths` and `closeds` the traces.
     * Every cell the scan passed without a start was settled when it was reached, no start is
     * left untraced, and LNBD ends at 1 because the last row of the padded region is background.
     */
    method RasterScan() returns (ghost seeds: seq<Pos>, ghost kinds: seq<string>, ghost grids: seq<seq<seq<int>>>,
                                 ghost paths: seq<seq<Pos>>, ghost closeds: seq<bool>)
      requires Valid() && Framed(Cells(), cols) && NBD >= 1 && |boardType| == NBD + 1
      modifies this, grid
      ensures Valid() && fresh(grid)
      ensures rows == old(rows) - 2 * PadSize && cols == old(cols) - 2 * PadSize
      ensures ScanHistory(old(Cells()), old(cols), old(NBD), seeds, kinds, grids, paths, closeds)
      ensures ScanComplete(old(cols), seeds, grids, Pos(old(rows), 0))
      ensures |grids[|seeds|]| == old(rows) && IsGrid(grids[|seeds|], old(cols))
      ensures Cells() == UnpadGrid(grids[|seeds|], old(cols), PadSize)
      ensures Restamped(Cells(), UnpadGrid(old(Cells()), old(cols), PadSize), cols, old(NBD), NBD)
      ensures NoStartLeft(Cells(), cols)
      ensures NBD == old(NBD) + |seeds| && |kinds| == |seeds| && boardType == old(boardType) + kinds
      ensures |boardType| == NBD + 1
      ensures forall k :: 0 <= k < |seeds| ==> BorderStart(old(Cells()), old(cols), seeds[k], kinds[k])
      ensures forall k :: 0 <= k < |seeds| - 1 ==> RasterBefore(seeds[k], seeds[k + 1])
      ensures LNBD == 1
    {
      ghost var g0 := Cells();
      seeds, kinds, grids, paths, closeds := ScanRows(g0, NBD);
      FinishScan(g0, old(NBD), old(boardType), seeds, kinds);
    }

    /** The end of RasterScan: with every start traced, the padding is removed. */
    method FinishScan(ghost g0: seq<seq<int>>, ghost nbd0: int, ghost bt0: seq<string>, ghost seeds: seq<Pos>,
                      ghost kinds: seq<string>)
      requires ScanState(g0, nbd0, bt0, seeds, kinds, Pos(rows, 0))
      requires rows > 0 ==> LNBD == if LastRow(seeds) == rows - 1 then NBD - 1 else 1
      modifies this
      ensures Valid() && fresh(grid)
      ensures rows == old(rows) - 2 * PadSize && cols == old(cols) - 2 * PadSize
      ensures Cells() == UnpadGrid(old(Cells()), old(cols), PadSize)
      ensures Restamped(Cells(), UnpadGrid(g0, old(cols), PadSize), cols, nbd0, NBD)
      ensures NoStartLeft(Cells(), cols)
      ensures NBD == old(NBD) && boardType == old(boardType) && LNBD == 1
      ensures forall k :: 0 <= k < |seeds| ==> BorderStart(g0, old(cols), seeds[k], kinds[k])
      ensures forall k :: 0 <= k < |seeds| - 1 ==> RasterBefore(seeds[k], seeds[k + 1])
    {
      ScanDone(g0, nbd0, bt0, seeds, kinds);
      ghost var scanned := Cells();
      ScannedUnpad(scanned, cols);
      RmPad(PadSize);
      RestampedUnpad(scanned, g0, old(cols), nbd0, NBD, PadSize);
    }

    /**
     * RasterScan's pass over the padded region, row by row: it logs every border start it
     * reaches, with the history of the region after each border, and passes over settled
     * cells only.
     */
    method ScanRows(ghost g0: seq<seq<int>>, ghost nbd0: int)
      returns (ghost seeds: seq<Pos>, ghost kinds: seq<string>, ghost grids: seq<seq<seq<int>>>,
               ghost paths: seq<seq<Pos>>, ghost closeds: seq<bool>)
      requires Valid() && Framed(Cells(), cols) && NBD >= 1 && |boardType| == NBD + 1
      requires g0 == Cells() && nbd0 == NBD
      modifies this, grid
      ensures rows == old(rows) && cols == old(cols) && grid == old(grid)
      ensures ScanState(g0, nbd0, old(boardType), seeds, kinds, Pos(rows, 0))
      ensures ScanHistory(g0, cols, nbd0, seeds, kinds, grids, paths, closeds)
      ensures ScanComplete(cols, seeds, grids, Pos(rows, 0)) && Cells() == grids[|seeds|]
      ensures rows > 0 ==> LNBD == if LastRow(seeds) == rows - 1 then NBD - 1 else 1
    {
      seeds, kinds, grids, paths, closeds := [], [], [g0], [], [];
      for i := 0 to rows
        invariant rows == old(rows) && cols == old(cols) && grid == old(grid)
        invariant ScanState(g0, nbd0, old(boardType), seeds, kinds, Pos(i, 0))
        invariant ScanHistory(g0, cols, nbd0, seeds, kinds, grids, paths, closeds)
        invariant ScanComplete(cols, seeds, grids, Pos(i, 0)) && Cells() == grids[|seeds|]
        invariant i > 0 ==> LNBD == if LastRow(seeds) == i - 1 then NBD - 1 else 1
      {
        seeds, kinds, grids, paths, closeds := ScanRow(i, g0, nbd0, old(boardType), seeds, kinds, grids, paths, closeds);
      }
    }

    /**
     * Row `i` of RasterScan: resets LNBD and handles every cell of the row in order, extending
     * the log of starts `seeds0`, their types `kinds0` and the history `grids0`, `paths0`,
     * `closeds0` by the starts of the row. Afterwards no cell of the row still starts a border,
     * every cell of the row passed over was settled when it was reached, and LNBD is the id NBD
     * held before the row's last start, or 1 when the row has none.
     */
    method ScanRow(i: nat, ghost g0: seq<seq<int>>, ghost nbd0: int, ghost bt0: seq<string>,
                   ghost seeds0: seq<Pos>, ghost kinds0: seq<string>, ghost grids0: seq<seq<seq<int>>>,
                   ghost paths0: seq<seq<Pos>>, ghost closeds0: seq<bool>)
      returns (ghost seeds: seq<Pos>, ghost kinds: seq<string>, ghost grids: seq<seq<seq<int>>>,
               ghost paths: seq<seq<Pos>>, ghost closeds: seq<bool>)
      requires i < rows && ScanState(g0, nbd0, bt0, seeds0, kinds0, Pos(i, 0))
      requires ScanHistory(g0, cols, nbd0, seeds0, kinds0, grids0, paths0, closeds0)
      requires ScanComplete(cols, seeds0, grids0, Pos(i, 0)) && Cells() == grids0[|seeds0|]
      modifies this, grid
      ensures rows == old(rows) && cols == old(cols) && grid == old(grid)
      ensures ScanState(g0, nbd0, bt0, seeds, kinds, Pos(i + 1, 0))
      ensures ScanHistory(g0, cols, nbd0, seeds, kinds, grids, paths, closeds)
      ensures ScanComplete(cols, seeds, grids, Pos(i + 1, 0)) && Cells() == grids[|seeds|]
      ensures LNBD == if LastRow(seeds) == i then NBD - 1 else 1
    {
      LNBD := 1;
      seeds, kinds, grids, paths, closeds := seeds0, kinds0, grids0, paths0, closeds0;
      for j := 0 to cols
        invariant rows == old(rows) && cols == old(cols) && grid == old(grid)
        invariant ScanState(g0, nbd0, bt0, seeds, kinds, Pos(i, j))
        invariant ScanHistory(g0, cols, nbd0, seeds, kinds, grids, paths, closeds)
        invariant ScanComplete(cols, seeds, grids, Pos(i, j)) && Cells() == grids[|seeds|]
        invariant LNBD == if LastRow(seeds) == i then NBD - 1 else 1
      {
        seeds, kinds, grids, paths, closeds := ScanStep(i, j, g0, nbd0, bt0, seeds, kinds, grids, paths, closeds);
      }
      ScanStateRow(g0, nbd0, bt0, seeds, kinds, i);
      CompleteRow(cols, seeds, grids, i);
    }

    /** ScanCell at cell (i, j), with the history of the scan extended by what it did. */
    method ScanStep(i: nat, j: nat, ghost g0: seq<seq<int>>, ghost nbd0: int, ghost bt0: seq<string>,
                    ghost seeds0: seq<Pos>, ghost kinds0: seq<string>, ghost grids0: seq<seq<seq<int>>>,
                    ghost paths0: seq<seq<Pos>>, ghost closeds0: seq<bool>)
      returns (ghost seeds: seq<Pos>, ghost kinds: seq<string>, ghost grids: seq<seq<seq<int>>>,
               ghost paths: seq<seq<Pos>>, ghost closeds: seq<bool>)
      requires i < rows && j < cols && ScanState(g0, nbd0, bt0, seeds0, kinds0, Pos(i, j))
      requires ScanHistory(g0, cols, nbd0, seeds0, kinds0, grids0, paths0, closeds0)
      requires ScanComplete(cols, seeds0, grids0, Pos(i, j)) && Cells() == grids0[|seeds0|]
      modifies this, grid
      ensures rows == old(rows) && cols == old(cols) && grid == old(grid)
      ensures ScanState(g0, nbd0, bt0, seeds, kinds, Pos(i, j + 1))
      ensures ScanHistory(g0, cols, nbd0, seeds, kinds, grids, paths, closeds)
      ensures ScanComplete(cols, seeds, grids, Pos(i, j + 1)) && Cells() == grids[|seeds|]
      ensures (seeds == seeds0 && LNBD == old(LNBD) && NBD == old(NBD)) || (LastRow(seeds) == i && LNBD == NBD - 1)
    {
      ghost var g := Cells();
      ghost var path, closed;
      seeds, kinds, path, closed := ScanCell(i, j, g0, nbd0, bt0, seeds0, kinds0);
      assert !Settled(g, cols, i, j) ==> NBD == BorderId(nbd0, |seeds0|);
      grids, paths, closeds := ScanGrow(g0, cols, nbd0, seeds0, kinds0, grids0, paths0, closeds0, i, j,
                                        Cells(), seeds, kinds, path, closed);
    }

    /**
     * Cell (i, j) of RasterScan: an outer border start (the cell holds 1 and its left neighbour is 0)
     * or else a hole start (it holds 1 and its right neighbour is 0) is taken by TakeStart; any other
     * cell, a settled one, is passed over and nothing changes.
     */
    method ScanCell(i: nat, j: nat, ghost g0: seq<seq<int>>, ghost nbd0: int, ghost bt0: seq<string>,
                    ghost seeds0: seq<Pos>, ghost kinds0: seq<string>)
      returns (ghost seeds: seq<Pos>, ghost kinds: seq<string>, ghost path: seq<Pos>, ghost closed: bool)
      requires i < rows && j < cols && ScanState(g0, nbd0, bt0, seeds0, kinds0, Pos(i, j))
      modifies this, grid
      ensures rows == old(rows) && cols == old(cols) && grid == old(grid)
      ensures ScanState(g0, nbd0, bt0, seeds, kinds, Pos(i, j + 1))
      ensures CellStep(old(Cells()), Cells(), cols, i, j, NBD, seeds0, kinds0, seeds, kinds, path, closed)
      ensures (seeds == seeds0 && LNBD == old(LNBD) && NBD == old(NBD)) || (LastRow(seeds) == i && LNBD == NBD - 1)
    {
      RestampedFramed(Cells(), g0, cols, nbd0, NBD);
      NonZeroInner(i, j);
      ghost var g := Cells();
      assert g[i][j] == grid[i, j];
      if grid[i, j] == 1 && (grid[i, j - 1] == 0 || grid[i, j + 1] == 0) {
        assert g[i][j - 1] == grid[i, j - 1] && g[i][j + 1] == grid[i, j + 1];
        seeds, kinds, path, closed := TakeStart(Pos(i, j), grid[i, j - 1] == 0, g0, nbd0, bt0, seeds0, kinds0);
      } else {
        seeds, kinds, path, closed := seeds0, kinds0, [], false;
        ScanStatePass(g0, nbd0, bt0, seeds, kinds, Pos(i, j));
        assert Settled(g, cols, i, j) by {
          if grid[i, j] == 1 {
            assert g[i][j - 1] == grid[i, j - 1] && g[i][j + 1] == grid[i, j + 1];
          }
        }
      }
    }

    /**
     * A border start `center` of RasterScan: an outer border (`outer`, its left neighbour is 0),
     * traced counter-clockwise from that neighbour, or a hole, traced clockwise from its right
     * neighbour. NewBorder stamps it and its trace `path` with the new id and its type is logged;
     * afterwards it no longer starts a border.
     */
    method TakeStart(center: Pos, outer: bool, ghost g0: seq<seq<int>>, ghost nbd0: int,
                     ghost bt0: seq<string>, ghost seeds0: seq<Pos>, ghost kinds0: seq<string>)
      returns (ghost seeds: seq<Pos>, ghost kinds: seq<string>, ghost path: seq<Pos>, ghost closed: bool)
      requires Inner(center) && ScanState(g0, nbd0, bt0, seeds0, kinds0, center)
      requires grid[center.x, center.y] == 1 && outer == (grid[center.x, center.y - 1] == 0)
      requires !outer ==> grid[center.x, center.y + 1] == 0
      modifies this, grid
      ensures rows == old(rows) && cols == old(cols) && grid == old(grid)
      ensures ScanState(g0, nbd0, bt0, seeds, kinds, Pos(center.x, center.y + 1))
      ensures seeds == seeds0 + [center] && kinds == kinds0 + [if outer then "out" else "in"]
      ensures LastRow(seeds) == center.x && LNBD == old(NBD) && NBD == old(NBD) + 1
      ensures BorderStart(old(Cells()), cols, center, kinds[|kinds0|])
      ensures BorderStamped(old(Cells()), Cells(), cols, center, kinds[|kinds0|], NBD, path, closed)
    {
      var kind := if outer then "out" else "in";
      ScanStart(g0, nbd0, center, kind);
      ghost var before := Cells();
      path, closed := NewBorder(center, kind, g0, nbd0);
      ScannedKept(Cells(), before, cols, NBD - 1, NBD, center);
      assert Cells()[center.x][center.y] == NBD;
      ScannedStep(Cells(), cols, center);
      ScanLogSnoc(g0, cols, seeds0, kinds0, center, kind);
      seeds, kinds := seeds0 + [center], kinds0 + [kind];
    }

    /**
     * One border start of RasterScan: takes the next border id and traces the border of type `kind`
     * from `center` with BoardFollow, from its left neighbour counter-clockwise for an outer border
     * ("out") and from its right neighbour clockwise for a hole ("in"), then logs the type. `path`
     * lists the centres the trace passed and `closed` says whether it found the seed again.
     */
    method NewBorder(center: Pos, kind: string, ghost g0: seq<seq<int>>, ghost lo: int)
      returns (ghost path: seq<Pos>, ghost closed: bool)
      requires Valid() && Framed(g0, cols) && Restamped(Cells(), g0, cols, lo, NBD) && lo >= 1 && NBD >= lo
      requires Inner(center) && At(Cells(), center) == 1
      modifies this, grid
      ensures grid == old(grid) && rows == old(rows) && cols == old(cols)
      ensures LNBD == old(NBD) && NBD == old(NBD) + 1 && boardType == old(boardType) + [kind]
      ensures Valid() && Restamped(Cells(), g0, cols, lo, NBD) && Restamped(Cells(), old(Cells()), cols, old(NBD), NBD)
      ensures forall i, j :: 0 <= i < grid.Length0 && 0 <= j < grid.Length1 ==>
                grid[i, j] == if Pos(i, j) == center || Pos(i, j) in path then NBD else old(grid[i, j])
      ensures BorderStamped(old(Cells()), Cells(), cols, center, kind, NBD, path, closed)
    {
      RestampedFramed(Cells(), g0, cols, lo, NBD);
      LNBD := NBD;
      NBD := NBD + 1;
      ghost var g1 := Cells();
      path, closed := BoardFollow(center, EntryOf(center, kind), kind == "in");
      Restamp(g0, g1, center, path, lo);
      Restamp(g1, g1, center, path, NBD - 1);
      boardType := boardType + [kind];
      forall i, j | 0 <= i < rows && 0 <= j < cols
        ensures Cells()[i][j] == if Pos(i, j) == center || Pos(i, j) in path then NBD else g1[i][j]
      {
      }
    }

    /** A start RasterScan finds on the restamped region is a border start of the region it began with. */
    lemma ScanStart(g0: seq<seq<int>>, lo: int, p: Pos, kind: string)
      requires Valid() && Restamped(Cells(), g0, cols, lo, NBD) && lo >= 1 && |g0| == rows && Inner(p)
      requires grid[p.x, p.y] == 1
      requires kind == (if grid[p.x, p.y - 1] == 0 then "out" else "in")
      requires kind == "in" ==> grid[p.x, p.y + 1] == 0
      ensures BorderStart(Cells(), cols, p, kind) && BorderStart(g0, cols, p, kind)
    {
      var g := Cells();
      assert g[p.x][p.y] == grid[p.x, p.y] && g[p.x][p.y - 1] == grid[p.x, p.y - 1] && g[p.x][p.y + 1] == grid[p.x, p.y + 1];
      RestampedOne(g, g0, cols, lo, NBD, p);
      RestampedZeros(g, g0, cols, lo, NBD, Pos(p.x, p.y - 1));
      RestampedZeros(g, g0, cols, lo, NBD, Pos(p.x, p.y + 1));
    }
  }
}
