/**
 * Path-planning rules around the A* search (systems/astar.go): following
 * a cached path waypoint by waypoint, deciding whether a cached path is
 * still usable, the collision radius used to pick a size class, the open
 * set's index bookkeeping, the nearest-open-cell search, path
 * simplification and the same-cell shortcut of FindPath. The search loop
 * itself is a parameter.
 */
module AStar {
  import opened SimMath
  import opened Wrappers
  import NavGrid

  datatype Position = Position(x: real, y: real)

  /** A cached path: waypoints, the next one to head for, where the target was, and when the path was made. */
  datatype PathCache = PathCache(waypoints: seq<Position>, index: int, targetX: real, targetY: real, validTick: int)

  /** Squared distance between two points. */
  function SqDist(ax: real, ay: real, bx: real, bY: real): real
  {
    Sq(ax - bx) + Sq(ay - bY)
  }

  /** What GetNextWaypoint returns: where to head, whether more waypoints follow, and the updated cache. */
  datatype Next = Next(x: real, y: real, hasMore: bool, cache: Option<PathCache>)

  /**
   * GetNextWaypoint: without a cache, or with every waypoint used, head
   * for the current position with nothing more to come. Otherwise the
   * index moves on by one exactly when the organism is within the arrival
   * distance of the current waypoint; the waypoint returned is the one
   * now indexed (or the last, once the path is used up), and more follow
   * exactly when the index is before the last waypoint.
   */
  function GetNextWaypoint(cache: Option<PathCache>, posX: real, posY: real, arrivalDist: real): (r: Next)
    requires cache.Some? ==> cache.value.index >= 0
    ensures cache.None? || cache.value.index >= |cache.value.waypoints| ==> r == Next(posX, posY, false, cache)
    ensures cache.Some? && cache.value.index < |cache.value.waypoints| ==>
      var c := cache.value;
      var wp := c.waypoints[c.index];
      var arrived := SqDist(wp.x, wp.y, posX, posY) < Sq(arrivalDist);
      r.cache.Some? && r.cache.value == c.(index := if arrived then c.index + 1 else c.index) &&
      (r.hasMore <==> r.cache.value.index < |c.waypoints| - 1) &&
      (r.cache.value.index < |c.waypoints| ==> Position(r.x, r.y) == c.waypoints[r.cache.value.index]) &&
      (r.cache.value.index == |c.waypoints| ==> Position(r.x, r.y) == wp)
  {
    if cache.None? || cache.value.index >= |cache.value.waypoints| then Next(posX, posY, false, cache)
    else
      var c := cache.value;
      var wp := c.waypoints[c.index];
      if SqDist(wp.x, wp.y, posX, posY) < Sq(arrivalDist) then
        var c' := c.(index := c.index + 1);
        if c'.index >= |c.waypoints| then Next(wp.x, wp.y, false, Some(c'))
        else
          var next := c.waypoints[c'.index];
          Next(next.x, next.y, c'.index < |c.waypoints| - 1, Some(c'))
      else Next(wp.x, wp.y, c.index < |c.waypoints| - 1, cache)
  }

  /**
   * Standing on the current waypoint always moves the index on, as long as
   * the arrival radius is not zero (the squared radius is what is compared).
   */
  lemma ArrivalAdvances(c: PathCache, arrivalDist: real)
    requires 0 <= c.index < |c.waypoints| && Sq(arrivalDist) > 0.0
    ensures var wp := c.waypoints[c.index];
      GetNextWaypoint(Some(c), wp.x, wp.y, arrivalDist).cache == Some(c.(index := c.index + 1))
  {
    var wp := c.waypoints[c.index];
    SelfDistance(wp.x, wp.y);
  }

  lemma SelfDistance(x: real, y: real)
    ensures SqDist(x, y, x, y) == 0.0
  {
  }

  /**
   * When more waypoints follow, the updated cache still has a waypoint to
   * head for on the next call: hasMore never promises a used-up path.
   */
  lemma HasMoreLeavesAWaypoint(cache: Option<PathCache>, posX: real, posY: real, arrivalDist: real)
    requires cache.Some? ==> cache.value.index >= 0
    ensures var r := GetNextWaypoint(cache, posX, posY, arrivalDist);
      r.hasMore ==> r.cache.Some? && 0 <= r.cache.value.index < |r.cache.value.waypoints| - 1
  {
  }

  /** The index never moves backward and never passes the end of the path. */
  lemma IndexMonotone(c: PathCache, posX: real, posY: real, arrivalDist: real)
    requires 0 <= c.index <= |c.waypoints|
    ensures var r := GetNextWaypoint(Some(c), posX, posY, arrivalDist);
      r.cache.Some? && c.index <= r.cache.value.index <= |c.waypoints| &&
      r.cache.value.index <= c.index + 1 && r.cache.value.waypoints == c.waypoints
  {
  }

  /** The most a target may move before a cached path is stale: 32 pixels. */
  const TargetSlack: real := 32.0

  /** Every waypoint from the current index on lies in an open cell. */
  predicate RemainingClear(g: NavGrid.Grid, c: PathCache)
    requires NavGrid.Valid(g) && c.index >= 0
  {
    forall i :: c.index <= i < |c.waypoints| ==> !NavGrid.IsBlockedWorld(g, c.waypoints[i].x, c.waypoints[i].y)
  }

  /**
   * IsPathValid: a path is usable exactly when it exists and is non-empty,
   * is at most maxAge ticks old, its target has moved at most 32 pixels,
   * and no remaining waypoint is blocked in the size class's grid.
   */
  method IsPathValid(s: NavGrid.GridSet, cache: Option<PathCache>, targetX: real, targetY: real,
                     currentTick: int, sc: NavGrid.SizeClass, maxAge: int) returns (ok: bool)
    requires NavGrid.ValidSet(s) && (cache.Some? ==> cache.value.index >= 0)
    ensures ok <==> (cache.Some? && |cache.value.waypoints| > 0 &&
                     currentTick - cache.value.validTick <= maxAge &&
                     SqDist(targetX, targetY, cache.value.targetX, cache.value.targetY) <= Sq(TargetSlack) &&
                     RemainingClear(NavGrid.GetGrid(s, sc), cache.value))
  {
    if cache.None? || |cache.value.waypoints| == 0 {
      return false;
    }
    var c := cache.value;
    if currentTick - c.validTick > maxAge {
      return false;
    }
    if SqDist(targetX, targetY, c.targetX, c.targetY) > Sq(TargetSlack) {
      return false;
    }
    var g := NavGrid.GetGrid(s, sc);
    var i := c.index;
    while i < |c.waypoints|
      invariant c.index <= i
      invariant forall j :: c.index <= j < i && j < |c.waypoints| ==>
        !NavGrid.IsBlockedWorld(g, c.waypoints[j].x, c.waypoints[j].y)
    {
      if NavGrid.IsBlockedWorld(g, c.waypoints[i].x, c.waypoints[i].y) {
        return false;
      }
      i := i + 1;
    }
    return true;
  }

  /** A collision box's half extents. */
  datatype OBB = OBB(halfWidth: real, halfHeight: real)

  /**
   * GetCollisionRadius: the larger half extent of a box with any positive
   * extent, otherwise three cells.
   */
  function GetCollisionRadius(obb: Option<OBB>, cellSize: real): (r: real)
    ensures obb.Some? && (obb.value.halfWidth > 0.0 || obb.value.halfHeight > 0.0) ==>
      r > 0.0 && r >= obb.value.halfWidth && r >= obb.value.halfHeight &&
      (r == obb.value.halfWidth || r == obb.value.halfHeight)
    ensures !(obb.Some? && (obb.value.halfWidth > 0.0 || obb.value.halfHeight > 0.0)) ==> r == 3.0 * cellSize
  {
    if obb.Some? && (obb.value.halfWidth > 0.0 || obb.value.halfHeight > 0.0) then
      if obb.value.halfWidth > obb.value.halfHeight then obb.value.halfWidth else obb.value.halfHeight
    else cellSize * 3.0
  }

  /** An open-set node: its cell, its priority f and its position in the heap. */
  datatype Node = Node(gx: int, gy: int, f: real, index: int)

  /** What the heap orders and stores, without the position bookkeeping. */
  datatype Key = Key(gx: int, gy: int, f: real)

  function KeyOf(n: Node): Key
  {
    Key(n.gx, n.gy, n.f)
  }

  function Keys(h: seq<Node>): (ks: seq<Key>)
    ensures |ks| == |h| && forall k :: 0 <= k < |h| ==> ks[k] == KeyOf(h[k])
  {
    seq(|h|, k requires 0 <= k < |h| => KeyOf(h[k]))
  }

  /** Every node records its own position in the heap. */
  predicate Indexed(h: seq<Node>)
  {
    forall k :: 0 <= k < |h| ==> h[k].index == k
  }

  /** Less: the heap orders by f, smallest first. */
  function Less(h: seq<Node>, i: int, j: int): (b: bool)
    requires 0 <= i < |h| && 0 <= j < |h|
    ensures b ==> !(h[j].f < h[i].f)
    ensures i == j ==> !b
  {
    h[i].f < h[j].f
  }

  /** Swap: exchanges two nodes and rewrites both positions; the heap's contents are a permutation of before. */
  function Swap(h: seq<Node>, i: int, j: int): (r: seq<Node>)
    requires 0 <= i < |h| && 0 <= j < |h|
    ensures |r| == |h|
    ensures Indexed(h) ==> Indexed(r)
    ensures KeyOf(r[i]) == KeyOf(h[j]) && KeyOf(r[j]) == KeyOf(h[i])
    ensures forall k :: 0 <= k < |h| && k != i && k != j ==> r[k] == h[k]
    ensures multiset(Keys(r)) == multiset(Keys(h))
  {
    var r := h[i := h[j].(index := i)][j := h[i].(index := j)];
    assert Keys(r) == Keys(h)[i := KeyOf(h[j])][j := KeyOf(h[i])];
    r
  }

  /** Push: appends a node, recording its position. */
  function Push(h: seq<Node>, n: Node): (r: seq<Node>)
    ensures |r| == |h| + 1 && r[..|h|] == h && KeyOf(r[|h|]) == KeyOf(n)
    ensures Indexed(h) ==> Indexed(r)
    ensures multiset(Keys(r)) == multiset(Keys(h)) + multiset{KeyOf(n)}
  {
    var r := h + [n.(index := |h|)];
    assert Keys(r) == Keys(h) + [KeyOf(n)];
    r
  }

  /** Pop: removes the last node and marks it as out of the heap. */
  function Pop(h: seq<Node>): (r: (Node, seq<Node>))
    requires |h| > 0
    ensures r.0.index == -1 && KeyOf(r.0) == KeyOf(h[|h| - 1])
    ensures r.1 == h[..|h| - 1]
    ensures Indexed(h) ==> Indexed(r.1)
    ensures multiset(Keys(r.1)) + multiset{KeyOf(r.0)} == multiset(Keys(h))
  {
    var n := |h| - 1;
    assert Keys(h) == Keys(h[..n]) + [KeyOf(h[n])];
    (h[n].(index := -1), h[..n])
  }

  /** Push then Pop gives back the pushed node and the heap as it was. */
  lemma PushPop(h: seq<Node>, n: Node)
    ensures Pop(Push(h, n)) == (n.(index := -1), h)
  {
  }

  /** The ring a cell offset lies on: its Chebyshev distance. */
  function Ring(dx: int, dy: int): nat
  {
    if IntAbs(dx) >= IntAbs(dy) then IntAbs(dx) else IntAbs(dy)
  }

  /** The search radius limit of findNearestOpen: rings 1 through 9. */
  const SearchRings: int := 10

  /** Every cell on rings 1 .. n-1 around (cx, cy) is blocked. */
  ghost predicate RingsBlocked(g: NavGrid.Grid, cx: int, cy: int, n: int)
    requires NavGrid.Valid(g)
  {
    forall x, y :: 1 <= Ring(x - cx, y - cy) < n ==> NavGrid.IsBlocked(g, x, y)
  }

  /**
   * findNearestOpen: searches rings 1 to 9 around (gx, gy) outward. It
   * returns an open cell on the innermost ring that has one, with every
   * cell on the rings inside it blocked; or (-1, -1) when all nine rings
   * are blocked. Open cells are on the grid, so a negative result means
   * nothing was found.
   */
  method FindNearestOpen(g: NavGrid.Grid, gx: int, gy: int) returns (nx: int, ny: int)
    requires NavGrid.Valid(g)
    ensures nx < 0 ==> (nx == -1 && ny == -1 && RingsBlocked(g, gx, gy, SearchRings))
    ensures nx >= 0 ==> (!NavGrid.IsBlocked(g, nx, ny) && 1 <= Ring(nx - gx, ny - gy) < SearchRings &&
                         RingsBlocked(g, gx, gy, Ring(nx - gx, ny - gy)))
  {
    var radius := 1;
    while radius < SearchRings
      invariant 1 <= radius <= SearchRings
      invariant RingsBlocked(g, gx, gy, radius)
    {
      var dy := -radius;
      while dy <= radius
        invariant -radius <= dy <= radius + 1
        invariant forall x, y :: Ring(x - gx, y - gy) == radius && y - gy < dy ==> NavGrid.IsBlocked(g, x, y)
      {
        var row := gy + dy;
        var dx := -radius;
        while dx <= radius
          invariant -radius <= dx <= radius + 1
          invariant forall x :: Ring(x - gx, dy) == radius && x - gx < dx ==> NavGrid.IsBlocked(g, x, row)
        {
          if (IntAbs(dx) == radius || IntAbs(dy) == radius) && !NavGrid.IsBlocked(g, gx + dx, row) {
            assert Ring(dx, dy) == radius;
            return gx + dx, row;
          }
          dx := dx + 1;
        }
        dy := dy + 1;
      }
      radius := radius + 1;
    }
    return -1, -1;
  }

  /**
   * simplifyPath: paths of at most two waypoints are kept; otherwise the
   * first and last are kept with the middle waypoints at KeptAt, the ones
   * whose neighbours cannot see each other, in order.
   */
  function SimplifyPath(path: seq<Position>, los: (Position, Position) -> bool): (r: seq<Position>)
    ensures |r| <= |path|
    ensures |path| <= 2 ==> r == path
    ensures |path| > 2 ==> |r| == |KeptAt(path, 1, los)| + 2 && r[0] == path[0] && r[|r| - 1] == path[|path| - 1]
    ensures |path| > 2 ==> forall k :: 1 <= k < |r| - 1 ==> r[k] == path[KeptAt(path, 1, los)[k - 1]]
  {
    if |path| <= 2 then path
    else
      var idx := KeptAt(path, 1, los);
      [path[0]] + seq(|idx|, k requires 0 <= k < |idx| => path[idx[k]]) + [path[|path| - 1]]
  }

  /**
   * The positions from i on of the middle waypoints simplification keeps:
   * increasing, each one a waypoint whose neighbours lack line of sight,
   * and every such waypoint among them.
   */
  function KeptAt(path: seq<Position>, i: int, los: (Position, Position) -> bool): (idx: seq<int>)
    requires 1 <= i <= |path| - 1
    ensures |idx| <= |path| - 1 - i
    ensures forall k :: 0 <= k < |idx| ==> i <= idx[k] < |path| - 1 && !los(path[idx[k] - 1], path[idx[k] + 1])
    ensures forall a, b :: 0 <= a < b < |idx| ==> idx[a] < idx[b]
    ensures forall j :: i <= j < |path| - 1 && !los(path[j - 1], path[j + 1]) ==> j in idx
    decreases |path| - i
  {
    if i == |path| - 1 then []
    else if !los(path[i - 1], path[i + 1]) then [i] + KeptAt(path, i + 1, los)
    else KeptAt(path, i + 1, los)
  }

  /** reconstructPath's cell id decoding undoes the row-major id of any on-grid cell. */
  lemma CellIdRoundTrip(gx: int, gy: int, w: int)
    requires w > 0 && 0 <= gx < w && gy >= 0
    ensures (gy * w + gx) % w == gx && (gy * w + gx) / w == gy
  {
    ModUnique(gy * w + gx, w, gy, gx);
    DivOfRowMajor(gx, gy, w);
  }

  lemma DivOfRowMajor(gx: int, gy: int, w: int)
    requires w > 0 && 0 <= gx < w && gy >= 0
    ensures (gy * w + gx) / w == gy
  {
    var a := gy * w + gx;
    var q := a / w;
    assert a == q * w + a % w;
    ModUnique(a, w, gy, gx);
    if q < gy {
      MulLe(q + 1, gy, w);
      assert false;
    } else if q > gy {
      MulLe(gy + 1, q, w);
      assert false;
    }
  }

  /** A path endpoint: its own cell when open, else the nearest open cell, else none. */
  method OpenEndpoint(g: NavGrid.Grid, c: (int, int)) returns (r: Option<(int, int)>)
    requires NavGrid.Valid(g)
    ensures !NavGrid.IsBlocked(g, c.0, c.1) ==> r == Some(c)
    ensures NavGrid.IsBlocked(g, c.0, c.1) ==> (r.None? <==> RingsBlocked(g, c.0, c.1, SearchRings))
    ensures r.Some? ==> !NavGrid.IsBlocked(g, r.value.0, r.value.1)
  {
    if !NavGrid.IsBlocked(g, c.0, c.1) {
      return Some(c);
    }
    var nx, ny := FindNearestOpen(g, c.0, c.1);
    if nx < 0 {
      return None;
    }
    return Some((nx, ny));
  }

  /**
   * FindPath's handling around the search: a blocked start or goal is
   * moved to the nearest open cell (no path if there is none); when start
   * and goal share a cell the path is that cell's centre alone; otherwise
   * the search between the two cells decides.
   */
  method FindPath(s: NavGrid.GridSet, startX: real, startY: real, goalX: real, goalY: real, sc: NavGrid.SizeClass,
                  search: (int, int, int, int) -> Option<seq<Position>>) returns (path: Option<seq<Position>>)
    requires NavGrid.ValidSet(s)
    ensures var g := NavGrid.GetGrid(s, sc);
      var st := NavGrid.WorldToGrid(g, startX, startY);
      var gl := NavGrid.WorldToGrid(g, goalX, goalY);
      !NavGrid.IsBlocked(g, st.0, st.1) && !NavGrid.IsBlocked(g, gl.0, gl.1) && st == gl ==>
        path == Some([Position(NavGrid.GridToWorld(g, gl.0, gl.1).0, NavGrid.GridToWorld(g, gl.0, gl.1).1)])
    ensures var g := NavGrid.GetGrid(s, sc);
      var st := NavGrid.WorldToGrid(g, startX, startY);
      NavGrid.IsBlocked(g, st.0, st.1) && RingsBlocked(g, st.0, st.1, SearchRings) ==> path.None?
    ensures var g := NavGrid.GetGrid(s, sc);
      var gl := NavGrid.WorldToGrid(g, goalX, goalY);
      NavGrid.IsBlocked(g, gl.0, gl.1) && RingsBlocked(g, gl.0, gl.1, SearchRings) ==> path.None?
    ensures var g := NavGrid.GetGrid(s, sc);
      var st := NavGrid.WorldToGrid(g, startX, startY);
      var gl := NavGrid.WorldToGrid(g, goalX, goalY);
      !NavGrid.IsBlocked(g, st.0, st.1) && !NavGrid.IsBlocked(g, gl.0, gl.1) && st != gl ==>
        path == search(st.0, st.1, gl.0, gl.1)
  {
    var g := NavGrid.GetGrid(s, sc);
    var st := NavGrid.WorldToGrid(g, startX, startY);
    var gl := NavGrid.WorldToGrid(g, goalX, goalY);
    var from := OpenEndpoint(g, st);
    if from.None? {
      return None;
    }
    var to := OpenEndpoint(g, gl);
    if to.None? {
      return None;
    }
    var (sx, sy) := from.value;
    var (tx, ty) := to.value;
    if sx == tx && sy == ty {
      var centre := NavGrid.GridToWorld(g, tx, ty);
      return Some([Position(centre.0, centre.1)]);
    }
    return search(sx, sy, tx, ty);
  }
}
