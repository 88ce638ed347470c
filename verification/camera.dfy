/**
 * The viewport camera (camera/camera.go): a centre in world coordinates, a
 * zoom clamped between a floor that keeps the viewport inside the world
 * and 4, panning that wraps round the toroidal world, and the conversions
 * between world and screen coordinates.
 */
module Camera {
  import opened SimMath

  datatype Camera = Camera(x: real, y: real, zoom: real, viewportW: real, viewportH: real,
                           worldW: real, worldH: real, minZoom: real, maxZoom: real)

  /** The zoom ceiling every camera starts with. */
  const MaxZoom: real := 4.0

  /**
   * The smallest zoom at which the visible area viewport / zoom fits inside
   * the world on both axes: the larger of the two viewport-to-world ratios.
   */
  function ZoomFloor(viewportW: real, viewportH: real, worldW: real, worldH: real): (r: real)
    requires worldW > 0.0 && worldH > 0.0
    ensures r >= viewportW / worldW && r >= viewportH / worldH
    ensures r == viewportW / worldW || r == viewportH / worldH
  {
    var minZoomX := viewportW / worldW;
    var minZoomY := viewportH / worldH;
    if minZoomY > minZoomX then minZoomY else minZoomX
  }

  /** At any zoom from the floor up, the visible area is no larger than the world on either axis. */
  lemma ZoomFloorFitsWorld(viewportW: real, viewportH: real, worldW: real, worldH: real, zoom: real)
    requires worldW > 0.0 && worldH > 0.0 && zoom > 0.0
    requires zoom >= ZoomFloor(viewportW, viewportH, worldW, worldH)
    ensures viewportW <= worldW * zoom && viewportH <= worldH * zoom
  {
    FitsAxis(viewportW, worldW, zoom);
    FitsAxis(viewportH, worldH, zoom);
  }

  lemma FitsAxis(v: real, w: real, zoom: real)
    requires w > 0.0 && zoom >= v / w
    ensures v <= w * zoom
  {
    DivMul(v, w);
    MulMonotone(w, v / w, zoom);
  }

  /** New: centred on the world at zoom 1, with the zoom floor of its viewport and the ceiling 4. */
  function New(viewportW: real, viewportH: real, worldW: real, worldH: real): (c: Camera)
    requires worldW > 0.0 && worldH > 0.0
    ensures 0.0 <= c.x < c.worldW && 0.0 <= c.y < c.worldH
    ensures c.zoom == 1.0 && c.maxZoom == MaxZoom
    ensures c.minZoom == ZoomFloor(viewportW, viewportH, worldW, worldH)
    ensures c.viewportW == viewportW && c.viewportH == viewportH && c.worldW == worldW && c.worldH == worldH
  {
    Camera(worldW / 2.0, worldH / 2.0, 1.0, viewportW, viewportH, worldW, worldH,
           ZoomFloor(viewportW, viewportH, worldW, worldH), MaxZoom)
  }

  /** mod: math.Mod shifted up by m when negative, so the result lies in [0, m). */
  function Mod(x: real, m: real): (r: real)
    requires m > 0.0
    ensures 0.0 <= r < m
    ensures 0.0 <= x < m ==> r == x
    ensures -m <= x < 0.0 ==> r == x + m
    ensures m <= x < 2.0 * m ==> r == x - m
  {
    var f := FMod(x, m);
    FModCases(x, m);
    if f < 0.0 then f + m else f
  }

  /** What math.Mod gives just below zero, at -m, and in [m, 2m). */
  lemma FModCases(x: real, m: real)
    requires m > 0.0
    ensures -m < x < 0.0 ==> FMod(x, m) == x
    ensures x == -m ==> FMod(x, m) == 0.0
    ensures m <= x < 2.0 * m ==> FMod(x, m) == x - m
  {
    if x == -m {
      FModOfSelf(m);
    } else if m <= x < 2.0 * m {
      FModOfNext(x, m);
    }
  }

  /** math.Mod(-m, m) is zero. */
  lemma FModOfSelf(m: real)
    requires m > 0.0
    ensures FMod(-m, m) == 0.0
  {
    assert m / m == 1.0;
    assert (m / m).Floor == 1;
  }

  /** math.Mod(x, m) takes one m off an x in [m, 2m). */
  lemma FModOfNext(x: real, m: real)
    requires m > 0.0 && m <= x < 2.0 * m
    ensures FMod(x, m) == x - m
  {
    var t := x - m;
    FloorOfSmall(t, m);
    DivSplit(t, m);
    assert x / m == t / m + 1.0;
    assert (x / m).Floor == 1;
  }

  lemma DivSplit(t: real, m: real)
    requires m > 0.0
    ensures (t + m) / m == t / m + 1.0
  {
    var q0 := t / m;
    var q1 := (t + m) / m;
    DivMul(t, m);
    DivMul(t + m, m);
    assert m * q0 == t;
    assert m * q1 == t + m;
    assert m * (q0 + 1.0) == m * q0 + m;
    MulCancel(m, q1, q0 + 1.0);
  }

  lemma MulCancel(m: real, a: real, b: real)
    requires m > 0.0 && m * a == m * b
    ensures a == b
  {
    if a < b {
      MulStrict(m, a, b);
    } else if b < a {
      MulStrict(m, b, a);
    }
  }

  /**
   * Pan: move by a screen-pixel offset, scaled by the zoom, and wrap the
   * centre back into the world; only the centre changes.
   */
  function Pan(c: Camera, dx: real, dy: real): (r: Camera)
    requires c.zoom != 0.0 && c.worldW > 0.0 && c.worldH > 0.0
    ensures 0.0 <= r.x < r.worldW && 0.0 <= r.y < r.worldH
    ensures r.(x := c.x, y := c.y) == c
  {
    c.(x := Mod(c.x + dx / c.zoom, c.worldW), y := Mod(c.y + dy / c.zoom, c.worldH))
  }

  /** Panning by less than a world's width and back again returns the centre to where it was. */
  lemma PanBack(c: Camera, dx: real, dy: real)
    requires c.zoom != 0.0 && c.worldW > 0.0 && c.worldH > 0.0
    requires 0.0 <= c.x < c.worldW && 0.0 <= c.y < c.worldH
    requires Abs(dx / c.zoom) < c.worldW && Abs(dy / c.zoom) < c.worldH
    ensures Pan(Pan(c, dx, dy), -dx, -dy) == c
  {
    NegDiv(dx, c.zoom);
    NegDiv(dy, c.zoom);
    WrapBack(c.x, dx / c.zoom, c.worldW);
    WrapBack(c.y, dy / c.zoom, c.worldH);
  }

  lemma NegDiv(a: real, z: real)
    requires z != 0.0
    ensures (-a) / z == -(a / z)
  {
  }

  /** Wrapping p + d and then wrapping the result minus d gives p back, for |d| below the size. */
  lemma WrapBack(p: real, d: real, size: real)
    requires size > 0.0 && 0.0 <= p < size && Abs(d) < size
    ensures Mod(Mod(p + d, size) + -d, size) == p
  {
  }

  /** SetZoom: the requested zoom clamped to [minZoom, maxZoom]; nothing else changes. */
  function SetZoom(c: Camera, zoom: real): (r: Camera)
    ensures c.minZoom <= c.maxZoom ==> c.minZoom <= r.zoom <= c.maxZoom
    ensures c.minZoom <= zoom <= c.maxZoom ==> r.zoom == zoom
    ensures zoom < c.minZoom ==> r.zoom == c.minZoom
    ensures c.minZoom <= zoom && zoom > c.maxZoom ==> r.zoom == c.maxZoom
    ensures r.(zoom := c.zoom) == c
  {
    c.(zoom := if zoom < c.minZoom then c.minZoom else if zoom > c.maxZoom then c.maxZoom else zoom)
  }

  /** Setting the zoom a second time to the same request changes nothing. */
  lemma SetZoomIdempotent(c: Camera, zoom: real)
    requires c.minZoom <= c.maxZoom
    ensures SetZoom(SetZoom(c, zoom), zoom) == SetZoom(c, zoom)
  {
  }

  /** ZoomBy: multiply the zoom by a factor, clamped like SetZoom. */
  function ZoomBy(c: Camera, factor: real): (r: Camera)
    ensures c.minZoom <= c.maxZoom ==> c.minZoom <= r.zoom <= c.maxZoom
    ensures c.minZoom <= c.zoom * factor <= c.maxZoom ==> r.zoom == c.zoom * factor
    ensures c.zoom * factor < c.minZoom ==> r.zoom == c.minZoom
    ensures c.minZoom <= c.zoom * factor && c.zoom * factor > c.maxZoom ==> r.zoom == c.maxZoom
    ensures r.(zoom := c.zoom) == c
  {
    SetZoom(c, c.zoom * factor)
  }

  /**
   * A 1280x720 viewport on a 2560x1440 world has zoom floor 0.5; a request
   * of 0.1 is raised to 0.5 and a request of 10 lowered to the maximum 4.
   */
  lemma ZoomClampExample()
    ensures New(1280.0, 720.0, 2560.0, 1440.0).minZoom == 0.5
    ensures SetZoom(New(1280.0, 720.0, 2560.0, 1440.0), 0.1).zoom == 0.5
    ensures SetZoom(SetZoom(New(1280.0, 720.0, 2560.0, 1440.0), 0.1), 10.0).zoom == 4.0
  {
  }

  /**
   * Resize: a new viewport recomputes the zoom floor and raises the zoom
   * to it when below; an unchanged viewport changes nothing.
   */
  function Resize(c: Camera, viewportW: real, viewportH: real): (r: Camera)
    requires c.worldW > 0.0 && c.worldH > 0.0
    ensures viewportW == c.viewportW && viewportH == c.viewportH ==> r == c
    ensures (viewportW != c.viewportW || viewportH != c.viewportH) ==>
      r.minZoom == ZoomFloor(viewportW, viewportH, c.worldW, c.worldH) && r.zoom >= r.minZoom &&
      (c.zoom >= r.minZoom ==> r.zoom == c.zoom)
    ensures r.x == c.x && r.y == c.y && r.maxZoom == c.maxZoom
  {
    if viewportW == c.viewportW && viewportH == c.viewportH then c
    else
      var m := ZoomFloor(viewportW, viewportH, c.worldW, c.worldH);
      c.(viewportW := viewportW, viewportH := viewportH, minZoom := m, zoom := if c.zoom < m then m else c.zoom)
  }

  /** Reset: back to the world centre at zoom 1. */
  function Reset(c: Camera): (r: Camera)
    ensures r.x == c.worldW / 2.0 && r.y == c.worldH / 2.0 && r.zoom == 1.0
    ensures r.(x := c.x, y := c.y, zoom := c.zoom) == c
  {
    c.(x := c.worldW / 2.0, y := c.worldH / 2.0, zoom := 1.0)
  }

  /** Reset forgets every pan and zoom: a fresh camera and a reset one agree. */
  lemma ResetIsNew(viewportW: real, viewportH: real, worldW: real, worldH: real, dx: real, dy: real, zoom: real)
    requires worldW > 0.0 && worldH > 0.0
    ensures var c := New(viewportW, viewportH, worldW, worldH);
      Reset(SetZoom(Pan(c, dx, dy), zoom)) == c
  {
  }

  /**
   * Reset does not consult the zoom floor: with a viewport twice the
   * world's size the floor is 2 and Reset still sets zoom 1.
   */
  lemma ResetBelowFloor()
    ensures var c := New(200.0, 200.0, 100.0, 100.0);
      c.minZoom == 2.0 && Reset(c).zoom < c.minZoom
  {
  }

  /** One axis of WorldToScreen: the toroidal offset from the centre p, zoomed, about the viewport's middle. */
  function AxisToScreen(p: real, w: real, size: real, v: real, z: real): real
  {
    v / 2.0 + TorusDelta(p, w, size) * z
  }

  /** One axis of ScreenToWorld: undo the centring and the zoom, then wrap into [0, size). */
  function AxisToWorld(p: real, s: real, size: real, v: real, z: real): (r: real)
    requires z != 0.0 && size > 0.0
    ensures 0.0 <= r < size
  {
    Mod(p + (s - v / 2.0) / z, size)
  }

  /** WorldToScreen: the camera centre lands on the viewport's middle, and other points about it. */
  function WorldToScreen(c: Camera, wx: real, wy: real): (r: (real, real))
    ensures wx == c.x && wy == c.y && c.worldW >= 0.0 && c.worldH >= 0.0 ==> r == (c.viewportW / 2.0, c.viewportH / 2.0)
  {
    (AxisToScreen(c.x, wx, c.worldW, c.viewportW, c.zoom), AxisToScreen(c.y, wy, c.worldH, c.viewportH, c.zoom))
  }

  /** ScreenToWorld: a world point inside the world's bounds. */
  function ScreenToWorld(c: Camera, sx: real, sy: real): (r: (real, real))
    requires c.zoom != 0.0 && c.worldW > 0.0 && c.worldH > 0.0
    ensures 0.0 <= r.0 < c.worldW && 0.0 <= r.1 < c.worldH
  {
    (AxisToWorld(c.x, sx, c.worldW, c.viewportW, c.zoom), AxisToWorld(c.y, sy, c.worldH, c.viewportH, c.zoom))
  }

  /**
   * Every point strictly inside the viewport survives ScreenToWorld then
   * WorldToScreen unchanged, for a camera whose centre is in the world and
   * whose zoom is positive and at least its floor.
   */
  lemma ScreenRoundTrip(c: Camera, sx: real, sy: real)
    requires c.worldW > 0.0 && c.worldH > 0.0 && c.zoom > 0.0
    requires c.zoom >= ZoomFloor(c.viewportW, c.viewportH, c.worldW, c.worldH)
    requires 0.0 <= c.x < c.worldW && 0.0 <= c.y < c.worldH
    requires 0.0 < sx < c.viewportW && 0.0 < sy < c.viewportH
    ensures var w := ScreenToWorld(c, sx, sy); WorldToScreen(c, w.0, w.1) == (sx, sy)
  {
    ZoomFloorFitsWorld(c.viewportW, c.viewportH, c.worldW, c.worldH, c.zoom);
    AxisRoundTrip(sx, c.viewportW, c.zoom, c.x, c.worldW);
    AxisRoundTrip(sy, c.viewportH, c.zoom, c.y, c.worldH);
  }

  /** One axis of the round trip. */
  lemma AxisRoundTrip(s: real, v: real, z: real, p: real, size: real)
    requires size > 0.0 && z > 0.0 && v <= size * z
    requires 0.0 <= p < size && 0.0 < s < v
    ensures AxisToScreen(p, AxisToWorld(p, s, size, v, z), size, v, z) == s
  {
    var t := s - v / 2.0;
    var d := t / z;
    HalfBound(t, z, size);
    assert -size / 2.0 < d < size / 2.0;
    var w := Mod(p + d, size);
    assert TorusDelta(p, w, size) == d;
    DivMul(t, z);
    assert d * z == t;
  }

  /** An offset under half the viewport, divided by a zoom that fits the world, is under half the world. */
  lemma HalfBound(t: real, z: real, size: real)
    requires z > 0.0 && size > 0.0
    requires Abs(t) < size * z / 2.0
    ensures -size / 2.0 < t / z < size / 2.0
  {
    DivMul(t, z);
  }
}
