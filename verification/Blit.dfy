/** Copying rectangles between bitmaps: clipping, the plain copy with its one-run fast path,
    and the copy turned clockwise. */
module Blit {
  import opened Geometry
  import B = Bits

  /** Destination corner, source corner, extent. */
  datatype Clip = Clip(dx: int, dy: int, sx: int, sy: int, width: int, height: int)

  // ---- clipping ----

  /** `_adjust_blt_coords`: the same five steps on each axis. */
  method AdjustBltCoords(destSize: Size, srcSize: Size, origin: Point, rect: Rect) returns (c: Clip)
    ensures c == Adjusted(destSize, srcSize, origin, rect)
  {
    var dx, dy, sx, sy := origin.x, origin.y, rect.x, rect.y;
    var width, height := rect.width, rect.height;
    if sx < 0 { dx := dx - sx; width := width + sx; sx := 0; }
    if sy < 0 { dy := dy - sy; height := height + sy; sy := 0; }
    if dx < 0 { sx := sx - dx; width := width + dx; dx := 0; }
    if dy < 0 { sy := sy - dy; height := height + dy; dy := 0; }
    if sx + width > srcSize.width { width := srcSize.width - sx; }
    if sy + height > srcSize.height { height := srcSize.height - sy; }
    if dx + width >= destSize.width { width := destSize.width - dx; }
    if dy + height >= destSize.height { height := destSize.height - dy; }
    return Clip(dx, dy, sx, sy, width, height);
  }

  /** One axis: destination start, source start, length. */
  function AdjustAxis(d: int, s: int, n: int, dn: int, sn: int): (int, int, int) {
    var (d1, s1, n1) := if s < 0 then (d - s, 0, n + s) else (d, s, n);
    var (d2, s2, n2) := if d1 < 0 then (0, s1 - d1, n1 + d1) else (d1, s1, n1);
    var n3 := if s2 + n2 > sn then sn - s2 else n2;
    var n4 := if d2 + n3 >= dn then dn - d2 else n3;
    (d2, s2, n4)
  }

  function Adjusted(destSize: Size, srcSize: Size, origin: Point, rect: Rect): Clip {
    var (dx, sx, w) := AdjustAxis(origin.x, rect.x, rect.width, destSize.width, srcSize.width);
    var (dy, sy, h) := AdjustAxis(origin.y, rect.y, rect.height, destSize.height, srcSize.height);
    Clip(dx, dy, sx, sy, w, h)
  }

  /** The clipped run is exactly the part of the run that is inside both, at its offset. */
  lemma AxisIsExact(d: int, s: int, n: int, dn: int, sn: int, u: int)
    ensures var (d', s', n') := AdjustAxis(d, s, n, dn, sn);
      && d' - s' == d - s && 0 <= d' && 0 <= s' && (n' > 0 ==> d' + n' <= dn && s' + n' <= sn)
      && (d' <= d + u < d' + n' <==> 0 <= u < n && 0 <= d + u < dn && 0 <= s + u < sn)
  {
  }

  /** Pixel (u, v) of the rectangle is in both bitmaps. */
  predicate InBoth(destSize: Size, srcSize: Size, origin: Point, rect: Rect, u: int, v: int) {
    && 0 <= u < rect.width && 0 <= v < rect.height
    && 0 <= origin.x + u < destSize.width && 0 <= origin.y + v < destSize.height
    && 0 <= rect.x + u < srcSize.width && 0 <= rect.y + v < srcSize.height
  }

  predicate InClip(c: Clip, x: int, y: int) { c.dx <= x < c.dx + c.width && c.dy <= y < c.dy + c.height }

  /** Clipping keeps every pixel that is in both bitmaps, no other, and moves none. */
  lemma ClippingIsExact(destSize: Size, srcSize: Size, origin: Point, rect: Rect)
    ensures var c := Adjusted(destSize, srcSize, origin, rect);
      && c.dx - c.sx == origin.x - rect.x && c.dy - c.sy == origin.y - rect.y
      && (c.width > 0 && c.height > 0 ==>
            0 <= c.dx && c.dx + c.width <= destSize.width && 0 <= c.dy && c.dy + c.height <= destSize.height
            && 0 <= c.sx && c.sx + c.width <= srcSize.width && 0 <= c.sy && c.sy + c.height <= srcSize.height)
      && forall u, v :: InClip(c, origin.x + u, origin.y + v) <==> InBoth(destSize, srcSize, origin, rect, u, v)
  {
    hide AdjustAxis;
    AxisIsExact(origin.x, rect.x, rect.width, destSize.width, srcSize.width, 0);
    AxisIsExact(origin.y, rect.y, rect.height, destSize.height, srcSize.height, 0);
    var c := Adjusted(destSize, srcSize, origin, rect);
    forall u, v ensures InClip(c, origin.x + u, origin.y + v) <==> InBoth(destSize, srcSize, origin, rect, u, v) {
      AxisIsExact(origin.x, rect.x, rect.width, destSize.width, srcSize.width, u);
      AxisIsExact(origin.y, rect.y, rect.height, destSize.height, srcSize.height, v);
    }
  }

  // ---- bitmaps ----

  type Pixel = nat

  /** Rows of `stride` pixels, the first `width` of which show. */
  predicate Holds(size: Size, stride: nat, length: nat) {
    && 0 <= size.width <= stride && 0 <= size.height
    && (size.width > 0 && size.height > 0 ==> stride * (size.height - 1) + size.width <= length)
  }

  function At(x: int, y: int, stride: nat): int { x + y * stride }

  /** A run within a row: indices and coordinates. */
  lemma RunOfRow(t: int, x: int, y: int, n: int, stride: nat)
    requires 0 <= x && 0 < n && x + n <= stride
    ensures At(x, y, stride) <= t < At(x, y, stride) + n <==> t / stride == y && x <= t % stride < x + n
  {
    if At(x, y, stride) <= t < At(x, y, stride) + n {
      assert y * stride == stride * y;
      B.ModUnique(t, stride, y, t - y * stride);
    } else if t / stride == y {
      assert t == stride * y + t % stride;
    }
  }

  /** A pixel inside the bitmap is inside its buffer. */
  lemma InBuffer(size: Size, stride: nat, length: nat, x: int, y: int, n: int)
    requires Holds(size, stride, length) && 0 <= x && 0 < n && x + n <= size.width && 0 <= y < size.height
    ensures 0 <= At(x, y, stride) && At(x, y, stride) + n <= length
  {
    var k := size.height - 1 - y;
    assert stride * (size.height - 1) == y * stride + k * stride by { assert size.height - 1 == y + k; }
    assert k * stride >= 0 && y * stride >= 0;
  }

  /** The clip lies inside both bitmaps and has pixels. */
  predicate Inside(c: Clip, destSize: Size, srcSize: Size) {
    && 0 < c.width && 0 < c.height
    && 0 <= c.dx && c.dx + c.width <= destSize.width && 0 <= c.dy && c.dy + c.height <= destSize.height
    && 0 <= c.sx && c.sx + c.width <= srcSize.width && 0 <= c.sy && c.sy + c.height <= srcSize.height
  }

  // ---- the plain copy ----

  /** Index `t` of the destination when the first `rows` rows of the clip have been copied:
      the source pixel at the same offset inside them, the old pixel elsewhere. */
  predicate Copied(was: seq<Pixel>, now: seq<Pixel>, src: seq<Pixel>, c: Clip, ds: nat, ss: nat, rows: int, t: nat)
    requires t < |was| == |now| && ds > 0
  {
    var x, y := t % ds, t / ds;
    if c.dx <= x < c.dx + c.width && c.dy <= y < c.dy + rows then
      var q := At(x - c.dx + c.sx, y - c.dy + c.sy, ss);
      0 <= q < |src| && now[t] == src[q]
    else now[t] == was[t]
  }

  ghost predicate AllCopied(was: seq<Pixel>, now: seq<Pixel>, src: seq<Pixel>, c: Clip, ds: nat, ss: nat, rows: int) {
    |was| == |now| && ds > 0 && forall t :: 0 <= t < |now| ==> Copied(was, now, src, c, ds, ss, rows, t)
  }

  /** `copy_from_nonoverlapping`. */
  method CopyRun(dest: array<Pixel>, d: nat, src: array<Pixel>, s: nat, n: nat)
    requires dest != src && d + n <= dest.Length && s + n <= src.Length
    modifies dest
    ensures dest[..] == WithRun(old(dest[..]), d, src[..], s, n)
  {
    ghost var was := dest[..];
    for k := 0 to n
      invariant forall t :: 0 <= t < dest.Length ==> dest[t] == if d <= t < d + k then src[s + (t - d)] else was[t]
    {
      dest[d + k] := src[s + k];
    }
  }

  function WithRun(was: seq<Pixel>, d: nat, src: seq<Pixel>, s: nat, n: nat): (now: seq<Pixel>)
    requires d + n <= |was| && s + n <= |src|
    ensures |now| == |was|
    ensures forall t :: 0 <= t < |was| ==> now[t] == if d <= t < d + n then src[s + (t - d)] else was[t]
  {
    was[..d] + src[s..s + n] + was[d + n..]
  }

  lemma NextRow(was: seq<Pixel>, now: seq<Pixel>, src: seq<Pixel>, c: Clip, ds: nat, ss: nat, rows: nat, d: nat, s: nat)
    requires AllCopied(was, now, src, c, ds, ss, rows) && c.width > 0 && 0 <= c.dx && c.dx + c.width <= ds
    requires d == At(c.dx, c.dy + rows, ds) && s == At(c.sx, c.sy + rows, ss)
    requires d + c.width <= |now| && s + c.width <= |src|
    ensures AllCopied(was, WithRun(now, d, src, s, c.width), src, c, ds, ss, rows + 1)
  {
    var now', next := WithRun(now, d, src, s, c.width), rows + 1;
    forall t | 0 <= t < |now'| ensures Copied(was, now', src, c, ds, ss, next, t) {
      assert Copied(was, now, src, c, ds, ss, rows, t);
      RunOfRow(t, c.dx, c.dy + rows, c.width, ds);
      if t / ds == c.dy + rows && c.dx <= t % ds < c.dx + c.width { RowOffset(t, c, ds, ss, rows); }
    }
    hide WithRun;
  }

  lemma RowOffset(t: nat, c: Clip, ds: nat, ss: nat, rows: nat)
    requires ds > 0 && t / ds == c.dy + rows
    ensures At(t % ds - c.dx + c.sx, t / ds - c.dy + c.sy, ss) ==
      At(c.sx, c.sy + rows, ss) + (t - At(c.dx, c.dy + rows, ds))
  {
    assert t == ds * (t / ds) + t % ds;
    assert ds * (c.dy + rows) == (c.dy + rows) * ds;
    assert t / ds - c.dy + c.sy == c.sy + rows;
  }

  /** With no gap between rows one run copies them all. */
  lemma OneRun(was: seq<Pixel>, src: seq<Pixel>, c: Clip, w: nat, d: nat, s: nat)
    requires w > 0 && c.width == w && c.dx == 0 && c.sx == 0 && c.height > 0 && 0 <= c.dy && 0 <= c.sy
    requires d == c.dy * w && s == c.sy * w && d + w * c.height <= |was| && s + w * c.height <= |src|
    ensures AllCopied(was, WithRun(was, d, src, s, w * c.height), src, c, w, w, c.height)
  {
    var now := WithRun(was, d, src, s, w * c.height);
    forall t | 0 <= t < |now| ensures Copied(was, now, src, c, w, w, c.height, t) {
      RunOfRows(t, c.dy, c.height, w);
      BlockOffset(t, c, w);
    }
    hide WithRun;
  }

  lemma RunOfRows(t: nat, y: nat, h: nat, w: nat)
    requires w > 0
    ensures y * w <= t < y * w + w * h <==> y <= t / w < y + h
  {
    QuotientBound(t, w, y);
    QuotientBound(t, w, y + h);
    assert w * (y + h) == y * w + w * h && w * y == y * w;
  }

  lemma QuotientBound(t: nat, w: nat, b: nat)
    requires w > 0
    ensures b <= t / w <==> w * b <= t
  {
    var q := t / w;
    assert t == w * q + t % w;
    if b <= q {
      assert w * q - w * b == w * (q - b) >= 0;
    } else {
      B.MulAtLeast(w, b - q);
      assert w * b - w * q == w * (b - q);
    }
  }

  lemma BlockOffset(t: nat, c: Clip, w: nat)
    requires w > 0
    ensures At(t % w, t / w - c.dy + c.sy, w) == c.sy * w + (t - c.dy * w)
  {
    var q := t / w;
    assert t == w * q + t % w;
    assert (q - c.dy + c.sy) * w == q * w - c.dy * w + c.sy * w;
  }

  lemma RowInBuffers(c: Clip, destSize: Size, srcSize: Size, ds: nat, ss: nat, dn: nat, sn: nat, rows: nat)
    requires Inside(c, destSize, srcSize) && Holds(destSize, ds, dn) && Holds(srcSize, ss, sn) && rows < c.height
    ensures 0 <= At(c.dx, c.dy + rows, ds) && At(c.dx, c.dy + rows, ds) + c.width <= dn
    ensures 0 <= At(c.sx, c.sy + rows, ss) && At(c.sx, c.sy + rows, ss) + c.width <= sn
  {
    InBuffer(destSize, ds, dn, c.dx, c.dy + rows, c.width);
    InBuffer(srcSize, ss, sn, c.sx, c.sy + rows, c.width);
    hide Holds, At;
  }

  /** Copies the part of the rectangle that is in both bitmaps; everything else stays. */
  method Blt(dest: array<Pixel>, destSize: Size, ds: nat, src: array<Pixel>, srcSize: Size, ss: nat, origin: Point,
             rect: Rect)
    requires dest != src && Holds(destSize, ds, dest.Length) && Holds(srcSize, ss, src.Length)
    modifies dest
    ensures var c := Adjusted(destSize, srcSize, origin, rect);
      if c.width <= 0 || c.height <= 0 then dest[..] == old(dest[..])
      else AllCopied(old(dest[..]), dest[..], src[..], c, ds, ss, c.height)
  {
    var c := AdjustBltCoords(destSize, srcSize, origin, rect);
    ClippingIsExact(destSize, srcSize, origin, rect);
    hide Adjusted;
    if c.width <= 0 || c.height <= 0 { return; }
    assert Inside(c, destSize, srcSize);
    var width, height := c.width, c.height;
    RowInBuffers(c, destSize, srcSize, ds, ss, dest.Length, src.Length, 0);
    var d, s := At(c.dx, c.dy, ds), At(c.sx, c.sy, ss);
    if ds == width && ss == width {
      BlockFits(c, destSize, srcSize, width, dest.Length, src.Length);
      OneRun(dest[..], src[..], c, width, d, s);
      CopyRun(dest, d, src, s, width * height);
    } else {
      ghost var was := dest[..];
      for r := 0 to height
        invariant d == At(c.dx, c.dy + r, ds) && s == At(c.sx, c.sy + r, ss)
        invariant AllCopied(was, dest[..], src[..], c, ds, ss, r)
      {
        RowInBuffers(c, destSize, srcSize, ds, ss, dest.Length, src.Length, r);
        NextRow(was, dest[..], src[..], c, ds, ss, r, d, s);
        CopyRun(dest, d, src, s, width);
        NextStart(c.dx, c.dy + r, ds);
        NextStart(c.sx, c.sy + r, ss);
        d := d + ds;
        s := s + ss;
      }
    }
  }

  lemma NextStart(x: int, y: int, stride: nat)
    ensures At(x, y + 1, stride) == At(x, y, stride) + stride
  {
  }

  lemma BlockFits(c: Clip, destSize: Size, srcSize: Size, w: nat, dn: nat, sn: nat)
    requires Inside(c, destSize, srcSize) && c.width == w && Holds(destSize, w, dn) && Holds(srcSize, w, sn)
    ensures c.dx == 0 && c.sx == 0 && w > 0 && 0 <= c.dy && 0 <= c.sy
    ensures At(c.dx, c.dy, w) == c.dy * w && At(c.sx, c.sy, w) == c.sy * w
    ensures c.dy * w + w * c.height <= dn && c.sy * w + w * c.height <= sn
  {
    RowInBuffers(c, destSize, srcSize, w, w, dn, sn, c.height - 1);
    assert (c.dy + (c.height - 1)) * w == c.dy * w + w * c.height - w;
    assert (c.sy + (c.height - 1)) * w == c.sy * w + w * c.height - w;
  }

  // ---- the copy turned clockwise ----

  /** Physical index `t` of a destination `w` pixels wide, when `cols` columns of the clip have
      been drawn: physical (X, Y) shows logical (Y, w - 1 - X). */
  predicate Turned(was: seq<Pixel>, now: seq<Pixel>, src: seq<Pixel>, c: Clip, w: int, ds: nat, ss: nat, cols: int,
                   t: nat)
    requires t < |was| == |now| && ds > 0
  {
    var x, y := t / ds, w - 1 - t % ds;
    if c.dx <= x < c.dx + cols && c.dy <= y < c.dy + c.height then
      var q := At(x - c.dx + c.sx, y - c.dy + c.sy, ss);
      0 <= q < |src| && now[t] == src[q]
    else now[t] == was[t]
  }

  ghost predicate AllTurned(was: seq<Pixel>, now: seq<Pixel>, src: seq<Pixel>, c: Clip, w: int, ds: nat, ss: nat,
                            cols: int) {
    |was| == |now| && ds > 0 && forall t :: 0 <= t < |now| ==> Turned(was, now, src, c, w, ds, ss, cols, t)
  }

  /** A run of `n` pixels from `p` on, taken from rows going up from index `q`. */
  ghost predicate RunTurned(was: seq<Pixel>, now: seq<Pixel>, p: int, src: seq<Pixel>, q: int, ss: nat, n: nat) {
    |was| == |now| && forall t :: 0 <= t < |now| ==> TurnedAt(was, now, p, src, q, ss, n, t)
  }

  predicate TurnedAt(was: seq<Pixel>, now: seq<Pixel>, p: int, src: seq<Pixel>, q: int, ss: nat, n: nat, t: nat)
    requires t < |was| == |now|
  {
    if p <= t < p + n then
      var k := t - p;
      0 <= UpFrom(q, k, ss) < |src| && now[t] == src[UpFrom(q, k, ss)]
    else now[t] == was[t]
  }

  /** The index `k` rows above `q`. */
  function UpFrom(q: int, k: int, ss: nat): int { q - k * ss }

  /** The inner loop. */
  method CopyTurned(dest: array<Pixel>, p: nat, src: array<Pixel>, q: nat, ss: nat, n: nat)
    requires dest != src && p + n <= dest.Length && n > 0 && q < src.Length && 0 <= UpFrom(q, n - 1, ss)
    modifies dest
    ensures RunTurned(old(dest[..]), dest[..], p, src[..], q, ss, n)
  {
    hide UpFrom;
    ghost var was := dest[..];
    var from: int := q;
    UpInside(q, 0, n - 1, ss);
    for k := 0 to n
      invariant from == UpFrom(q, k, ss) && RunTurned(was, dest[..], p, src[..], q, ss, k)
    {
      UpInside(q, k, n - 1, ss);
      RunGrows(was, dest[..], p, src[..], q, ss, k);
      ghost var grown := dest[..][p + k := src[from]];
      dest[p + k] := src[from];
      assert dest[..] == grown;
      from := from - ss;
    }
  }

  lemma RunGrows(was: seq<Pixel>, now: seq<Pixel>, p: nat, src: seq<Pixel>, q: nat, ss: nat, k: nat)
    requires RunTurned(was, now, p, src, q, ss, k) && p + k < |now| && 0 <= UpFrom(q, k, ss) < |src|
    ensures RunTurned(was, now[p + k := src[UpFrom(q, k, ss)]], p, src, q, ss, k + 1)
  {
    hide UpFrom;
    var now', next := now[p + k := src[UpFrom(q, k, ss)]], k + 1;
    forall t | 0 <= t < |now'| ensures TurnedAt(was, now', p, src, q, ss, next, t) {
      assert TurnedAt(was, now, p, src, q, ss, k, t);
    }
  }

  lemma UpInside(q: nat, k: nat, n: nat, ss: nat)
    requires k <= n && 0 <= UpFrom(q, n, ss)
    ensures 0 <= UpFrom(q, k, ss) <= q && UpFrom(q, k + 1, ss) == UpFrom(q, k, ss) - ss && UpFrom(q, 0, ss) == q
  {
    assert n * ss == k * ss + (n - k) * ss;
    assert k * ss >= 0 && (n - k) * ss >= 0;
  }

  lemma NextColumn(was: seq<Pixel>, now: seq<Pixel>, now': seq<Pixel>, src: seq<Pixel>, c: Clip, w: int,
                   ds: nat, ss: nat,
                   cols: nat, p: nat, q: nat)
    requires AllTurned(was, now, src, c, w, ds, ss, cols) && c.height > 0 && 0 <= c.dy && c.dy + c.height <= w <= ds
    requires p == At(w - c.dy - c.height, c.dx + cols, ds) && q == At(c.sx + cols, c.sy + c.height - 1, ss)
    requires RunTurned(now, now', p, src, q, ss, c.height)
    ensures AllTurned(was, now', src, c, w, ds, ss, cols + 1)
  {
    var next := cols + 1;
    forall t | 0 <= t < |now'| ensures Turned(was, now', src, c, w, ds, ss, next, t) {
      assert Turned(was, now, src, c, w, ds, ss, cols, t) && TurnedAt(now, now', p, src, q, ss, c.height, t);
      RunOfRow(t, w - c.dy - c.height, c.dx + cols, c.height, ds);
      if t / ds == c.dx + cols { ColumnOffset(t, c, w, ds, ss, cols, p, q); }
    }
  }

  lemma ColumnOffset(t: nat, c: Clip, w: int, ds: nat, ss: nat, cols: nat, p: nat, q: nat)
    requires ds > 0 && t / ds == c.dx + cols
    requires p == At(w - c.dy - c.height, c.dx + cols, ds) && q == At(c.sx + cols, c.sy + c.height - 1, ss)
    ensures At(t / ds - c.dx + c.sx, w - 1 - t % ds - c.dy + c.sy, ss) == UpFrom(q, t - p, ss)
  {
    assert t == ds * (t / ds) + t % ds;
    assert ds * (c.dx + cols) == (c.dx + cols) * ds;
    var k := t - p;
    assert k == t % ds - (w - c.dy - c.height);
    assert (c.sy + c.height - 1) * ss - k * ss == (c.sy + c.height - 1 - k) * ss;
  }

  /** Draws the source turned a quarter clockwise: clipped in logical coordinates, in which the
      destination's width and height change places. */
  method BltCw(dest: array<Pixel>, destSize: Size, ds: nat, src: array<Pixel>, srcSize: Size, ss: nat, origin: Point,
               rect: Rect)
    requires dest != src && Holds(destSize, ds, dest.Length) && Holds(srcSize, ss, src.Length)
    modifies dest
    ensures var c := Adjusted(Size(destSize.height, destSize.width), srcSize, origin, rect);
      if c.width <= 0 || c.height <= 0 then dest[..] == old(dest[..])
      else AllTurned(old(dest[..]), dest[..], src[..], c, destSize.width, ds, ss, c.width)
  {
    var selfSize := Size(destSize.height, destSize.width);
    var c := AdjustBltCoords(selfSize, srcSize, origin, rect);
    ClippingIsExact(selfSize, srcSize, origin, rect);
    hide Adjusted;
    if c.width <= 0 || c.height <= 0 { return; }
    assert Inside(c, selfSize, srcSize);
    var width, height := c.width, c.height;
    var dx, dy := selfSize.height - c.dy, c.dx;
    var p := dx + dy * ds - height;
    var q0 := c.sx + (c.sy + height - 1) * ss;
    var strideP, strideQ := ds - height, ss;
    ghost var was := dest[..];
    for x := 0 to width
      invariant p == At(destSize.width - c.dy - height, c.dx + x, ds)
      invariant AllTurned(was, dest[..], src[..], c, destSize.width, ds, ss, x)
    {
      var q := q0 + x;
      ColumnInBuffers(c, destSize, srcSize, ds, ss, dest.Length, src.Length, x);
      ghost var before := dest[..];
      CopyTurned(dest, p, src, q, strideQ, height);
      NextColumn(was, before, dest[..], src[..], c, destSize.width, ds, ss, x, p, q);
      NextStart(destSize.width - c.dy - height, c.dx + x, ds);
      p := p + height + strideP;
    }
  }

  lemma ColumnInBuffers(c: Clip, destSize: Size, srcSize: Size, ds: nat, ss: nat, dn: nat, sn: nat, x: nat)
    requires Inside(c, Size(destSize.height, destSize.width), srcSize) && x < c.width
    requires Holds(destSize, ds, dn) && Holds(srcSize, ss, sn)
    ensures var p := At(destSize.width - c.dy - c.height, c.dx + x, ds); 0 <= p && p + c.height <= dn
    ensures var q := At(c.sx + x, c.sy + c.height - 1, ss); 0 <= q < sn && 0 <= UpFrom(q, c.height - 1, ss)
  {
    InBuffer(destSize, ds, dn, destSize.width - c.dy - c.height, c.dx + x, c.height);
    InBuffer(srcSize, ss, sn, c.sx + x, c.sy + c.height - 1, 1);
    InBuffer(srcSize, ss, sn, c.sx + x, c.sy, 1);
    assert (c.sy + c.height - 1) * ss - (c.height - 1) * ss == c.sy * ss;
    hide Holds;
  }

  /** After the last pixel of a column the source index steps up once more, and falls below
      zero exactly if the clip begins in the source's first row: the source's unsigned index
      then wraps, or panics where overflow is checked. No pixel is read there. */
  lemma LastStepUnderflows(c: Clip, selfSize: Size, srcSize: Size, ss: nat, sn: nat, x: nat)
    requires Inside(c, selfSize, srcSize) && Holds(srcSize, ss, sn) && x < c.width
    ensures UpFrom(At(c.sx + x, c.sy + c.height - 1, ss), c.height, ss) < 0 <==> c.sy == 0
  {
    assert (c.sy + c.height - 1) * ss - c.height * ss == (c.sy - 1) * ss;
    if c.sy > 0 { assert (c.sy - 1) * ss >= 0; }
  }
}
