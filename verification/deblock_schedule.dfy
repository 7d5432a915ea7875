/** Deblocking a plane: edge segments filtered in an interleaved order that must leave
    the plane as if all vertical edges had come first (section 7.14 of the AV1 specification). */
module DeblockSchedule {
  import opened DeblockFilters

  /** A four-pixel edge segment, in units of 4x4 pixels of its own plane. */
  datatype Edge = Edge(vertical: bool, x: nat, y: nat)

  /** Filter size (0 for none) and level of every segment, from the block metadata. */
  datatype Filter = Filter(size: nat, level: nat)
  type Filters = Edge -> Filter

  predicate Active(f: Filter) {
    IsSize(f.size) && f.level > 0
  }

  type Pixels = seq<seq<int>>

  predicate Shaped(p: Pixels, w: nat, h: nat) {
    |p| == h && forall r :: 0 <= r < h ==> |p[r]| == w
  }

  /** The pixels a segment's filter reads: size across the edge, four along it. */
  predicate InFootprint(e: Edge, size: nat, r: int, c: int) {
    if e.vertical then
      4 * e.y <= r < 4 * e.y + 4 && 4 * e.x - size / 2 <= c < 4 * e.x + size / 2
    else
      4 * e.x <= c < 4 * e.x + 4 && 4 * e.y - size / 2 <= r < 4 * e.y + size / 2
  }

  /** `subregion_mut` accepts the footprint. */
  predicate Fits(e: Edge, size: nat, w: nat, h: nat) {
    if e.vertical then
      4 * e.y + 4 <= h && size / 2 <= 4 * e.x && 4 * e.x + size / 2 <= w
    else
      4 * e.x + 4 <= w && size / 2 <= 4 * e.y && 4 * e.y + size / 2 <= h
  }

  // One segment, on values ------------------------------------------------------

  /** The line of taps through a pixel of the footprint. */
  function Taps(p: Pixels, e: Edge, size: nat, w: nat, h: nat, r: nat, c: nat): (t: Line)
    requires Shaped(p, w, h) && IsSize(size) && Fits(e, size, w, h) && InFootprint(e, size, r, c)
    ensures |t| == size
  {
    if e.vertical then p[r][4 * e.x - size / 2..4 * e.x + size / 2]
    else seq(size, i requires 0 <= i < size => p[4 * e.y - size / 2 + i][c])
  }

  function PixelAfter(p: Pixels, e: Edge, f: Filter, w: nat, h: nat, shift: nat, r: nat, c: nat): int
    requires Shaped(p, w, h) && r < h && c < w
    requires Active(f) ==> Fits(e, f.size, w, h)
  {
    if Active(f) && InFootprint(e, f.size, r, c) then
      Filtered(Taps(p, e, f.size, w, h, r, c), f.level, shift)[Place(e, f.size, r, c)]
    else p[r][c]
  }

  function Place(e: Edge, size: nat, r: nat, c: nat): (i: nat)
    requires IsSize(size) && InFootprint(e, size, r, c)
    ensures i < size
  {
    if e.vertical then c - (4 * e.x - size / 2) else r - (4 * e.y - size / 2)
  }

  /** The edge runs between the two middle taps, at pixel 4x or 4y of the plane, and as many
      taps lie on either side of it. */
  lemma StraddlesEdge(e: Edge, size: nat, r: nat, c: nat)
    requires IsSize(size) && InFootprint(e, size, r, c)
    ensures var r', c' := if e.vertical then r else 8 * e.y - 1 - r, if e.vertical then 8 * e.x - 1 - c else c;
      InFootprint(e, size, r', c')
    ensures if e.vertical then c < 4 * e.x <==> Place(e, size, r, c) < size / 2
            else r < 4 * e.y <==> Place(e, size, r, c) < size / 2
    ensures Place(e, size, r, c) == size / 2 ==> if e.vertical then c == 4 * e.x else r == 4 * e.y
  {
  }

  function Deblocked(p: Pixels, e: Edge, f: Filter, w: nat, h: nat, shift: nat): (q: Pixels)
    requires Shaped(p, w, h) && (Active(f) ==> Fits(e, f.size, w, h))
    ensures Shaped(q, w, h)
    ensures forall r, c :: 0 <= r < h && 0 <= c < w ==> q[r][c] == PixelAfter(p, e, f, w, h, shift, r, c)
  {
    seq(h, r requires 0 <= r < h => seq(w, c requires 0 <= c < w => PixelAfter(p, e, f, w, h, shift, r, c)))
  }

  // Segments that cannot see each other -------------------------------------------

  /** v is two rows below h, or at least three columns right of it. */
  predicate Clear(v: Edge, h: Edge) {
    v.vertical && !h.vertical && (v.y >= h.y + 2 || v.x >= h.x + 3)
  }

  predicate ClearOfAll(v: Edge, hs: seq<Edge>) {
    forall i :: 0 <= i < |hs| ==> Clear(v, hs[i])
  }

  lemma ClearIsDisjoint(v: Edge, h: Edge, m: nat, n: nat, r: int, c: int)
    requires Clear(v, h) && m <= 14 && n <= 14
    ensures !(InFootprint(v, m, r, c) && InFootprint(h, n, r, c))
  {
  }

  /** A segment's result depends only on pixels inside its own footprint. */
  lemma DependsOnFootprint(p: Pixels, q: Pixels, e: Edge, f: Filter, w: nat, h: nat, shift: nat, r: nat, c: nat)
    requires Shaped(p, w, h) && Shaped(q, w, h) && r < h && c < w
    requires Active(f) && Fits(e, f.size, w, h) && InFootprint(e, f.size, r, c)
    requires forall r', c' :: 0 <= r' < h && 0 <= c' < w && InFootprint(e, f.size, r', c') ==> p[r'][c'] == q[r'][c']
    ensures PixelAfter(p, e, f, w, h, shift, r, c) == PixelAfter(q, e, f, w, h, shift, r, c)
  {
    hide Filtered;
    var s, t := Taps(p, e, f.size, w, h, r, c), Taps(q, e, f.size, w, h, r, c);
    forall i | 0 <= i < f.size ensures s[i] == t[i] {
      if e.vertical {
        assert InFootprint(e, f.size, r, 4 * e.x - f.size / 2 + i);
      } else {
        assert InFootprint(e, f.size, 4 * e.y - f.size / 2 + i, c);
      }
    }
    assert s == t;
  }

  /** Clear segments commute. */
  lemma ClearCommutes(p: Pixels, v: Edge, f: Filter, h: Edge, g: Filter, width: nat, height: nat, shift: nat)
    requires Shaped(p, width, height) && Clear(v, h)
    requires Active(f) ==> Fits(v, f.size, width, height)
    requires Active(g) ==> Fits(h, g.size, width, height)
    ensures Deblocked(Deblocked(p, v, f, width, height, shift), h, g, width, height, shift)
         == Deblocked(Deblocked(p, h, g, width, height, shift), v, f, width, height, shift)
  {
    hide Filtered;
    var pv, ph := Deblocked(p, v, f, width, height, shift), Deblocked(p, h, g, width, height, shift);
    var pvh, phv := Deblocked(pv, h, g, width, height, shift), Deblocked(ph, v, f, width, height, shift);
    forall r, c | 0 <= r < height && 0 <= c < width ensures pvh[r][c] == phv[r][c] {
      CommutesAt(p, pv, ph, v, f, h, g, width, height, shift, r, c);
    }
    SamePixels(pvh, phv, width, height);
  }

  lemma CommutesAt(p: Pixels, pv: Pixels, ph: Pixels, v: Edge, f: Filter, h: Edge, g: Filter,
                   width: nat, height: nat, shift: nat, r: nat, c: nat)
    requires Shaped(p, width, height) && Clear(v, h) && r < height && c < width
    requires Active(f) ==> Fits(v, f.size, width, height)
    requires Active(g) ==> Fits(h, g.size, width, height)
    requires pv == Deblocked(p, v, f, width, height, shift) && ph == Deblocked(p, h, g, width, height, shift)
    ensures PixelAfter(pv, h, g, width, height, shift, r, c) == PixelAfter(ph, v, f, width, height, shift, r, c)
  {
    hide Filtered, Taps, Deblocked, Fits;
    if Active(f) && InFootprint(v, f.size, r, c) {
      forall r', c' | 0 <= r' < height && 0 <= c' < width && InFootprint(v, f.size, r', c')
        ensures p[r'][c'] == ph[r'][c']
      {
        if Active(g) {
          ClearIsDisjoint(v, h, f.size, g.size, r', c');
        }
      }
      DependsOnFootprint(p, ph, v, f, width, height, shift, r, c);
      if Active(g) {
        ClearIsDisjoint(v, h, f.size, g.size, r, c);
      }
    } else if Active(g) && InFootprint(h, g.size, r, c) {
      forall r', c' | 0 <= r' < height && 0 <= c' < width && InFootprint(h, g.size, r', c')
        ensures p[r'][c'] == pv[r'][c']
      {
        if Active(f) {
          ClearIsDisjoint(v, h, f.size, g.size, r', c');
        }
      }
      DependsOnFootprint(p, pv, h, g, width, height, shift, r, c);
    }
  }

  lemma SamePixels(p: Pixels, q: Pixels, w: nat, h: nat)
    requires Shaped(p, w, h) && Shaped(q, w, h)
    requires forall r, c :: 0 <= r < h && 0 <= c < w ==> p[r][c] == q[r][c]
    ensures p == q
  {
    forall r | 0 <= r < h ensures p[r] == q[r] {
    }
  }

  // Sequences of segments -----------------------------------------------------------

  ghost predicate AllFit(es: seq<Edge>, fs: Filters, w: nat, h: nat) {
    forall i :: 0 <= i < |es| && Active(fs(es[i])) ==> Fits(es[i], fs(es[i]).size, w, h)
  }

  ghost function InOrder(p: Pixels, es: seq<Edge>, fs: Filters, w: nat, h: nat, shift: nat): (q: Pixels)
    requires Shaped(p, w, h) && AllFit(es, fs, w, h)
    ensures Shaped(q, w, h)
    decreases |es|
  {
    if es == [] then p
    else
      var e := es[|es| - 1];
      Deblocked(InOrder(p, es[..|es| - 1], fs, w, h, shift), e, fs(e), w, h, shift)
  }

  lemma InOrderSnoc(p: Pixels, es: seq<Edge>, e: Edge, fs: Filters, w: nat, h: nat, shift: nat)
    requires Shaped(p, w, h) && AllFit(es + [e], fs, w, h)
    ensures AllFit(es, fs, w, h) && (Active(fs(e)) ==> Fits(e, fs(e).size, w, h))
    ensures InOrder(p, es + [e], fs, w, h, shift) == Deblocked(InOrder(p, es, fs, w, h, shift), e, fs(e), w, h, shift)
  {
    hide Deblocked, Fits;
    assert (es + [e])[..|es|] == es && (es + [e])[|es|] == e;
    forall i | 0 <= i < |es| && Active(fs(es[i])) ensures Fits(es[i], fs(es[i]).size, w, h) {
      assert (es + [e])[i] == es[i];
    }
  }

  /** A vertical segment filtered after horizontal ones it is clear of might as well
      have been filtered before all of them. */
  lemma {:induction false} LateVertical(p: Pixels, vs: seq<Edge>, hs: seq<Edge>, v: Edge, fs: Filters,
                                        w: nat, h: nat, shift: nat)
    requires Shaped(p, w, h)
    requires AllFit(vs, fs, w, h) && AllFit(hs, fs, w, h) && (Active(fs(v)) ==> Fits(v, fs(v).size, w, h))
    requires ClearOfAll(v, hs)
    ensures AllFit(vs + hs, fs, w, h) && AllFit(vs + [v] + hs, fs, w, h)
    ensures InOrder(p, vs + [v] + hs, fs, w, h, shift)
         == Deblocked(InOrder(p, vs + hs, fs, w, h, shift), v, fs(v), w, h, shift)
    decreases |hs|
  {
    hide Deblocked, Fits, Clear, InOrder;
    if hs == [] {
      assert vs + [v] + hs == vs + [v] && vs + hs == vs;
      InOrderSnoc(p, vs, v, fs, w, h, shift);
    } else {
      var front, e := hs[..|hs| - 1], hs[|hs| - 1];
      LateVertical(p, vs, front, v, fs, w, h, shift);
      assert vs + [v] + hs == (vs + [v] + front) + [e];
      assert vs + hs == (vs + front) + [e];
      InOrderSnoc(p, vs + [v] + front, e, fs, w, h, shift);
      InOrderSnoc(p, vs + front, e, fs, w, h, shift);
      ClearCommutes(InOrder(p, vs + front, fs, w, h, shift), v, fs(v), e, fs(e), w, h, shift);
    }
  }

  // The reference order ---------------------------------------------------------------

  /** Vertical segments of a row, left of column x; the frame's left side has none. */
  function VerticalRow(x: nat, y: nat): seq<Edge> {
    if x <= 1 then [] else VerticalRow(x - 1, y) + [Edge(true, x - 1, y)]
  }

  function HorizontalRow(x: nat, y: nat): seq<Edge> {
    if x == 0 then [] else HorizontalRow(x - 1, y) + [Edge(false, x - 1, y)]
  }

  function AllVertical(cols: nat, rows: nat): seq<Edge> {
    if rows == 0 then [] else AllVertical(cols, rows - 1) + VerticalRow(cols, rows - 1)
  }

  /** Rows 1 to rows; the frame's top side has no horizontal segments. */
  function AllHorizontal(cols: nat, rows: nat): seq<Edge> {
    if rows <= 1 then [] else AllHorizontal(cols, rows - 1) + HorizontalRow(cols, rows - 1)
  }

  lemma {:induction false} HorizontalRowEdges(x: nat, y: nat, i: nat)
    requires i < |HorizontalRow(x, y)|
    ensures !HorizontalRow(x, y)[i].vertical && HorizontalRow(x, y)[i].y == y && HorizontalRow(x, y)[i].x < x
  {
    if i < |HorizontalRow(x - 1, y)| {
      HorizontalRowEdges(x - 1, y, i);
    }
  }

  lemma {:induction false} AllHorizontalEdges(cols: nat, rows: nat, i: nat)
    requires i < |AllHorizontal(cols, rows)|
    ensures !AllHorizontal(cols, rows)[i].vertical && AllHorizontal(cols, rows)[i].y < rows
  {
    if i < |AllHorizontal(cols, rows - 1)| {
      AllHorizontalEdges(cols, rows - 1, i);
    } else {
      HorizontalRowEdges(cols, rows - 1, i - |AllHorizontal(cols, rows - 1)|);
    }
  }

  predicate InPlane(e: Edge, cols: nat, rows: nat) {
    e.x < cols && e.y < rows && (if e.vertical then e.x >= 1 else e.y >= 1)
  }

  lemma {:induction false} VerticalRowOnce(x: nat, y: nat, e: Edge)
    ensures multiset(VerticalRow(x, y))[e] == if e.vertical && e.y == y && 1 <= e.x < x then 1 else 0
  {
    if x > 1 {
      VerticalRowOnce(x - 1, y, e);
    }
  }

  lemma {:induction false} HorizontalRowOnce(x: nat, y: nat, e: Edge)
    ensures multiset(HorizontalRow(x, y))[e] == if !e.vertical && e.y == y && e.x < x then 1 else 0
  {
    if x > 0 {
      HorizontalRowOnce(x - 1, y, e);
    }
  }

  lemma CountJoin(a: seq<Edge>, b: seq<Edge>, e: Edge)
    ensures multiset(a + b)[e] == multiset(a)[e] + multiset(b)[e]
  {
  }

  lemma {:induction false} AllVerticalOnce(cols: nat, rows: nat, e: Edge)
    ensures multiset(AllVertical(cols, rows))[e] == if e.vertical && InPlane(e, cols, rows) then 1 else 0
  {
    hide VerticalRow;
    if rows > 0 {
      AllVerticalOnce(cols, rows - 1, e);
      VerticalRowOnce(cols, rows - 1, e);
      CountJoin(AllVertical(cols, rows - 1), VerticalRow(cols, rows - 1), e);
    }
  }

  lemma {:induction false} AllHorizontalOnce(cols: nat, rows: nat, e: Edge)
    ensures multiset(AllHorizontal(cols, rows))[e] == if !e.vertical && InPlane(e, cols, rows) then 1 else 0
  {
    hide HorizontalRow;
    if rows > 1 {
      AllHorizontalOnce(cols, rows - 1, e);
      HorizontalRowOnce(cols, rows - 1, e);
      CountJoin(AllHorizontal(cols, rows - 1), HorizontalRow(cols, rows - 1), e);
    }
  }

  /** Vertical segments before horizontal ones, each row by row from the left. */
  predicate Before(e: Edge, f: Edge) {
    if e.vertical != f.vertical then e.vertical else e.y < f.y || (e.y == f.y && e.x < f.x)
  }

  predicate InRaster(es: seq<Edge>) {
    forall i, j :: 0 <= i < j < |es| ==> Before(es[i], es[j])
  }

  lemma RasterJoin(a: seq<Edge>, b: seq<Edge>)
    requires InRaster(a) && InRaster(b)
    requires forall i, j :: 0 <= i < |a| && 0 <= j < |b| ==> Before(a[i], b[j])
    ensures InRaster(a + b)
  {
    hide Before;
  }

  lemma {:induction false} VerticalRowInRaster(x: nat, y: nat)
    ensures InRaster(VerticalRow(x, y))
    ensures forall e :: e in VerticalRow(x, y) ==> e.vertical && e.y == y && e.x < x
  {
    if x > 1 {
      VerticalRowInRaster(x - 1, y);
      RasterJoin(VerticalRow(x - 1, y), [Edge(true, x - 1, y)]);
    }
  }

  lemma {:induction false} HorizontalRowInRaster(x: nat, y: nat)
    ensures InRaster(HorizontalRow(x, y))
    ensures forall e :: e in HorizontalRow(x, y) ==> !e.vertical && e.y == y && e.x < x
  {
    if x > 0 {
      HorizontalRowInRaster(x - 1, y);
      RasterJoin(HorizontalRow(x - 1, y), [Edge(false, x - 1, y)]);
    }
  }

  lemma {:induction false} AllVerticalInRaster(cols: nat, rows: nat)
    ensures InRaster(AllVertical(cols, rows))
    ensures forall e :: e in AllVertical(cols, rows) ==> e.vertical && e.y < rows
  {
    hide VerticalRow, InRaster;
    if rows == 0 {
      EmptyInRaster();
    } else {
      AllVerticalInRaster(cols, rows - 1);
      VerticalRowInRaster(cols, rows - 1);
      RasterJoin(AllVertical(cols, rows - 1), VerticalRow(cols, rows - 1));
    }
  }

  lemma {:induction false} AllHorizontalInRaster(cols: nat, rows: nat)
    ensures InRaster(AllHorizontal(cols, rows))
    ensures forall e :: e in AllHorizontal(cols, rows) ==> !e.vertical && e.y < rows
  {
    hide HorizontalRow, InRaster;
    if rows <= 1 {
      EmptyInRaster();
    } else {
      AllHorizontalInRaster(cols, rows - 1);
      HorizontalRowInRaster(cols, rows - 1);
      RasterJoin(AllHorizontal(cols, rows - 1), HorizontalRow(cols, rows - 1));
    }
  }

  lemma EmptyInRaster()
    ensures InRaster([])
  {
  }

  /** The reference order is the raster order of the plane's segments, the vertical ones first. */
  lemma ReferenceInRaster(cols: nat, rows: nat)
    ensures InRaster(AllVertical(cols, rows) + AllHorizontal(cols, rows))
    ensures forall e :: e in AllVertical(cols, rows) + AllHorizontal(cols, rows) <==> InPlane(e, cols, rows)
  {
    hide AllVertical, AllHorizontal, InRaster, InPlane;
    AllVerticalInRaster(cols, rows);
    AllHorizontalInRaster(cols, rows);
    var v, h := AllVertical(cols, rows), AllHorizontal(cols, rows);
    forall i, j | 0 <= i < |v| && 0 <= j < |h| ensures Before(v[i], h[j]) {
      assert v[i] in v && h[j] in h;
    }
    RasterJoin(v, h);
    forall e ensures e in v + h <==> InPlane(e, cols, rows) {
      EachOnce(cols, rows, e);
      assert e in v + h <==> e in multiset(v + h);
    }
  }

  /** The reference order visits every segment of the plane exactly once, and nothing else. */
  lemma EachOnce(cols: nat, rows: nat, e: Edge)
    ensures multiset(AllVertical(cols, rows) + AllHorizontal(cols, rows))[e] == if InPlane(e, cols, rows) then 1 else 0
  {
    AllVerticalOnce(cols, rows, e);
    AllHorizontalOnce(cols, rows, e);
    CountJoin(AllVertical(cols, rows), AllHorizontal(cols, rows), e);
    hide AllVertical, AllHorizontal;
  }
}
