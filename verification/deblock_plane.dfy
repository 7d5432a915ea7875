/** Deblocking in place: the lagged, interleaved walk over a plane's edge segments. */
module DeblockPlane {
  import opened DeblockFilters
  import opened DeblockSchedule

  const MI_SIZE := 4

  ghost function PixelsOf(p: array2<int>): (q: Pixels)
    reads p
    ensures Shaped(q, p.Length1, p.Length0)
    ensures forall r, c :: 0 <= r < p.Length0 && 0 <= c < p.Length1 ==> q[r][c] == p[r, c]
  {
    seq(p.Length0, r requires 0 <= r < p.Length0 reads p =>
      seq(p.Length1, c requires 0 <= c < p.Length1 reads p => p[r, c]))
  }

  /** One line across a vertical edge: reads size taps of row r, writes back those the filter may change. */
  method DeblockRow(p: array2<int>, r: nat, c0: nat, f: Filter, shift: nat, ghost t: Line)
    requires Active(f) && r < p.Length0 && c0 + f.size <= p.Length1
    requires |t| == f.size && forall k :: 0 <= k < f.size ==> t[k] == p[r, c0 + k]
    modifies p
    ensures forall k :: 0 <= k < f.size ==> p[r, c0 + k] == Filtered(t, f.level, shift)[k]
    ensures forall i, j :: 0 <= i < p.Length0 && 0 <= j < p.Length1 && !(i == r && c0 <= j < c0 + f.size) ==>
      p[i, j] == old(p[i, j])
  {
    hide Mask, Flat, Nhev, Wide, Narrow2, Narrow4;
    var vals := seq(f.size, k requires 0 <= k < f.size reads p => p[r, c0 + k]);
    assert vals == t;
    if Mask(vals, shift) <= f.level {
      var data := Filtered(vals, f.level, shift);
      var offs := if f.size == 4 then 0 else 1;
      if f.size > 4 {
        FilteredKeepsEnds(vals, f.level, shift);
      }
      hide Filtered;
      for k := offs to f.size - offs
        invariant forall j :: 0 <= j < k ==> p[r, c0 + j] == data[j]
        invariant forall j :: k <= j < f.size ==> p[r, c0 + j] == vals[j]
        invariant forall i, j :: 0 <= i < p.Length0 && 0 <= j < p.Length1 && !(i == r && c0 <= j < c0 + f.size) ==>
          p[i, j] == old(p[i, j])
      {
        p[r, c0 + k] := data[k];
      }
    }
  }

  method DeblockColumn(p: array2<int>, r0: nat, c: nat, f: Filter, shift: nat, ghost t: Line)
    requires Active(f) && c < p.Length1 && r0 + f.size <= p.Length0
    requires |t| == f.size && forall k :: 0 <= k < f.size ==> t[k] == p[r0 + k, c]
    modifies p
    ensures forall k :: 0 <= k < f.size ==> p[r0 + k, c] == Filtered(t, f.level, shift)[k]
    ensures forall i, j :: 0 <= i < p.Length0 && 0 <= j < p.Length1 && !(j == c && r0 <= i < r0 + f.size) ==>
      p[i, j] == old(p[i, j])
  {
    hide Mask, Flat, Nhev, Wide, Narrow2, Narrow4;
    var vals := seq(f.size, k requires 0 <= k < f.size reads p => p[r0 + k, c]);
    assert vals == t;
    if Mask(vals, shift) <= f.level {
      var data := Filtered(vals, f.level, shift);
      var offs := if f.size == 4 then 0 else 1;
      if f.size > 4 {
        FilteredKeepsEnds(vals, f.level, shift);
      }
      hide Filtered;
      for k := offs to f.size - offs
        invariant forall j :: 0 <= j < k ==> p[r0 + j, c] == data[j]
        invariant forall j :: k <= j < f.size ==> p[r0 + j, c] == vals[j]
        invariant forall i, j :: 0 <= i < p.Length0 && 0 <= j < p.Length1 && !(j == c && r0 <= i < r0 + f.size) ==>
          p[i, j] == old(p[i, j])
      {
        p[r0 + k, c] := data[k];
      }
    }
  }

  method FilterVEdge(p: array2<int>, x: nat, y: nat, f: Filter, shift: nat)
    requires f.size == 0 || IsSize(f.size)
    requires Active(f) ==> Fits(Edge(true, x, y), f.size, p.Length1, p.Length0)
    modifies p
    ensures PixelsOf(p) == Deblocked(old(PixelsOf(p)), Edge(true, x, y), f, p.Length1, p.Length0, shift)
  {
    hide Filtered;
    ghost var before, e, w, h := PixelsOf(p), Edge(true, x, y), p.Length1, p.Length0;
    if f.size > 0 && f.level > 0 {
      var c0 := 4 * x - f.size / 2;
      for i := 0 to 4
        invariant forall r, c :: 0 <= r < h && 0 <= c < w ==>
          p[r, c] == if r < 4 * y + i then PixelAfter(before, e, f, w, h, shift, r, c) else before[r][c]
      {
        var row := 4 * y + i;
        ghost var t := seq(f.size, k requires 0 <= k < f.size reads p => p[row, c0 + k]);
        DeblockRow(p, row, c0, f, shift, t);
        forall c | 0 <= c < w ensures p[row, c] == PixelAfter(before, e, f, w, h, shift, row, c) {
          if c0 <= c < c0 + f.size {
            assert Taps(before, e, f.size, w, h, row, c) == t;
            assert p[row, c0 + (c - c0)] == Filtered(t, f.level, shift)[c - c0];
          }
        }
      }
    }
    SamePixels(PixelsOf(p), Deblocked(before, e, f, w, h, shift), w, h);
  }

  method FilterHEdge(p: array2<int>, x: nat, y: nat, f: Filter, shift: nat)
    requires f.size == 0 || IsSize(f.size)
    requires Active(f) ==> Fits(Edge(false, x, y), f.size, p.Length1, p.Length0)
    modifies p
    ensures PixelsOf(p) == Deblocked(old(PixelsOf(p)), Edge(false, x, y), f, p.Length1, p.Length0, shift)
  {
    hide Filtered;
    ghost var before, e, w, h := PixelsOf(p), Edge(false, x, y), p.Length1, p.Length0;
    if f.size > 0 && f.level > 0 {
      var r0 := 4 * y - f.size / 2;
      for i := 0 to 4
        invariant forall r, c :: 0 <= r < h && 0 <= c < w ==>
          p[r, c] == if c < 4 * x + i then PixelAfter(before, e, f, w, h, shift, r, c) else before[r][c]
      {
        var column := 4 * x + i;
        ghost var t := seq(f.size, k requires 0 <= k < f.size reads p => p[r0 + k, column]);
        DeblockColumn(p, r0, column, f, shift, t);
        forall r | 0 <= r < h ensures p[r, column] == PixelAfter(before, e, f, w, h, shift, r, column) {
          if r0 <= r < r0 + f.size {
            assert Taps(before, e, f.size, w, h, r, column) == t;
            assert p[r0 + (r - r0), column] == Filtered(t, f.level, shift)[r - r0];
          }
        }
      }
    }
    SamePixels(PixelsOf(p), Deblocked(before, e, f, w, h, shift), w, h);
  }

  // The walk over the plane ----------------------------------------------------------

  /** MI units per unit of the plane, and back. */
  function Up(u: nat, dec: nat): nat {
    if dec == 0 then u else 2 * u
  }

  function Down(x: nat, dec: nat): nat {
    if dec == 0 then x else x / 2
  }

  /** Plane units to deblock along one direction: the coded or the visible ones, whichever are fewer. */
  function Units(blocks: nat, visible: nat, dec: nat): nat {
    var mi := (visible + MI_SIZE - 1) / MI_SIZE;
    Down((if blocks < mi then blocks else mi) + Up(1, dec) / 2, dec)
  }

  /** Row or column c of a plane is inside the frame and belongs to a coded block. */
  predicate Shown(c: nat, blocks: nat, visible: nat, dec: nat) {
    var luma := if dec == 0 then c else c + c;
    luma < visible && luma / 4 < blocks
  }

  /** The units counted are those with a pixel that is shown. */
  lemma UnitsAreShown(blocks: nat, visible: nat, dec: nat, c: nat)
    requires dec <= 1
    ensures Shown(c, blocks, visible, dec) ==> c / 4 < Units(blocks, visible, dec)
    ensures c < Units(blocks, visible, dec) <==> Shown(4 * c, blocks, visible, dec)
  {
  }

  /** What a plane consists of: its coded blocks, the frame's size, and its subsampling. */
  datatype Extent = Extent(blockCols: nat, blockRows: nat, visibleW: nat, visibleH: nat, xdec: nat, ydec: nat)

  /** The segment's 4x4 unit has a pixel that is shown, and the edge is not the frame's. */
  predicate VisibleEdge(e: Edge, x: Extent) {
    && Shown(4 * e.x, x.blockCols, x.visibleW, x.xdec) && Shown(4 * e.y, x.blockRows, x.visibleH, x.ydec)
    && (if e.vertical then e.x >= 1 else e.y >= 1)
  }

  lemma VisibleIsInPlane(e: Edge, x: Extent)
    requires x.xdec <= 1 && x.ydec <= 1
    ensures VisibleEdge(e, x) <==>
      InPlane(e, Units(x.blockCols, x.visibleW, x.xdec), Units(x.blockRows, x.visibleH, x.ydec))
  {
    UnitsAreShown(x.blockCols, x.visibleW, x.xdec, e.x);
    UnitsAreShown(x.blockRows, x.visibleH, x.ydec, e.y);
    hide Shown, Units;
  }

  /** Which of the frame's levels an edge of a plane uses. */
  function LevelIndex(pli: nat, vertical: bool): nat {
    if pli > 0 then pli + 1 else if vertical then 0 else 1
  }

  predicate AnyLevel(levels: seq<nat>, pli: nat)
    requires |levels| == 4
  {
    pli < 3 && exists vertical: bool :: levels[LevelIndex(pli, vertical)] != 0
  }

  lemma EnabledByLevels(levels: seq<nat>, pli: nat)
    requires |levels| == 4
    ensures Enabled(levels, pli) <==> AnyLevel(levels, pli)
  {
    if pli < 3 {
      assert LevelIndex(pli, true) == (if pli > 0 then pli + 1 else 0);
      assert LevelIndex(pli, false) == pli + 1;
    }
  }

  predicate Enabled(levels: seq<nat>, pli: nat)
    requires |levels| == 4
  {
    if pli == 0 then levels[0] != 0 || levels[1] != 0
    else if pli == 1 then levels[2] != 0
    else if pli == 2 then levels[3] != 0
    else false
  }

  /** Sizes are those of filters, and every footprint lies inside the plane. */
  ghost predicate Usable(fs: Filters, cols: nat, rows: nat, w: nat, h: nat) {
    && (forall e :: fs(e).size == 0 || IsSize(fs(e).size))
    && (forall e :: InPlane(e, cols, rows) && Active(fs(e)) ==> Fits(e, fs(e).size, w, h))
  }

  /** The plane is as if vs had been filtered in order, and then hs. */
  ghost predicate Reached(p: array2<int>, was: Pixels, vs: seq<Edge>, hs: seq<Edge>, fs: Filters, shift: nat)
    reads p
  {
    && Shaped(was, p.Length1, p.Length0)
    && AllFit(vs, fs, p.Length1, p.Length0) && AllFit(hs, fs, p.Length1, p.Length0)
    && AllFit(vs + hs, fs, p.Length1, p.Length0)
    && PixelsOf(p) == InOrder(was, vs + hs, fs, p.Length1, p.Length0, shift)
  }

  method VisitV(p: array2<int>, x: nat, y: nat, fs: Filters, shift: nat,
                ghost cols: nat, ghost rows: nat, ghost was: Pixels, ghost vs: seq<Edge>, ghost hs: seq<Edge>)
    requires Usable(fs, cols, rows, p.Length1, p.Length0) && InPlane(Edge(true, x, y), cols, rows)
    requires Reached(p, was, vs, hs, fs, shift)
    requires ClearOfAll(Edge(true, x, y), hs)
    modifies p
    ensures Reached(p, was, vs + [Edge(true, x, y)], hs, fs, shift)
  {
    hide Deblocked, InOrder, Fits, Clear;
    FilterVEdge(p, x, y, fs(Edge(true, x, y)), shift);
    LateVertical(was, vs, hs, Edge(true, x, y), fs, p.Length1, p.Length0, shift);
  }

  method VisitH(p: array2<int>, x: nat, y: nat, fs: Filters, shift: nat,
                ghost cols: nat, ghost rows: nat, ghost was: Pixels, ghost vs: seq<Edge>, ghost hs: seq<Edge>)
    requires Usable(fs, cols, rows, p.Length1, p.Length0) && InPlane(Edge(false, x, y), cols, rows)
    requires Reached(p, was, vs, hs, fs, shift)
    modifies p
    ensures Reached(p, was, vs, hs + [Edge(false, x, y)], fs, shift)
  {
    hide Deblocked, InOrder, Fits;
    var e := Edge(false, x, y);
    FilterHEdge(p, x, y, fs(e), shift);
    assert vs + (hs + [e]) == (vs + hs) + [e];
    InOrderSnoc(was, vs + hs, e, fs, p.Length1, p.Length0, shift);
  }

  /** Vertical segments of a row, all of them. */
  method FilterVRow(p: array2<int>, y: nat, colsMi: nat, xdec: nat, fs: Filters, shift: nat,
                    ghost cols: nat, ghost rows: nat, ghost was: Pixels, ghost vs: seq<Edge>)
    requires xdec <= 1 && colsMi == Up(cols, xdec) && y < rows
    requires Usable(fs, cols, rows, p.Length1, p.Length0)
    requires Reached(p, was, vs, [], fs, shift)
    modifies p
    ensures Reached(p, was, vs + VerticalRow(cols, y), [], fs, shift)
  {
    hide Reached, Usable, Clear, AllVertical;
    var x := Up(1, xdec);
    ghost var u := 1;
    assert vs + VerticalRow(1, y) == vs;
    while x < colsMi
      invariant x == Up(u, xdec) && 1 <= u && (u <= cols || (u == 1 && cols == 0))
      invariant Reached(p, was, vs + VerticalRow(u, y), [], fs, shift)
      decreases colsMi - x
    {
      VisitV(p, Down(x, xdec), y, fs, shift, cols, rows, was, vs + VerticalRow(u, y), []);
      assert vs + VerticalRow(u + 1, y) == vs + VerticalRow(u, y) + [Edge(true, u, y)];
      u := u + 1;
      x := x + Up(1, xdec);
    }
    assert VerticalRow(cols, y) == VerticalRow(u, y);
  }

  lemma RowStart(hs: seq<Edge>, y: nat)
    ensures hs + HorizontalRow(0, y) == hs
  {
  }

  /** Horizontal segments filtered so far are clear of a vertical one two rows below
      most of them and three columns right of the rest. */
  lemma LagIsClear(cols: nat, y: nat, k: nat, x: nat)
    requires y >= 2 && (k == 0 || x >= k + 2)
    ensures ClearOfAll(Edge(true, x, y), AllHorizontal(cols, y - 1) + HorizontalRow(k, y - 1))
  {
    var a, b := AllHorizontal(cols, y - 1), HorizontalRow(k, y - 1);
    forall i | 0 <= i < |a + b| ensures Clear(Edge(true, x, y), (a + b)[i]) {
      if i < |a| {
        AllHorizontalEdges(cols, y - 1, i);
      } else {
        HorizontalRowEdges(k, y - 1, i - |a|);
      }
    }
  }

  /** Row y: its vertical segments, with the horizontal ones of the row above two columns behind. */
  method FilterBothRows(p: array2<int>, y: nat, colsMi: nat, xdec: nat, fs: Filters, shift: nat,
                        ghost cols: nat, ghost rows: nat, ghost was: Pixels, ghost vs: seq<Edge>)
    requires xdec <= 1 && colsMi == Up(cols, xdec) && 2 <= y < rows
    requires Usable(fs, cols, rows, p.Length1, p.Length0)
    requires Reached(p, was, vs, AllHorizontal(cols, y - 1), fs, shift)
    modifies p
    ensures Reached(p, was, vs + VerticalRow(cols, y), AllHorizontal(cols, y), fs, shift)
  {
    hide Reached, Usable, Clear, AllVertical;
    ghost var hs := AllHorizontal(cols, y - 1);
    assert vs + VerticalRow(1, y) == vs;
    RowStart(hs, y - 1);
    if colsMi > Up(1, xdec) {
      LagIsClear(cols, y, 0, 1);
      VisitV(p, 1, y, fs, shift, cols, rows, was, vs, hs);
      assert VerticalRow(2, y) == VerticalRow(1, y) + [Edge(true, 1, y)];
      assert vs + VerticalRow(2, y) == vs + [Edge(true, 1, y)];
    }
    var x := Up(2, xdec);
    ghost var u := 2;
    while x < colsMi
      invariant x == Up(u, xdec) && 2 <= u && (u <= cols || u == 2)
      invariant Reached(p, was, vs + (if cols < 2 then [] else VerticalRow(u, y)),
        hs + HorizontalRow(u - 2, y - 1), fs, shift)
      decreases colsMi - x
    {
      ghost var vs', hs' := vs + VerticalRow(u, y), hs + HorizontalRow(u - 2, y - 1);
      LagIsClear(cols, y, u - 2, u);
      VisitV(p, Down(x, xdec), y, fs, shift, cols, rows, was, vs', hs');
      assert vs' + [Edge(true, u, y)] == vs + VerticalRow(u + 1, y);
      VisitH(p, Down(x - Up(2, xdec), xdec), y - 1, fs, shift, cols, rows, was, vs + VerticalRow(u + 1, y), hs');
      assert hs' + [Edge(false, u - 2, y - 1)] == hs + HorizontalRow(u + 1 - 2, y - 1);
      u := u + 1;
      x := x + Up(1, xdec);
    }
    ghost var vs' := vs + VerticalRow(cols, y);
    assert cols >= 2 ==> u == cols;
    assert cols < 2 ==> VerticalRow(cols, y) == [];
    assert vs + [] == vs;
    if colsMi >= Up(2, xdec) {
      VisitH(p, Down(colsMi - Up(2, xdec), xdec), y - 1, fs, shift, cols, rows, was, vs',
        hs + HorizontalRow(cols - 2, y - 1));
      assert hs + HorizontalRow(cols - 2, y - 1) + [Edge(false, cols - 2, y - 1)] ==
        hs + HorizontalRow(cols - 1, y - 1);
    }
    if colsMi >= Up(1, xdec) {
      VisitH(p, Down(colsMi - Up(1, xdec), xdec), y - 1, fs, shift, cols, rows, was, vs',
        hs + HorizontalRow(cols - 1, y - 1));
      assert hs + HorizontalRow(cols - 1, y - 1) + [Edge(false, cols - 1, y - 1)] == hs + HorizontalRow(cols, y - 1);
    }
  }

  method FilterHRow(p: array2<int>, y: nat, colsMi: nat, xdec: nat, fs: Filters, shift: nat,
                    ghost cols: nat, ghost rows: nat, ghost was: Pixels, ghost vs: seq<Edge>, ghost hs: seq<Edge>)
    requires xdec <= 1 && colsMi == Up(cols, xdec) && 1 <= y < rows
    requires Usable(fs, cols, rows, p.Length1, p.Length0)
    requires Reached(p, was, vs, hs, fs, shift)
    modifies p
    ensures Reached(p, was, vs, hs + HorizontalRow(cols, y), fs, shift)
  {
    hide Reached, Usable, Clear, AllVertical;
    var x := 0;
    ghost var u := 0;
    RowStart(hs, y);
    while x < colsMi
      invariant x == Up(u, xdec) && u <= cols
      invariant Reached(p, was, vs, hs + HorizontalRow(u, y), fs, shift)
      decreases colsMi - x
    {
      VisitH(p, Down(x, xdec), y, fs, shift, cols, rows, was, vs, hs + HorizontalRow(u, y));
      assert hs + HorizontalRow(u + 1, y) == hs + HorizontalRow(u, y) + [Edge(false, u, y)];
      u := u + 1;
      x := x + Up(1, xdec);
    }
  }

  /** However the segments are interleaved, the plane ends as if all visible vertical segments
      had been filtered, row by row, and then all horizontal ones, unless none of the plane's
      levels is set. */
  method Deblock(p: array2<int>, levels: seq<nat>, pli: nat, fs: Filters, shift: nat, x: Extent)
      returns (ghost es: seq<Edge>)
    requires |levels| == 4 && x.xdec <= 1 && x.ydec <= 1
    requires forall e :: fs(e).size == 0 || IsSize(fs(e).size)
    requires forall e :: VisibleEdge(e, x) && Active(fs(e)) ==> Fits(e, fs(e).size, p.Length1, p.Length0)
    modifies p
    ensures InRaster(es) && forall e :: e in es <==> VisibleEdge(e, x)
    ensures AllFit(es, fs, p.Length1, p.Length0)
    ensures PixelsOf(p) == if AnyLevel(levels, pli) then InOrder(old(PixelsOf(p)), es, fs, p.Length1, p.Length0, shift)
                           else old(PixelsOf(p))
  {
    hide Deblocked, AllVertical, AllHorizontal, InOrder, Units, Fits, InPlane, VisibleEdge, InRaster;
    var cols, rows := Units(x.blockCols, x.visibleW, x.xdec), Units(x.blockRows, x.visibleH, x.ydec);
    forall e ensures VisibleEdge(e, x) <==> InPlane(e, cols, rows) {
      VisibleIsInPlane(e, x);
    }
    es := AllVertical(cols, rows) + AllHorizontal(cols, rows);
    ReferenceInRaster(cols, rows);
    ReferenceFits(cols, rows, fs, p.Length1, p.Length0);
    EnabledByLevels(levels, pli);
    hide Usable;
    if !Enabled(levels, pli) {
      return;
    }
    ghost var was := PixelsOf(p);
    NothingYet(p, was, fs, shift);
    Walk(p, Up(cols, x.xdec), Up(rows, x.ydec), x.xdec, x.ydec, fs, shift, cols, rows, was);
  }

  /** Vertical filtering leads horizontal filtering by a row, and by two columns within it. */
  method Walk(p: array2<int>, colsMi: nat, rowsMi: nat, xdec: nat, ydec: nat, fs: Filters, shift: nat,
              ghost cols: nat, ghost rows: nat, ghost was: Pixels)
    requires xdec <= 1 && ydec <= 1 && colsMi == Up(cols, xdec) && rowsMi == Up(rows, ydec)
    requires Usable(fs, cols, rows, p.Length1, p.Length0)
    requires Reached(p, was, [], [], fs, shift)
    modifies p
    ensures Reached(p, was, AllVertical(cols, rows), AllHorizontal(cols, rows), fs, shift)
  {
    hide Usable, Reached, VerticalRow, HorizontalRow;
    assert [] + VerticalRow(cols, 0) == VerticalRow(cols, 0);
    if rowsMi > 0 {
      FilterVRow(p, 0, colsMi, xdec, fs, shift, cols, rows, was, AllVertical(cols, 0));
      assert AllVertical(cols, 1) == AllVertical(cols, 0) + VerticalRow(cols, 0);
      if rowsMi > Up(1, ydec) {
        FilterVRow(p, 1, colsMi, xdec, fs, shift, cols, rows, was, AllVertical(cols, 1));
        assert AllVertical(cols, 2) == AllVertical(cols, 1) + VerticalRow(cols, 1);
      }
    }
    var y := Up(2, ydec);
    ghost var v := 2;
    while y < rowsMi
      invariant y == Up(v, ydec) && 2 <= v && (v <= rows || v == 2)
      invariant Reached(p, was, AllVertical(cols, if rows < 2 then rows else v), AllHorizontal(cols, v - 1), fs, shift)
      decreases rowsMi - y
    {
      FilterBothRows(p, Down(y, ydec), colsMi, xdec, fs, shift, cols, rows, was, AllVertical(cols, v));
      assert AllVertical(cols, v + 1) == AllVertical(cols, v) + VerticalRow(cols, v);
      v := v + 1;
      y := y + Up(1, ydec);
    }
    if rowsMi > Up(1, ydec) {
      FilterHRow(p, Down(rowsMi - Up(1, ydec), ydec), colsMi, xdec, fs, shift, cols, rows, was,
        AllVertical(cols, rows), AllHorizontal(cols, rows - 1));
      assert AllHorizontal(cols, rows) == AllHorizontal(cols, rows - 1) + HorizontalRow(cols, rows - 1);
    }
  }

  lemma NothingYet(p: array2<int>, was: Pixels, fs: Filters, shift: nat)
    requires was == PixelsOf(p)
    ensures Reached(p, was, [], [], fs, shift)
  {
    var none: seq<Edge> := [];
    assert none + none == none;
  }

  lemma ReferenceFits(cols: nat, rows: nat, fs: Filters, w: nat, h: nat)
    requires Usable(fs, cols, rows, w, h)
    ensures AllFit(AllVertical(cols, rows) + AllHorizontal(cols, rows), fs, w, h)
  {
    hide Fits;
    var es := AllVertical(cols, rows) + AllHorizontal(cols, rows);
    forall i | 0 <= i < |es| && Active(fs(es[i])) ensures Fits(es[i], fs(es[i]).size, w, h) {
      assert es[i] in multiset(es);
      EachOnce(cols, rows, es[i]);
    }
  }
}
