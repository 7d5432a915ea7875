/** Hexagon motion search: later rounds test only the three neighbours that the previous
    round cannot already have tested. */
module HexagonSearch {
  datatype Mv = Mv(row: int, col: int)

  function Plus(a: Mv, b: Mv): Mv {
    Mv(a.row + b.row, a.col + b.col)
  }

  const EMPTY_COST := 0xFFFF_FFFF_FFFF_FFFF

  /** The motion vectors a search may visit. */
  datatype Window = Window(mvxMin: int, mvxMax: int, mvyMin: int, mvyMax: int) {
    predicate Contains(mv: Mv) {
      mvxMin <= mv.col <= mvxMax && mvyMin <= mv.row <= mvyMax
    }
  }

  type Cost = c: nat | c <= EMPTY_COST

  /** Any cost at all inside the window; the empty cost outside. */
  function FullpelCost(cost: Mv -> Cost, win: Window, mv: Mv): Cost {
    if win.Contains(mv) then cost(mv) else EMPTY_COST
  }

  datatype SearchResult = SearchResult(mv: Mv, cost: Cost)

  const EMPTY := SearchResult(Mv(0, 0), EMPTY_COST)

  /** In eighths of a pixel, clockwise from the top. */
  function Hexagon(i: nat): Mv
    requires i < 6
  {
    match i
    case 0 => Mv(-16, 0)
    case 1 => Mv(-8, 16)
    case 2 => Mv(8, 16)
    case 3 => Mv(16, 0)
    case 4 => Mv(8, -16)
    case 5 => Mv(-8, -16)
  }

  function Square(i: nat): Mv
    requires i < 8
  {
    match i
    case 0 => Mv(8, -8)
    case 1 => Mv(8, 0)
    case 2 => Mv(8, 8)
    case 3 => Mv(0, -8)
    case 4 => Mv(0, 8)
    case 5 => Mv(-8, -8)
    case 6 => Mv(-8, 0)
    case 7 => Mv(-8, 8)
  }

  /** The two patterns, without an order. */
  predicate OnHexagon(v: Mv) {
    if v.col == 0 then v.row == -16 || v.row == 16
    else (v.row == -8 || v.row == 8) && (v.col == -16 || v.col == 16)
  }

  predicate OnSquare(v: Mv) {
    (v.row == -8 || v.row == 0 || v.row == 8) && (v.col == -8 || v.col == 0 || v.col == 8) && v != Mv(0, 0)
  }

  function HexagonIndex(v: Mv): (i: nat)
    requires OnHexagon(v)
    ensures i < 6 && Hexagon(i) == v
  {
    if v.col == 0 then (if v.row < 0 then 0 else 3)
    else if v.col > 0 then (if v.row < 0 then 1 else 2)
    else if v.row > 0 then 4 else 5
  }

  function SquareIndex(v: Mv): (i: nat)
    requires OnSquare(v)
    ensures i < 8 && Square(i) == v
  {
    if v.row == 8 then (v.col + 8) / 8
    else if v.row == 0 then (if v.col < 0 then 3 else 4)
    else 5 + (v.col + 8) / 8
  }

  function Neighbour(mv: Mv, i: nat): Mv
    requires i < 6
  {
    Plus(mv, Hexagon(i))
  }

  /** The direction k steps clockwise of d. */
  function Turn(d: nat, k: nat): (i: nat)
    requires d < 6 && k <= 7
    ensures i < 6 && i == (d + k) % 6
  {
    if d + k < 6 then d + k else if d + k < 12 then d + k - 6 else d + k - 12
  }

  /** After a move in direction d, the three neighbours behind are the old centre and
      two of its own neighbours. */
  lemma Overlap(c: Mv, d: nat)
    requires d < 6
    ensures Neighbour(Neighbour(c, d), Turn(d, 3)) == c
    ensures Neighbour(Neighbour(c, d), Turn(d, 2)) == Neighbour(c, Turn(d, 1))
    ensures Neighbour(Neighbour(c, d), Turn(d, 4)) == Neighbour(c, Turn(d, 5))
  {
  }

  /** No neighbour of mv costs less than both bounds allow. */
  ghost predicate NoneBelow(cost: Mv -> Cost, win: Window, mv: Mv, bound: nat) {
    forall i :: 0 <= i < 6 ==> FullpelCost(cost, win, Neighbour(mv, i)) >= bound
  }

  function Min(a: nat, b: nat): nat {
    if a < b then a else b
  }

  /** The result is either what the search started from or a vector in the window with its true cost. */
  ghost predicate Genuine(cost: Mv -> Cost, win: Window, r: SearchResult, start: SearchResult) {
    r == start || (win.Contains(r.mv) && r.cost == cost(r.mv))
  }

  lemma NeighboursAfterMove(cost: Mv -> Cost, win: Window, c: Mv, d: nat, before: nat, here: nat, ahead: nat)
    requires d < 6 && here <= before && NoneBelow(cost, win, c, here)
    requires FullpelCost(cost, win, c) >= before
    requires forall k :: 5 <= k < 8 ==> FullpelCost(cost, win, Neighbour(Neighbour(c, d), Turn(d, k))) >= ahead
    ensures NoneBelow(cost, win, Neighbour(c, d), Min(here, ahead))
  {
    Overlap(c, d);
    var m := Neighbour(c, d);
    hide Hexagon, FullpelCost, Neighbour;
    assert FullpelCost(cost, win, Neighbour(m, Turn(d, 5))) >= ahead;
    assert FullpelCost(cost, win, Neighbour(m, Turn(d, 6))) >= ahead && Turn(d, 6) == Turn(d, 0);
    assert FullpelCost(cost, win, Neighbour(m, Turn(d, 7))) >= ahead && Turn(d, 7) == Turn(d, 1);
    forall i | 0 <= i < 6 ensures FullpelCost(cost, win, Neighbour(m, i)) >= Min(here, ahead) {
      var k := if i >= d then i - d else i + 6 - d;
      assert i == Turn(d, k) && 0 <= k < 6;
      assert k == 0 || k == 1 || k == 2 || k == 3 || k == 4 || k == 5;
    }
  }

  lemma NoneBelowHexagon(cost: Mv -> Cost, win: Window, mv: Mv, bound: nat)
    requires NoneBelow(cost, win, mv, bound)
    ensures forall v :: OnHexagon(v) ==> FullpelCost(cost, win, Plus(mv, v)) >= bound
  {
    hide Hexagon, OnHexagon;
    forall v | OnHexagon(v) ensures FullpelCost(cost, win, Plus(mv, v)) >= bound {
      assert Neighbour(mv, HexagonIndex(v)) == Plus(mv, v);
    }
  }

  lemma NoneBelowSquare(cost: Mv -> Cost, win: Window, mv: Mv, bound: nat)
    requires forall i :: 0 <= i < 8 ==> FullpelCost(cost, win, Plus(mv, Square(i))) >= bound
    ensures forall v :: OnSquare(v) ==> FullpelCost(cost, win, Plus(mv, v)) >= bound
  {
    hide Square, OnSquare;
    forall v | OnSquare(v) ensures FullpelCost(cost, win, Plus(mv, v)) >= bound {
      assert Square(SquareIndex(v)) == v;
    }
  }

  lemma SquareIsOn(i: nat)
    requires i < 8
    ensures OnSquare(Square(i))
  {
  }

  /** Terminates for any cost function, never ends worse than it started, and ends at a
      centre that nothing on the hexagon around it undercuts, or at a cheaper vector of the
      square around that, than which nothing on the square is cheaper.
      The centre claim needs the caller's starting cost not to overstate the start. */
  method Search(cost: Mv -> Cost, win: Window, start: SearchResult)
      returns (current: SearchResult, ghost centre: SearchResult)
    ensures current.cost <= centre.cost <= start.cost
    ensures Genuine(cost, win, centre, start) && Genuine(cost, win, current, start)
    ensures start.cost <= FullpelCost(cost, win, start.mv) ==>
      forall v :: OnHexagon(v) ==> FullpelCost(cost, win, Plus(centre.mv, v)) >= centre.cost
    ensures forall v :: OnSquare(v) ==> FullpelCost(cost, win, Plus(centre.mv, v)) >= current.cost
    ensures current == centre || exists v :: OnSquare(v) && current.mv == Plus(centre.mv, v)
  {
    hide Hexagon, Square, Turn, OnHexagon, OnSquare;
    current := start;
    var bestIdx: nat := 0;
    var best := EMPTY;
    for i := 0 to 6
      invariant bestIdx < 6
      invariant best.cost < EMPTY_COST ==>
        best == SearchResult(Neighbour(current.mv, bestIdx), FullpelCost(cost, win, Neighbour(current.mv, bestIdx)))
      invariant forall j :: 0 <= j < i ==> FullpelCost(cost, win, Neighbour(current.mv, j)) >= best.cost
    {
      var cand := Plus(current.mv, Hexagon(i));
      var c := FullpelCost(cost, win, cand);
      if c < best.cost {
        bestIdx := i;
        best := SearchResult(cand, c);
      }
    }
    while best.cost < current.cost
      invariant bestIdx < 6
      invariant current.cost <= start.cost && Genuine(cost, win, current, start)
      invariant best.cost < EMPTY_COST ==>
        best == SearchResult(Neighbour(current.mv, bestIdx), FullpelCost(cost, win, Neighbour(current.mv, bestIdx)))
      invariant start.cost <= FullpelCost(cost, win, start.mv) ==>
        && current.cost <= FullpelCost(cost, win, current.mv)
        && NoneBelow(cost, win, current.mv, Min(current.cost, best.cost))
      decreases current.cost
    {
      ghost var from := current;
      current := best;
      best := EMPTY;
      var center := bestIdx;
      for k := 5 to 8
        invariant bestIdx < 6
        invariant best.cost < EMPTY_COST ==>
          best == SearchResult(Neighbour(current.mv, bestIdx), FullpelCost(cost, win, Neighbour(current.mv, bestIdx)))
        invariant forall j :: 5 <= j < k ==> FullpelCost(cost, win, Neighbour(current.mv, Turn(center, j))) >= best.cost
      {
        var i := (center + k) % 6;
        assert i == Turn(center, k);
        var cand := Plus(current.mv, Hexagon(i));
        var c := FullpelCost(cost, win, cand);
        if c < best.cost {
          bestIdx := i;
          best := SearchResult(cand, c);
        }
      }
      if start.cost <= FullpelCost(cost, win, start.mv) {
        NeighboursAfterMove(cost, win, from.mv, center, from.cost, current.cost, best.cost);
      }
    }
    centre := current;
    if start.cost <= FullpelCost(cost, win, start.mv) {
      NoneBelowHexagon(cost, win, centre.mv, centre.cost);
    }
    best := EMPTY;
    for i := 0 to 8
      invariant best.cost < EMPTY_COST ==>
        && win.Contains(best.mv) && best.cost == cost(best.mv)
        && exists v :: OnSquare(v) && best.mv == Plus(centre.mv, v)
      invariant forall j :: 0 <= j < i ==> FullpelCost(cost, win, Plus(current.mv, Square(j))) >= best.cost
    {
      var cand := Plus(current.mv, Square(i));
      SquareIsOn(i);
      var c := FullpelCost(cost, win, cand);
      if c < best.cost {
        best := SearchResult(cand, c);
      }
    }
    NoneBelowSquare(cost, win, centre.mv, best.cost);
    if best.cost < current.cost {
      current := best;
    }
  }
}
