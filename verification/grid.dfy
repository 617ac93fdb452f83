/**
 * The occupancy grid (`Grid` in src/city_grow.rs): a row-major bit field of
 * `size_x * size_y` cells addressed by `u32` coordinates, with bounds-checked
 * `get`, `set` and `fill`, and the free-neighbour enumeration every move and
 * branch-off is chosen from.
 */
module Grids {
  import opened Ints
  import opened Wrappers
  import opened Positions

  datatype Grid = Grid(cells: seq<bool>, sizeX: U32, sizeY: U32)

  /**
   * `rows * width` as repeated addition, so that the row-major index arithmetic
   * stays linear for the solver; `MulMonotone` is the one fact it needs.
   */
  function Mul(rows: nat, width: nat): nat {
    if rows == 0 then 0 else width + Mul(rows - 1, width)
  }

  lemma {:induction false} MulIsProduct(rows: nat, width: nat)
    ensures Mul(rows, width) == rows * width
  {
    if rows > 0 {
      MulIsProduct(rows - 1, width);
    }
  }

  lemma {:induction false} MulMonotone(a: nat, b: nat, width: nat)
    requires a <= b
    ensures Mul(a, width) <= Mul(b, width)
    decreases b
  {
    if a < b {
      MulMonotone(a, b - 1, width);
    }
  }

  /**
   * A grid as `Grid::new` builds it: one bit per cell, the cell count fits the
   * `u32` product `size_x * size_y`, and both sizes survive the `as i32` casts
   * of `is_position_valid`.
   */
  predicate Valid(g: Grid) {
    && g.sizeX <= I32_MAX
    && g.sizeY <= I32_MAX
    && Mul(g.sizeY, g.sizeX) < U32_LIMIT
    && |g.cells| == Mul(g.sizeY, g.sizeX)
  }

  predicate InRange(g: Grid, x: int, y: int) {
    0 <= x < g.sizeX && 0 <= y < g.sizeY
  }

  /** Row-major bit index `y * size_x + x`. */
  function Index(g: Grid, x: nat, y: nat): nat {
    Mul(y, g.sizeX) + x
  }

  lemma IndexInRange(g: Grid, x: nat, y: nat)
    requires Valid(g) && InRange(g, x, y)
    ensures Index(g, x, y) < |g.cells|
  {
    MulMonotone(y + 1, g.sizeY, g.sizeX);
  }

  lemma IndexInRangeAll(g: Grid)
    requires Valid(g)
    ensures forall a: nat, b: nat :: InRange(g, a, b) ==> Index(g, a, b) < |g.cells|
  {
    forall a: nat, b: nat | InRange(g, a, b)
      ensures Index(g, a, b) < |g.cells|
    {
      IndexInRange(g, a, b);
    }
  }

  lemma IndexInjective(g: Grid, x: nat, y: nat, a: nat, b: nat)
    requires x < g.sizeX && a < g.sizeX
    requires Index(g, x, y) == Index(g, a, b)
    ensures x == a && y == b
  {
    if y < b {
      MulMonotone(y + 1, b, g.sizeX);
    } else if b < y {
      MulMonotone(b + 1, y, g.sizeX);
    }
  }

  lemma IndexDistinct(g: Grid, x: nat, y: nat)
    requires Valid(g) && InRange(g, x, y)
    ensures forall a: nat, b: nat :: InRange(g, a, b) && (a != x || b != y) ==> Index(g, a, b) != Index(g, x, y)
  {
    forall a: nat, b: nat | InRange(g, a, b) && Index(g, a, b) == Index(g, x, y)
      ensures a == x && b == y
    {
      IndexInjective(g, x, y, a, b);
    }
  }

  /** `Grid::new`: every cell of the given extent starts free. */
  function NewGrid(sizeX: U32, sizeY: U32): (g: Grid)
    requires sizeX <= I32_MAX && sizeY <= I32_MAX && Mul(sizeY, sizeX) < U32_LIMIT
    ensures Valid(g) && g.sizeX == sizeX && g.sizeY == sizeY
    ensures forall x: U32, y: U32 :: Get(g, x, y) == if InRange(g, x, y) then Some(false) else None
  {
    var g := Grid(seq(Mul(sizeY, sizeX), _ => false), sizeX, sizeY);
    IndexInRangeAll(g);
    g
  }

  /** `Grid::get`: the cell's bit, or `None` outside the grid. */
  function Get(g: Grid, x: U32, y: U32): (r: Option<bool>)
    requires Valid(g)
    ensures r.None? <==> x >= g.sizeX || y >= g.sizeY
  {
    if x < g.sizeX && y < g.sizeY then
      IndexInRange(g, x, y);
      Some(g.cells[Index(g, x, y)])
    else None
  }

  /** `Grid::set`: writes one in-range cell; out of range it does nothing. */
  function Set(g: Grid, x: U32, y: U32, v: bool): (g': Grid)
    requires Valid(g)
    ensures Valid(g') && g'.sizeX == g.sizeX && g'.sizeY == g.sizeY
    ensures !InRange(g, x, y) ==> g' == g
    ensures forall a: U32, b: U32 ::
      Get(g', a, b) == if a == x && b == y && InRange(g, x, y) then Some(v) else Get(g, a, b)
  {
    if x < g.sizeX && y < g.sizeY then
      IndexInRange(g, x, y);
      IndexDistinct(g, x, y);
      IndexInRangeAll(g);
      g.(cells := g.cells[Index(g, x, y) := v])
    else g
  }

  /** `Grid::fill`: every cell takes the value `v`. */
  function Fill(g: Grid, v: bool): (g': Grid)
    requires Valid(g)
    ensures Valid(g') && g'.sizeX == g.sizeX && g'.sizeY == g.sizeY
    ensures forall a: U32, b: U32 :: Get(g', a, b) == if InRange(g, a, b) then Some(v) else None
  {
    IndexInRangeAll(g);
    g.(cells := seq(|g.cells|, _ => v))
  }

  /** `Grid::is_position_valid`: bounds only, against the sizes cast to `i32`. */
  predicate IsPositionValid(g: Grid, p: Pos)
    requires Valid(g)
  {
    p.x >= 0 && p.x < g.sizeX && p.y >= 0 && p.y < g.sizeY
  }

  /**
   * The signed bounds test agrees with the unsigned lookup it guards: a
   * position passes exactly when `get(pos.x as u32, pos.y as u32)` finds a
   * cell, because a negative coordinate wraps above every size a valid grid has.
   */
  lemma {:induction false} PositionValidIsCastLookup(g: Grid, p: Pos)
    requires Valid(g)
    ensures IsPositionValid(g, p) <==> Get(g, AsU32(p.x), AsU32(p.y)).Some?
    ensures IsPositionValid(g, p) <==> InRange(g, p.x, p.y)
  {
    var x, y := AsU32(p.x), AsU32(p.y);
    if p.x < 0 {
      assert x > I32_MAX >= g.sizeX;
    }
    if p.y < 0 {
      assert y > I32_MAX >= g.sizeY;
    }
  }

  /** The cell at `p` is inside the grid and marked. */
  predicate Occupied(g: Grid, p: Pos)
    requires Valid(g)
  {
    IsPositionValid(g, p) && Get(g, p.x, p.y) == Some(true)
  }

  /** The cell at `p` is inside the grid and not marked. */
  predicate Free(g: Grid, p: Pos)
    requires Valid(g)
  {
    IsPositionValid(g, p) && Get(g, p.x, p.y) == Some(false)
  }

  /** The lookup `get(pos.x as u32, pos.y as u32) == Some(false)` holds exactly on free cells. */
  lemma CastLookupIsFree(g: Grid, p: Pos)
    requires Valid(g)
    ensures Get(g, AsU32(p.x), AsU32(p.y)) == Some(false) <==> Free(g, p)
  {
  }

  /** `grid.set(p.x as u32, p.y as u32, true)`, the way the scene marks a cell. */
  function Mark(g: Grid, p: Pos): (g': Grid)
    requires Valid(g)
    ensures Valid(g') && g'.sizeX == g.sizeX && g'.sizeY == g.sizeY
    ensures forall c :: Occupied(g', c) <==> Occupied(g, c) || (c == p && IsPositionValid(g, p))
    ensures forall c :: Free(g', c) <==> Free(g, c) && c != p
  {
    Set(g, AsU32(p.x), AsU32(p.y), true)
  }

  /** The candidate `pos + d` of the neighbour filter, kept when it is a free cell. */
  function Candidate(g: Grid, p: Pos, d: Pos): (r: seq<Pos>)
    requires Valid(g)
    ensures |r| <= 1
    ensures forall q :: q in r <==> TryAdd(p, d) == Some(q) && Free(g, q)
  {
    match TryAdd(p, d)
    case None => []
    case Some(q) => if Get(g, AsU32(q.x), AsU32(q.y)) == Some(false) then [q] else []
  }

  predicate RankOrdered(p: Pos, r: seq<Pos>) {
    forall i, j :: 0 <= i < j < |r| ==> Rank(p, r[i]) < Rank(p, r[j])
  }

  /** Putting at most one cell of rank `k` in front of cells of higher rank keeps the order. */
  lemma PrependOrdered(p: Pos, a: seq<Pos>, rest: seq<Pos>, k: nat)
    requires |a| <= 1 && forall q :: q in a ==> Rank(p, q) == k
    requires RankOrdered(p, rest) && forall q :: q in rest ==> Rank(p, q) > k
    ensures RankOrdered(p, a + rest)
    ensures forall q :: q in a + rest ==> Rank(p, q) >= k
  {
    var r := a + rest;
    forall i, j | 0 <= i < j < |r|
      ensures Rank(p, r[i]) < Rank(p, r[j])
    {
      if |a| == 1 && i == 0 {
        assert r[j] in rest;
      } else {
        assert r[i] == rest[i - |a|] && r[j] == rest[j - |a|];
      }
    }
  }

  lemma CandidateStep(g: Grid, p: Pos, q: Pos)
    requires Valid(g)
    ensures q in Candidate(g, p, East) + Candidate(g, p, West) + Candidate(g, p, South) + Candidate(g, p, North)
        <==> Adjacent(p, q) && Free(g, q)
  {
    var e, w, s, n := Candidate(g, p, East), Candidate(g, p, West), Candidate(g, p, South), Candidate(g, p, North);
    CandidateAt(g, p, East, q);
    CandidateAt(g, p, West, q);
    CandidateAt(g, p, South, q);
    CandidateAt(g, p, North, q);
    assert q in e + w + s + n <==> q in e || q in w || q in s || q in n;
  }

  /** A free cell is the candidate of the offset that reaches it: no in-grid sum overflows. */
  lemma CandidateAt(g: Grid, p: Pos, d: Pos, q: Pos)
    requires Valid(g)
    ensures q in Candidate(g, p, d) <==> q.x == p.x + d.x && q.y == p.y + d.y && Free(g, q)
  {
    if Free(g, q) {
      assert IsI32(q.x) && IsI32(q.y);
    }
  }

  /** The `filter_map` over a list of offsets: each candidate in list order. */
  function FreeAmong(g: Grid, p: Pos, ds: seq<Pos>): seq<Pos>
    requires Valid(g)
  {
    if |ds| == 0 then [] else Candidate(g, p, ds[0]) + FreeAmong(g, p, ds[1..])
  }

  lemma FreeAmongDirections(g: Grid, p: Pos)
    requires Valid(g)
    ensures FreeAmong(g, p, Directions) ==
      Candidate(g, p, East) + Candidate(g, p, West) + Candidate(g, p, South) + Candidate(g, p, North)
  {
    var d1, d2, d3, d4: seq<Pos> := [North], [South, North], [West, South, North], [East, West, South, North];
    assert d1[1..] == [] && d2[1..] == d1 && d3[1..] == d2 && d4[1..] == d3 && d4 == Directions;
    var c1 := Candidate(g, p, North);
    var c2 := Candidate(g, p, South) + c1;
    var c3 := Candidate(g, p, West) + c2;
    assert FreeAmong(g, p, d1) == c1 + [] == c1;
    assert FreeAmong(g, p, d2) == c2;
    assert FreeAmong(g, p, d3) == c3;
    assert FreeAmong(g, p, d4) == Candidate(g, p, East) + c3;
  }

  /**
   * `Grid::get_free_neighbors`: the free cells among `p + d` for `d` in
   * `Directions`, skipping any sum that overflows, in East, West, South, North order.
   */
  function FreeNeighbors(g: Grid, p: Pos): (r: seq<Pos>)
    requires Valid(g)
    ensures |r| <= 4
    ensures forall q :: q in r <==> Adjacent(p, q) && Free(g, q)
    ensures RankOrdered(p, r)
  {
    FreeAmongDirections(g, p);
    CandidatesOrdered(g, p);
    CandidatesFree(g, p);
    FreeAmong(g, p, Directions)
  }

  /** The four candidates come out in rank order. */
  lemma CandidatesOrdered(g: Grid, p: Pos)
    requires Valid(g)
    ensures RankOrdered(p, Candidate(g, p, East) + Candidate(g, p, West) + Candidate(g, p, South) + Candidate(g, p, North))
  {
    var e, w, s, n := Candidate(g, p, East), Candidate(g, p, West), Candidate(g, p, South), Candidate(g, p, North);
    PrependOrdered(p, s, n, 2);
    PrependOrdered(p, w, s + n, 1);
    PrependOrdered(p, e, w + (s + n), 0);
    assert e + w + s + n == e + (w + (s + n));
  }

  /** The four candidates are exactly the free cells next to `p`. */
  lemma CandidatesFree(g: Grid, p: Pos)
    requires Valid(g)
    ensures forall q ::
      (q in Candidate(g, p, East) + Candidate(g, p, West) + Candidate(g, p, South) + Candidate(g, p, North)) <==>
      (Adjacent(p, q) && Free(g, q))
  {
    forall q
      ensures (q in Candidate(g, p, East) + Candidate(g, p, West) + Candidate(g, p, South) + Candidate(g, p, North)) <==>
              (Adjacent(p, q) && Free(g, q))
    {
      CandidateStep(g, p, q);
    }
  }

  /** `!get_free_neighbors(p).is_empty()`. */
  predicate HasFreeNeighbor(g: Grid, p: Pos)
    requires Valid(g)
  {
    |FreeAmong(g, p, Directions)| > 0
  }

  /** `Grid::random_pos`: the two `random_range` draws, reduced into the grid. */
  function RandomPos(g: Grid, drawX: nat, drawY: nat): (p: Pos)
    requires Valid(g) && g.sizeX > 0 && g.sizeY > 0
    ensures IsPositionValid(g, p)
    ensures drawX < g.sizeX && drawY < g.sizeY ==> p == Pos(drawX, drawY)
  {
    ModBelow(drawX, g.sizeX as nat);
    ModBelow(drawY, g.sizeY as nat);
    Pos(drawX % g.sizeX, drawY % g.sizeY)
  }

  /** A draw already below the bound is returned unchanged by the reduction. */
  lemma ModBelow(a: nat, n: nat)
    requires n > 0
    ensures a < n ==> a % n == a
  {
  }
}
