/**
 * Grid positions (`Pos` in src/city_grow.rs): a pair of `i32` coordinates with
 * overflow-checked addition and subtraction, and the four neighbour offsets in
 * the fixed East, West, South, North order.
 */
module Positions {
  import opened Ints
  import opened Wrappers

  datatype Pos = Pos(x: I32, y: I32)

  const East: Pos := Pos(1, 0)
  const West: Pos := Pos(-1, 0)
  const South: Pos := Pos(0, 1)
  const North: Pos := Pos(0, -1)

  /** The neighbour offsets, in the order every neighbour search visits them. */
  const Directions: seq<Pos> := [East, West, South, North]

  /** `Pos::try_add`: `checked_add` on both coordinates; `None` on any overflow. */
  function TryAdd(p: Pos, d: Pos): (r: Option<Pos>)
    ensures r.Some? <==> IsI32(p.x + d.x) && IsI32(p.y + d.y)
    ensures r.Some? ==> r.value.x == p.x + d.x && r.value.y == p.y + d.y
  {
    if IsI32(p.x + d.x) && IsI32(p.y + d.y) then Some(Pos(p.x + d.x, p.y + d.y)) else None
  }

  /** `Pos::try_sub`: `checked_sub` on both coordinates; `None` on any overflow. */
  function TrySub(p: Pos, d: Pos): (r: Option<Pos>)
    ensures r.Some? <==> IsI32(p.x - d.x) && IsI32(p.y - d.y)
    ensures r.Some? ==> r.value.x == p.x - d.x && r.value.y == p.y - d.y
  {
    if IsI32(p.x - d.x) && IsI32(p.y - d.y) then Some(Pos(p.x - d.x, p.y - d.y)) else None
  }

  /** Subtracting undoes a successful addition and vice versa. */
  lemma TrySubUndoesTryAdd(p: Pos, d: Pos)
    ensures TryAdd(p, d).Some? ==> TrySub(TryAdd(p, d).value, p) == Some(d)
    ensures TrySub(p, d).Some? ==> TryAdd(TrySub(p, d).value, d) == Some(p)
  {
  }

  /** `q` is one of the four axis-aligned neighbours of `p`. */
  predicate Adjacent(p: Pos, q: Pos) {
    || (q.x == p.x + 1 && q.y == p.y)
    || (q.x == p.x - 1 && q.y == p.y)
    || (q.x == p.x && q.y == p.y + 1)
    || (q.x == p.x && q.y == p.y - 1)
  }

  /** Where `q` comes in the East, West, South, North enumeration around `p`. */
  function Rank(p: Pos, q: Pos): nat {
    if q.x == p.x + 1 && q.y == p.y then 0
    else if q.x == p.x - 1 && q.y == p.y then 1
    else if q.x == p.x && q.y == p.y + 1 then 2
    else 3
  }

  /** The neighbours of `p` are exactly the in-range results of adding one of `Directions`. */
  lemma AdjacentIsDirectionStep(p: Pos, q: Pos)
    ensures Adjacent(p, q) <==> exists k :: 0 <= k < |Directions| && TryAdd(p, Directions[k]) == Some(q)
  {
    if Adjacent(p, q) {
      var k := Rank(p, q);
      assert TryAdd(p, Directions[k]) == Some(q);
    }
  }
}
