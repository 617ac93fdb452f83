/**
 * The painter half of `CityGrowScene` in src/city_grow.rs: the draw
 * operations a growth event produces (`draw_move` and `compute_fill_rect`)
 * and the per-branch history they are recorded in for the reverse animation.
 * Draw operations are kept in grid space: points are grid positions and a
 * filled rectangle is its integer corner; the affine map to screen pixels is
 * not modelled.
 */
module Painting {
  import opened Ints
  import opened Positions
  import opened Configs
  import opened Branches

  /** The integer corner of a fill rectangle, before it is scaled to pixels. */
  datatype Corner = Corner(x: int, y: int)

  /** A brush colour: an event's colour, that colour with the city-rect alpha, or the eraser's black. */
  datatype Color = Solid(hsla: Hsla) | Faded(hsla: Hsla, alpha: real) | Black

  /** `DrawOperation`, over grid coordinates. */
  datatype DrawOp =
    | Line(start: Pos, end: Pos, color: Color, thickness: real)
    | Rect(corner: Corner, color: Color, thickness: real)
    | FilledRect(corner: Corner, color: Color)
    | Polyline(points: seq<Pos>, color: Color, thickness: real)

  /** `PainterState`: the draw history of every branch id and the ids of the main branches. */
  datatype Painter = Painter(history: map<U32, seq<DrawOp>>, main: set<U32>)

  /** The history of `id`, empty when the id has none (`entry(id).or_default()`). */
  function History(p: Painter, id: U32): seq<DrawOp> {
    if id in p.history then p.history[id] else []
  }

  /** The fields `draw_move` reads from an event: id, segment, mode, colour and the tip used by the fills. */
  datatype Stroke = Stroke(id: U32, from: Pos, to: Pos, mode: BranchMode, color: Hsla, tip: Pos)

  /** A move is drawn under its branch; a branch-off under the child, from the parent cell. */
  function StrokeOf(e: Event): (s: Stroke)
    ensures s.id == EventId(e)
    ensures e.Move? ==> s.from == e.from && s.to == e.to && s.tip == e.ownFieldsTip
    ensures e.BranchOff? ==> s.from == e.parentPos && s.to == e.childPos && s.tip == e.parentPos
    ensures e.Move? ==> s.mode == e.mode && s.color == e.color
    ensures e.BranchOff? ==> s.mode == e.parentMode && s.color == e.childColor
  {
    match e
    case Move(id, from, to, mode, color, tip) => Stroke(id, from, to, mode, color, tip)
    case BranchOff(id, parentPos, childPos, mode, color) => Stroke(id, parentPos, childPos, mode, color, parentPos)
  }

  /**
   * The integer corner of `compute_fill_rect`: the componentwise minimum of
   * the destination and the tip shifted by the perpendicular `(px, py)`.
   */
  function FillCorner(tip: Pos, to: Pos, px: int, py: int): (c: Corner)
    ensures c.x <= to.x && c.x <= tip.x + px && (c.x == to.x || c.x == tip.x + px)
    ensures c.y <= to.y && c.y <= tip.y + py && (c.y == to.y || c.y == tip.y + py)
  {
    Corner(Min(to.x, tip.x + px), Min(to.y, tip.y + py))
  }

  /**
   * For an ordinary step (the tip is the cell the branch moved from and the
   * destination is a neighbour), the two fill squares lie on either side of
   * the segment: their corners differ by exactly the perpendicular, and both
   * touch the segment's bounding box.
   */
  lemma FillCornersStraddle(from: Pos, to: Pos)
    requires Adjacent(from, to)
    ensures var px, py := -(to.y - from.y), to.x - from.x;
      var c1, c2 := FillCorner(from, to, px, py), FillCorner(from, to, -px, -py);
      && c1.x - c2.x == px && c1.y - c2.y == py
      && Min(from.x, to.x) - 1 <= c1.x <= Max(from.x, to.x) && Min(from.y, to.y) - 1 <= c1.y <= Max(from.y, to.y)
      && Min(from.x, to.x) - 1 <= c2.x <= Max(from.x, to.x) && Min(from.y, to.y) - 1 <= c2.y <= Max(from.y, to.y)
  {
    AdjacentIsDirectionStep(from, to);
  }

  /**
   * The operations `draw_move` draws and records for one event: in City mode
   * with a non-zero move, two faded filled squares (perpendicular `(-dy, dx)`
   * and its negation) and then the line; otherwise just the line.
   */
  function EventOps(cfg: Config, e: Event): (r: seq<DrawOp>)
    ensures |r| == 1 || |r| == 3
    ensures |r| == 3 <==> StrokeOf(e).mode == City && StrokeOf(e).from != StrokeOf(e).to
    ensures r[|r| - 1] == Line(StrokeOf(e).from, StrokeOf(e).to, Solid(StrokeOf(e).color), cfg.scale)
    ensures forall k :: 0 <= k < |r| - 1 ==> r[k].FilledRect? && r[k].color == Faded(StrokeOf(e).color, cfg.cityRectAlpha)
    ensures |r| == 3 ==>
      var s := StrokeOf(e);
      var px, py := -(s.to.y - s.from.y), s.to.x - s.from.x;
      r[0].corner == FillCorner(s.tip, s.to, px, py) && r[1].corner == FillCorner(s.tip, s.to, -px, -py)
  {
    var s := StrokeOf(e);
    var line := Line(s.from, s.to, Solid(s.color), cfg.scale);
    var px, py := -(s.to.y - s.from.y), s.to.x - s.from.x;
    if s.mode == City && (px != 0 || py != 0) then
      var fade := Faded(s.color, cfg.cityRectAlpha);
      [FilledRect(FillCorner(s.tip, s.to, px, py), fade), FilledRect(FillCorner(s.tip, s.to, -px, -py), fade), line]
    else [line]
  }

  /** The id an event's operations are recorded under. */
  function Ids(evs: seq<Event>): (r: set<U32>)
    ensures forall id :: id in r <==> exists t :: 0 <= t < |evs| && EventId(evs[t]) == id
  {
    set t | 0 <= t < |evs| :: EventId(evs[t])
  }

  /** The reference per-branch view: the operations of the events of `id`, in event order. */
  function OpsFor(cfg: Config, evs: seq<Event>, id: U32): seq<DrawOp> {
    if |evs| == 0 then []
    else (if EventId(evs[0]) == id then EventOps(cfg, evs[0]) else []) + OpsFor(cfg, evs[1..], id)
  }

  /** Everything drawn for `evs`, in drawing order. */
  function AllOps(cfg: Config, evs: seq<Event>): seq<DrawOp> {
    if |evs| == 0 then [] else EventOps(cfg, evs[0]) + AllOps(cfg, evs[1..])
  }

  /** `draw_move`: records the event's operations at the end of its branch's history. */
  function DrawMove(p: Painter, cfg: Config, e: Event): (r: Painter)
    ensures r.main == p.main
    ensures r.history.Keys == p.history.Keys + {EventId(e)}
    ensures forall id :: id != EventId(e) ==> History(r, id) == History(p, id)
    ensures History(r, EventId(e)) == History(p, EventId(e)) + EventOps(cfg, e)
  {
    var id := EventId(e);
    p.(history := p.history[id := History(p, id) + EventOps(cfg, e)])
  }

  /**
   * The `for event in ..` drawing loops of `render`: every branch's history
   * grows by exactly the operations of its own events, in event order, and
   * no other history changes.
   */
  function DrawEvents(p: Painter, cfg: Config, evs: seq<Event>): (r: Painter)
    ensures r.main == p.main
    ensures r.history.Keys == p.history.Keys + Ids(evs)
    ensures forall id :: History(r, id) == History(p, id) + OpsFor(cfg, evs, id)
    decreases |evs|
  {
    if |evs| == 0 then p
    else
      var p' := DrawMove(p, cfg, evs[0]);
      var r := DrawEvents(p', cfg, evs[1..]);
      IdsCons(evs);
      forall id ensures History(r, id) == History(p, id) + OpsFor(cfg, evs, id) {
        DrawStep(p, p', r, cfg, evs, id);
      }
      r
  }

  lemma IdsCons(evs: seq<Event>)
    requires |evs| > 0
    ensures Ids(evs) == {EventId(evs[0])} + Ids(evs[1..])
  {
    forall id | id in Ids(evs) ensures id in {EventId(evs[0])} + Ids(evs[1..]) {
      var t :| 0 <= t < |evs| && EventId(evs[t]) == id;
      if t > 0 {
        assert evs[1..][t - 1] == evs[t];
      }
    }
  }

  lemma {:induction false} DrawStep(p: Painter, p': Painter, r: Painter, cfg: Config, evs: seq<Event>, id: U32)
    requires |evs| > 0 && p' == DrawMove(p, cfg, evs[0])
    requires History(r, id) == History(p', id) + OpsFor(cfg, evs[1..], id)
    ensures History(r, id) == History(p, id) + OpsFor(cfg, evs, id)
  {
    var own := if EventId(evs[0]) == id then EventOps(cfg, evs[0]) else [];
    var rest := OpsFor(cfg, evs[1..], id);
    assert OpsFor(cfg, evs, id) == own + rest;
    assert History(p', id) == History(p, id) + own;
    assert (History(p, id) + own) + rest == History(p, id) + (own + rest);
  }

  /** The per-branch view of a concatenation is the concatenation of the views. */
  lemma {:induction false} OpsForAppend(cfg: Config, a: seq<Event>, b: seq<Event>, id: U32)
    ensures OpsFor(cfg, a + b, id) == OpsFor(cfg, a, id) + OpsFor(cfg, b, id)
    decreases |a|
  {
    if |a| == 0 {
      assert a + b == b;
    } else {
      assert (a + b)[1..] == a[1..] + b;
      OpsForAppend(cfg, a[1..], b, id);
    }
  }

  /** The events drawn in the background layer: those of branches that are not main. */
  function NonMainEvents(evs: seq<Event>, main: set<U32>): (r: seq<Event>)
    ensures forall t :: 0 <= t < |r| ==> EventId(r[t]) !in main
    ensures forall e :: e in r <==> e in evs && EventId(e) !in main
    ensures |r| <= |evs|
  {
    if |evs| == 0 then []
    else (if EventId(evs[0]) !in main then [evs[0]] else []) + NonMainEvents(evs[1..], main)
  }

  /** The events drawn in the foreground layer: those of main branches. */
  function MainEvents(evs: seq<Event>, main: set<U32>): (r: seq<Event>)
    ensures forall t :: 0 <= t < |r| ==> EventId(r[t]) in main
    ensures forall e :: e in r <==> e in evs && EventId(e) in main
    ensures |r| <= |evs|
  {
    if |evs| == 0 then []
    else (if EventId(evs[0]) in main then [evs[0]] else []) + MainEvents(evs[1..], main)
  }

  /** The two layers split the events: each event lands in exactly one, as often as it occurs. */
  lemma {:induction false} LayersPartition(evs: seq<Event>, main: set<U32>)
    ensures multiset(NonMainEvents(evs, main)) + multiset(MainEvents(evs, main)) == multiset(evs)
    decreases |evs|
  {
    if |evs| > 0 {
      var e, rest := evs[0], evs[1..];
      LayersPartition(rest, main);
      assert evs == [e] + rest;
      if EventId(e) in main {
        assert MainEvents(evs, main) == [e] + MainEvents(rest, main);
      } else {
        assert NonMainEvents(evs, main) == [e] + NonMainEvents(rest, main);
      }
    }
  }

  /**
   * Drawing the non-main events before the main ones reorders operations only
   * across branches: every branch sees its own events' operations in the
   * original event order.
   */
  lemma {:induction false} LayeringKeepsBranchOrder(cfg: Config, evs: seq<Event>, main: set<U32>, id: U32)
    ensures OpsFor(cfg, NonMainEvents(evs, main) + MainEvents(evs, main), id) == OpsFor(cfg, evs, id)
    ensures |NonMainEvents(evs, main)| + |MainEvents(evs, main)| == |evs|
    decreases |evs|
  {
    var n, m := NonMainEvents(evs, main), MainEvents(evs, main);
    OpsForAppend(cfg, n, m, id);
    if |evs| > 0 {
      LayeringKeepsBranchOrder(cfg, evs[1..], main, id);
      OpsForAppend(cfg, NonMainEvents(evs[1..], main), MainEvents(evs[1..], main), id);
      LayerStep(cfg, evs, main, id);
    }
  }

  /** One event of the layering induction: it joins its own layer, where `id`'s view sees it in place. */
  lemma {:induction false} LayerStep(cfg: Config, evs: seq<Event>, main: set<U32>, id: U32)
    requires |evs| > 0
    requires OpsFor(cfg, NonMainEvents(evs[1..], main), id) + OpsFor(cfg, MainEvents(evs[1..], main), id)
      == OpsFor(cfg, evs[1..], id)
    ensures OpsFor(cfg, NonMainEvents(evs, main), id) + OpsFor(cfg, MainEvents(evs, main), id) == OpsFor(cfg, evs, id)
  {
    var e := evs[0];
    var n', m' := NonMainEvents(evs[1..], main), MainEvents(evs[1..], main);
    assert OpsFor(cfg, evs, id) == OpsFor(cfg, [e], id) + OpsFor(cfg, evs[1..], id);
    if EventId(e) in main {
      assert NonMainEvents(evs, main) == n' && MainEvents(evs, main) == [e] + m';
      if EventId(e) == id {
        NoneOf(cfg, n', id);
      }
      JoinFront(cfg, e, n', m', id);
    } else {
      assert NonMainEvents(evs, main) == [e] + n' && MainEvents(evs, main) == m';
      JoinBack(cfg, e, n', m', id);
    }
  }

  /** A main event joins the front layer; the back layer has nothing of its branch. */
  lemma {:induction false} JoinFront(cfg: Config, e: Event, back: seq<Event>, front: seq<Event>, id: U32)
    requires EventId(e) == id ==> OpsFor(cfg, back, id) == []
    ensures OpsFor(cfg, back, id) + OpsFor(cfg, [e] + front, id)
      == OpsFor(cfg, [e], id) + (OpsFor(cfg, back, id) + OpsFor(cfg, front, id))
  {
    OpsForAppend(cfg, [e], front, id);
    assert [e][1..] == [];
    if EventId(e) != id {
      assert OpsFor(cfg, [e], id) == [];
    }
  }

  /** A non-main event joins the back layer, ahead of everything after it. */
  lemma {:induction false} JoinBack(cfg: Config, e: Event, back: seq<Event>, front: seq<Event>, id: U32)
    ensures OpsFor(cfg, [e] + back, id) + OpsFor(cfg, front, id)
      == OpsFor(cfg, [e], id) + (OpsFor(cfg, back, id) + OpsFor(cfg, front, id))
  {
    OpsForAppend(cfg, [e], back, id);
  }

  /** Events that all belong to other branches contribute nothing to the view of `id`. */
  lemma {:induction false} NoneOf(cfg: Config, evs: seq<Event>, id: U32)
    requires forall t :: 0 <= t < |evs| ==> EventId(evs[t]) != id
    ensures OpsFor(cfg, evs, id) == []
    decreases |evs|
  {
    if |evs| > 0 {
      assert forall t :: 0 <= t < |evs| - 1 ==> evs[1..][t] == evs[t + 1];
      NoneOf(cfg, evs[1..], id);
    }
  }
}
