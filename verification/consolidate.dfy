/**
 * `consolidate_lines` of `CityGrowScene` (src/city_grow.rs): the erase batch
 * is repainted in black, with runs of chained lines of the same thickness
 * merged into one polyline. Points are grid positions, so the source's
 * 0.01-pixel tolerance on the joint is equality of cells; the thickness
 * tolerance is kept.
 */
module Consolidation {
  import opened Ints
  import opened Positions
  import opened Painting

  /** The thickness test of the join: `(current_thickness - thickness).abs() < 0.01`. */
  predicate SameThickness(a: real, b: real) {
    -0.01 < a - b < 0.01
  }

  /** A line starting at `start` with thickness `th` continues the run that ends at `last` with thickness `t`. */
  predicate Continues(last: Pos, t: real, start: Pos, th: real) {
    last == start && SameThickness(t, th)
  }

  /** Every operation of `ops` is drawn with the eraser's black. */
  predicate AllBlack(ops: seq<DrawOp>) {
    forall op :: op in ops ==> op.color == Black
  }

  /** What the eraser paints: each straight segment a stroke covers, and each rectangle. */
  datatype Shape = Segment(a: Pos, b: Pos) | Area(corner: Corner) | Outline(corner: Corner, thickness: real)

  /** The segments of the path through `ps`, from each point to the next. */
  function Segments(ps: seq<Pos>): (r: seq<Shape>)
    ensures |r| == (if |ps| == 0 then 0 else |ps| - 1)
    ensures forall k :: 0 <= k < |r| ==> r[k] == Segment(ps[k], ps[k + 1])
  {
    if |ps| < 2 then [] else seq(|ps| - 1, k requires 0 <= k < |ps| - 1 => Segment(ps[k], ps[k + 1]))
  }

  /** The shapes one operation paints: a line is one segment, a polyline the segments between its points. */
  function ShapesOf(op: DrawOp): seq<Shape> {
    match op
    case Line(start, end, _, _) => [Segment(start, end)]
    case Polyline(points, _, _) => Segments(points)
    case FilledRect(corner, _) => [Area(corner)]
    case Rect(corner, _, thickness) => [Outline(corner, thickness)]
  }

  function Shapes(ops: seq<DrawOp>): seq<Shape> {
    if |ops| == 0 then [] else ShapesOf(ops[0]) + Shapes(ops[1..])
  }

  lemma {:induction false} ShapesAppend(a: seq<DrawOp>, b: seq<DrawOp>)
    ensures Shapes(a + b) == Shapes(a) + Shapes(b)
    decreases |a|
  {
    if |a| == 0 {
      assert a + b == b;
    } else {
      assert (a + b)[1..] == a[1..] + b;
      ShapesAppend(a[1..], b);
    }
  }

  /**
   * Emitting the pending run: a polyline for three or more points, a line for
   * two, nothing when no run is open; always in black at the run's thickness.
   */
  function Flush(pending: seq<Pos>, t: real): (r: seq<DrawOp>)
    ensures |r| <= 1 && (|r| == 1 <==> |pending| >= 2)
    ensures AllBlack(r) && forall op :: op in r ==> !op.FilledRect? && op.thickness == t
    ensures Shapes(r) == Segments(pending)
  {
    if |pending| > 2 then
      var r := [Polyline(pending, Black, t)];
      assert Shapes(r) == ShapesOf(r[0]);
      r
    else if |pending| == 2 then
      var r := [Line(pending[0], pending[1], Black, t)];
      assert Shapes(r) == ShapesOf(r[0]) == Segments(pending);
      r
    else []
  }

  /** A non-line operation repainted in black with its geometry kept. */
  function Blacken(op: DrawOp): (r: DrawOp)
    requires !op.Line?
    ensures r.color == Black && ShapesOf(r) == ShapesOf(op)
    ensures r.FilledRect? == op.FilledRect? && r.Rect? == op.Rect? && r.Polyline? == op.Polyline?
  {
    match op
    case FilledRect(corner, _) => FilledRect(corner, Black)
    case Rect(corner, _, thickness) => Rect(corner, Black, thickness)
    case Polyline(points, _, thickness) => Polyline(points, Black, thickness)
  }

  /**
   * The `for op in operations` loop of `consolidate_lines` from the rest of
   * the operations, with the open run `pending` (empty, or at least two
   * points) drawn at thickness `t`.
   */
  function ConsolidateFrom(ops: seq<DrawOp>, pending: seq<Pos>, t: real): (r: seq<DrawOp>)
    requires |pending| != 1
    ensures AllBlack(r)
    ensures |r| <= |ops| + (if |pending| >= 2 then 1 else 0)
    ensures Shapes(r) == Segments(pending) + Shapes(ops)
    decreases |ops|, 1
  {
    if |ops| == 0 then Flush(pending, t)
    else if ops[0].Line? then ConsolidateLine(ops, pending, t)
    else ConsolidateOther(ops, pending, t)
  }

  /**
   * A line opens a run when none is open, extends the open run when it starts
   * at the run's last point with the run's thickness, and otherwise flushes
   * the run and opens a new one.
   */
  function ConsolidateLine(ops: seq<DrawOp>, pending: seq<Pos>, t: real): (r: seq<DrawOp>)
    requires |ops| > 0 && ops[0].Line?
    requires |pending| != 1
    ensures AllBlack(r)
    ensures |r| <= |ops| + (if |pending| >= 2 then 1 else 0)
    ensures Shapes(r) == Segments(pending) + Shapes(ops)
    decreases |ops|, 0
  {
    var op := ops[0];
    if |pending| == 0 then
      var r := ConsolidateFrom(ops[1..], [op.start, op.end], op.thickness);
      OpenRun(ops, r);
      r
    else if Continues(pending[|pending| - 1], t, op.start, op.thickness) then
      var r := ConsolidateFrom(ops[1..], pending + [op.end], t);
      ExtendRun(ops, pending);
      r
    else
      var r := ConsolidateFrom(ops[1..], [op.start, op.end], op.thickness);
      var f := Flush(pending, t);
      BreakRun(ops, f, Segments(pending), r);
      f + r
  }

  /** A line that opens a run paints its one segment, as the open run will. */
  lemma {:induction false} OpenRun(ops: seq<DrawOp>, r: seq<DrawOp>)
    requires |ops| > 0 && ops[0].Line?
    requires Shapes(r) == Segments([ops[0].start, ops[0].end]) + Shapes(ops[1..])
    ensures Shapes(r) == Shapes(ops)
  {
    ShapesCons(ops);
    assert Segments([ops[0].start, ops[0].end]) == ShapesOf(ops[0]);
  }

  /** A line that does not join flushes the open run (`f`, painting `ps`) and opens its own. */
  lemma {:induction false} BreakRun(ops: seq<DrawOp>, f: seq<DrawOp>, ps: seq<Shape>, r: seq<DrawOp>)
    requires |ops| > 0 && ops[0].Line?
    requires AllBlack(f) && Shapes(f) == ps
    requires AllBlack(r) && Shapes(r) == Segments([ops[0].start, ops[0].end]) + Shapes(ops[1..])
    ensures AllBlack(f + r)
    ensures Shapes(f + r) == ps + Shapes(ops)
  {
    OpenRun(ops, r);
    ShapesAppend(f, r);
    forall op | op in f + r ensures op.color == Black {
      assert op in f || op in r;
    }
  }

  /** Any other operation flushes the open run and is emitted in black. */
  function ConsolidateOther(ops: seq<DrawOp>, pending: seq<Pos>, t: real): (r: seq<DrawOp>)
    requires |ops| > 0 && !ops[0].Line?
    requires |pending| != 1
    ensures AllBlack(r)
    ensures |r| <= |ops| + (if |pending| >= 2 then 1 else 0)
    ensures Shapes(r) == Segments(pending) + Shapes(ops)
    decreases |ops|, 0
  {
    var r := ConsolidateFrom(ops[1..], [], t);
    var f, x := Flush(pending, t), Blacken(ops[0]);
    OtherStep(ops, f, x, Segments(pending), r);
    f + [x] + r
  }

  /** The flushed run `f` (painting `ps`), the blackened operation `x`, then the rest. */
  lemma {:induction false} OtherStep(ops: seq<DrawOp>, f: seq<DrawOp>, x: DrawOp, ps: seq<Shape>, r: seq<DrawOp>)
    requires |ops| > 0 && x.color == Black && ShapesOf(x) == ShapesOf(ops[0])
    requires AllBlack(f) && Shapes(f) == ps
    requires AllBlack(r) && Shapes(r) == Shapes(ops[1..])
    ensures AllBlack(f + [x] + r)
    ensures Shapes(f + [x] + r) == ps + Shapes(ops)
  {
    assert Shapes([x]) == ShapesOf(x);
    assert AllBlack([x]);
    ShapesCons(ops);
    JoinOut(f, [x], r);
    Assoc(ps, ShapesOf(x), Shapes(ops[1..]));
  }

  lemma Assoc<T>(x: seq<T>, y: seq<T>, z: seq<T>)
    ensures x + y + z == x + (y + z)
  {
  }

  lemma {:induction false} ShapesCons(ops: seq<DrawOp>)
    requires |ops| > 0
    ensures Shapes(ops) == ShapesOf(ops[0]) + Shapes(ops[1..])
  {
  }

  /** Extending the open run by a line that starts at its last point adds that line's segment. */
  lemma {:induction false} ExtendRun(ops: seq<DrawOp>, pending: seq<Pos>)
    requires |ops| > 0 && ops[0].Line? && |pending| >= 2 && pending[|pending| - 1] == ops[0].start
    ensures Segments(pending + [ops[0].end]) + Shapes(ops[1..]) == Segments(pending) + Shapes(ops)
  {
    var v := Segment(ops[0].start, ops[0].end);
    SegmentsSnoc(pending, ops[0].end);
    ShapesCons(ops);
    MoveAcross(Segments(pending), Segments(pending + [ops[0].end]), Shapes(ops[1..]), Shapes(ops), v);
  }

  /** One more point adds the segment from the old last point to it. */
  lemma SegmentsSnoc(ps: seq<Pos>, p: Pos)
    requires |ps| >= 1
    ensures Segments(ps + [p]) == Segments(ps) + [Segment(ps[|ps| - 1], p)]
  {
    var l, r := Segments(ps + [p]), Segments(ps) + [Segment(ps[|ps| - 1], p)];
    assert |l| == |r|;
    forall k | 0 <= k < |l| ensures l[k] == r[k] {
      if k < |ps| - 1 {
        assert (ps + [p])[k] == ps[k] && (ps + [p])[k + 1] == ps[k + 1];
      }
    }
  }

  /** Moving one shape from the front of the tail to the back of the head keeps the concatenation. */
  lemma MoveAcross(a: seq<Shape>, a': seq<Shape>, b: seq<Shape>, b': seq<Shape>, v: Shape)
    requires a' == a + [v] && b' == [v] + b
    ensures a' + b == a + b'
  {
  }

  /** Three black pieces laid end to end are black and paint their shapes in order. */
  lemma {:induction false} JoinOut(f: seq<DrawOp>, mid: seq<DrawOp>, r: seq<DrawOp>)
    requires AllBlack(f) && AllBlack(mid) && AllBlack(r)
    ensures AllBlack(f + mid + r)
    ensures Shapes(f + mid + r) == Shapes(f) + Shapes(mid) + Shapes(r)
  {
    ShapesAppend(f, mid);
    ShapesAppend(f + mid, r);
    forall op | op in f + mid + r ensures op.color == Black {
      assert op in f || op in mid || op in r;
    }
  }

  /**
   * `consolidate_lines`: every operation comes out black, the output is never
   * longer than the input, and it paints the same segments and rectangles in
   * the same order.
   */
  function ConsolidateLines(ops: seq<DrawOp>): (r: seq<DrawOp>)
    ensures |ops| == 0 ==> r == []
    ensures AllBlack(r)
    ensures |r| <= |ops|
    ensures Shapes(r) == Shapes(ops)
  {
    if |ops| == 0 then [] else ConsolidateFrom(ops, [], 0.0)
  }

  /** `ops` is a run of lines through `points`, each starting where the previous one ended, all of thickness `t`. */
  predicate Chain(ops: seq<DrawOp>, points: seq<Pos>, t: real) {
    && |points| == |ops| + 1
    && forall k :: 0 <= k < |ops| ==> ops[k] == Line(points[k], points[k + 1], ops[k].color, t)
  }

  /**
   * A chained run of lines of one thickness is emitted as a single operation:
   * one line for a run of one, otherwise one polyline through the first
   * start and every end.
   */
  lemma ChainConsolidates(ops: seq<DrawOp>, points: seq<Pos>, t: real)
    requires |ops| > 0 && Chain(ops, points, t)
    ensures ConsolidateLines(ops) == Flush(points, t)
    ensures |ops| == 1 ==> ConsolidateLines(ops) == [Line(points[0], points[1], Black, t)]
    ensures |ops| > 1 ==> ConsolidateLines(ops) == [Polyline(points, Black, t)]
  {
    assert ops[0] == Line(points[0], points[1], ops[0].color, t);
    assert points[..2] == [points[0], points[1]];
    assert ConsolidateLine(ops, [], 0.0) == ConsolidateFrom(ops[1..], points[..2], t);
    assert ConsolidateLines(ops) == ConsolidateLine(ops, [], 0.0);
    ChainRest(ops, points, t, 1);
  }

  lemma {:induction false} ChainRest(ops: seq<DrawOp>, points: seq<Pos>, t: real, j: nat)
    requires 1 <= j <= |ops| && Chain(ops, points, t)
    ensures ConsolidateFrom(ops[j..], points[..j + 1], t) == Flush(points, t)
    decreases |ops| - j
  {
    if j == |ops| {
      assert points[..j + 1] == points;
    } else {
      var rest, pend := ops[j..], points[..j + 1];
      assert rest[0] == ops[j] == Line(points[j], points[j + 1], ops[j].color, t);
      assert pend[|pend| - 1] == points[j];
      assert Continues(pend[|pend| - 1], t, rest[0].start, rest[0].thickness);
      assert rest[1..] == ops[j + 1..];
      assert pend + [rest[0].end] == points[..j + 2];
      assert ConsolidateFrom(rest, pend, t) == ConsolidateLine(rest, pend, t);
      assert ConsolidateLine(rest, pend, t) == ConsolidateFrom(ops[j + 1..], points[..j + 2], t);
      ChainRest(ops, points, t, j + 1);
    }
  }

  /** The polyline still open, and its thickness, once a prefix of the operations has been read. */
  datatype Run = Run(points: seq<Pos>, thickness: real)

  /** The run `ConsolidateFrom` holds open after reading `ops` from the open run `pending` at thickness `t`. */
  function RunAfter(ops: seq<DrawOp>, pending: seq<Pos>, t: real): (r: Run)
    requires |pending| != 1
    ensures |r.points| != 1
    ensures |ops| > 0 && !ops[|ops| - 1].Line? ==> r.points == []
    decreases |ops|
  {
    if |ops| == 0 then Run(pending, t)
    else
      var op := ops[0];
      if !op.Line? then RunAfter(ops[1..], [], t)
      else if |pending| > 0 && Continues(pending[|pending| - 1], t, op.start, op.thickness) then
        RunAfter(ops[1..], pending + [op.end], t)
      else RunAfter(ops[1..], [op.start, op.end], op.thickness)
  }

  /** `op` cannot join the open run `run`: it is not a line, no run is open, or it does not continue the run. */
  predicate Breaks(run: Run, op: DrawOp) {
    !op.Line? || |run.points| == 0 || !Continues(run.points[|run.points| - 1], run.thickness, op.start, op.thickness)
  }

  /** With no run open, the carried thickness is never read. */
  lemma {:induction false} FreshThicknessIrrelevant(ops: seq<DrawOp>, t: real, t': real)
    ensures ConsolidateFrom(ops, [], t) == ConsolidateFrom(ops, [], t')
    decreases |ops|
  {
    if |ops| > 0 {
      if ops[0].Line? {
        StepBreakFresh(ops, t);
        StepBreakFresh(ops, t');
      } else {
        StepOtherFresh(ops, t);
        StepOtherFresh(ops, t');
        FreshThicknessIrrelevant(ops[1..], t, t');
      }
    }
  }

  /**
   * Where the next operation cannot join the open run, the walk cuts: what
   * comes before is consolidated on its own (its run flushed at the cut) and
   * what comes after starts afresh.
   */
  lemma {:induction false} CutFrom(a: seq<DrawOp>, b: seq<DrawOp>, pending: seq<Pos>, t: real)
    requires |pending| != 1 && |b| > 0 && Breaks(RunAfter(a, pending, t), b[0])
    ensures ConsolidateFrom(a + b, pending, t) == ConsolidateFrom(a, pending, t) + ConsolidateFrom(b, [], 0.0)
    decreases |a|
  {
    if |a| == 0 {
      assert a + b == b;
      CutHere(b, pending, t);
    } else {
      var op, ab := a[0], a + b;
      assert ab[0] == op && ab[1..] == a[1..] + b;
      if !op.Line? {
        assert RunAfter(a, pending, t) == RunAfter(a[1..], [], t);
        CutFrom(a[1..], b, [], t);
        StepOther(ab, pending, t);
        StepOther(a, pending, t);
        Assoc(Flush(pending, t) + [Blacken(op)], ConsolidateFrom(a[1..], [], t), ConsolidateFrom(b, [], 0.0));
      } else if |pending| > 0 && Continues(pending[|pending| - 1], t, op.start, op.thickness) {
        assert RunAfter(a, pending, t) == RunAfter(a[1..], pending + [op.end], t);
        CutFrom(a[1..], b, pending + [op.end], t);
        StepExtend(ab, pending, t);
        StepExtend(a, pending, t);
      } else {
        assert RunAfter(a, pending, t) == RunAfter(a[1..], [op.start, op.end], op.thickness);
        CutFrom(a[1..], b, [op.start, op.end], op.thickness);
        StepBreak(ab, pending, t);
        StepBreak(a, pending, t);
        Assoc(Flush(pending, t), ConsolidateFrom(a[1..], [op.start, op.end], op.thickness), ConsolidateFrom(b, [], 0.0));
      }
    }
  }

  /** One step of the walk over any other operation. */
  lemma {:induction false} StepOther(ops: seq<DrawOp>, pending: seq<Pos>, t: real)
    requires |ops| > 0 && !ops[0].Line? && |pending| != 1
    ensures ConsolidateFrom(ops, pending, t) == Flush(pending, t) + [Blacken(ops[0])] + ConsolidateFrom(ops[1..], [], t)
  {
  }

  /** One step of the walk over a line that extends the open run. */
  lemma {:induction false} StepExtend(ops: seq<DrawOp>, pending: seq<Pos>, t: real)
    requires |ops| > 0 && ops[0].Line? && |pending| > 1
    requires Continues(pending[|pending| - 1], t, ops[0].start, ops[0].thickness)
    ensures ConsolidateFrom(ops, pending, t) == ConsolidateFrom(ops[1..], pending + [ops[0].end], t)
  {
  }

  /** One step of the walk over a line that opens a new run. */
  lemma {:induction false} StepBreak(ops: seq<DrawOp>, pending: seq<Pos>, t: real)
    requires |ops| > 0 && ops[0].Line? && |pending| != 1
    requires |pending| == 0 || !Continues(pending[|pending| - 1], t, ops[0].start, ops[0].thickness)
    ensures ConsolidateFrom(ops, pending, t) ==
      Flush(pending, t) + ConsolidateFrom(ops[1..], [ops[0].start, ops[0].end], ops[0].thickness)
  {
    if |pending| == 0 {
      assert Flush(pending, t) == [];
    }
  }

  /** The cut at the very start: the open run is flushed and `b` is read afresh. */
  lemma {:induction false} CutHere(b: seq<DrawOp>, pending: seq<Pos>, t: real)
    requires |pending| != 1 && |b| > 0 && Breaks(Run(pending, t), b[0])
    ensures ConsolidateFrom(b, pending, t) == Flush(pending, t) + ConsolidateFrom(b, [], 0.0)
  {
    if !b[0].Line? {
      StepOther(b, pending, t);
      StepOtherFresh(b, 0.0);
      FreshThicknessIrrelevant(b[1..], t, 0.0);
      Assoc(Flush(pending, t), [Blacken(b[0])], ConsolidateFrom(b[1..], [], t));
    } else {
      StepBreak(b, pending, t);
      StepBreakFresh(b, 0.0);
    }
  }

  /** One step over any other operation with no run open. */
  lemma {:induction false} StepOtherFresh(ops: seq<DrawOp>, t: real)
    requires |ops| > 0 && !ops[0].Line?
    ensures ConsolidateFrom(ops, [], t) == [Blacken(ops[0])] + ConsolidateFrom(ops[1..], [], t)
  {
    StepOther(ops, [], t);
    assert Flush([], t) == [];
  }

  /** One step over a line with no run open. */
  lemma {:induction false} StepBreakFresh(ops: seq<DrawOp>, t: real)
    requires |ops| > 0 && ops[0].Line?
    ensures ConsolidateFrom(ops, [], t) == ConsolidateFrom(ops[1..], [ops[0].start, ops[0].end], ops[0].thickness)
  {
    StepBreak(ops, [], t);
    assert Flush([], t) == [];
  }

  /** `consolidate_lines` on the whole list is the walk from no open run. */
  lemma {:induction false} LinesFromStart(ops: seq<DrawOp>)
    ensures ConsolidateLines(ops) == ConsolidateFrom(ops, [], 0.0)
  {
    if |ops| == 0 {
      assert Flush([], 0.0) == [];
    }
  }

  /**
   * Runs are merged only within: a list cut before an operation that cannot
   * join the run left open by the part before it consolidates as the two
   * parts do on their own.
   */
  lemma {:induction false} ConsolidateSplits(a: seq<DrawOp>, b: seq<DrawOp>)
    requires |b| > 0 && Breaks(RunAfter(a, [], 0.0), b[0])
    ensures ConsolidateLines(a + b) == ConsolidateLines(a) + ConsolidateLines(b)
  {
    LinesFromStart(a + b);
    LinesFromStart(a);
    LinesFromStart(b);
    CutFrom(a, b, [], 0.0);
  }

  /**
   * Any other operation ends the run before it and starts none: it comes out
   * blackened in its place, with the lists on either side consolidated apart.
   */
  lemma {:induction false} ConsolidateAroundOther(a: seq<DrawOp>, x: DrawOp, b: seq<DrawOp>)
    requires !x.Line?
    ensures ConsolidateLines(a + [x] + b) == ConsolidateLines(a) + [Blacken(x)] + ConsolidateLines(b)
  {
    assert a + [x] + b == a + ([x] + b);
    ConsolidateSplits(a, [x] + b);
    LinesFromStart([x] + b);
    LinesFromStart(b);
    assert ([x] + b)[1..] == b;
    assert ConsolidateFrom([x] + b, [], 0.0) == [Blacken(x)] + ConsolidateFrom(b, [], 0.0);
  }

  /** Without lines there is nothing to merge: each operation comes back in black, one for one. */
  lemma {:induction false} NoLinesPassThrough(ops: seq<DrawOp>, pending: seq<Pos>, t: real)
    requires |pending| == 0 && forall k :: 0 <= k < |ops| ==> !ops[k].Line?
    ensures |ConsolidateFrom(ops, pending, t)| == |ops|
    ensures forall k :: 0 <= k < |ops| ==> ConsolidateFrom(ops, pending, t)[k] == Blacken(ops[k])
    decreases |ops|
  {
    if |ops| > 0 {
      assert forall k :: 0 <= k < |ops| - 1 ==> ops[1..][k] == ops[k + 1];
      NoLinesPassThrough(ops[1..], [], t);
    }
  }
}
