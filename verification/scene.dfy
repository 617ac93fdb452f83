/**
 * `CityGrowScene` (src/city_grow.rs): seeding, the per-frame `render` that
 * either grows the city and paints the new strokes or runs one reverse frame,
 * and `on_resize`. Random draws are parameters; the renderer is replaced by
 * the operations a frame would draw.
 */
module Scenes {
  import opened Ints
  import opened Wrappers
  import opened Positions
  import opened Grids
  import opened Configs
  import opened Branches
  import opened Growth
  import opened Painting
  import opened Consolidation
  import opened Reversing

  datatype Scene = Scene(
    cfg: Config,
    grid: Grid,
    branches: seq<Branch>,
    reverseRunning: bool,
    painter: Painter,
    needsInitialClear: bool)

  /** The draws of one seed: the two coordinates of `random_pos`, then the hue and id of `Branch::new`. */
  datatype SeedDraws = SeedDraws(x: nat, y: nat, hue: U8, id: U32)

  /** The branch seed `d` becomes on a grid of `g`'s extent. */
  function SeedBranch(g: Grid, cfg: Config, d: SeedDraws): Branch
    requires Valid(g) && g.sizeX > 0 && g.sizeY > 0
  {
    NewBranch(RandomPos(g, d.x, d.y), cfg, d.hue, d.id)
  }

  datatype Seeded = Seeded(grid: Grid, branches: seq<Branch>, main: set<U32>)

  /**
   * The seeding loop of `initialize_with_clear`: each seed becomes a fresh
   * City branch on a random cell, which is marked, and its id is recorded as
   * a main branch. Seeds are not kept apart: two may land on one cell.
   */
  function SeedBranches(g: Grid, cfg: Config, seeds: seq<SeedDraws>): (r: Seeded)
    requires Valid(g) && (|seeds| > 0 ==> g.sizeX > 0 && g.sizeY > 0)
    ensures Valid(r.grid) && r.grid.sizeX == g.sizeX && r.grid.sizeY == g.sizeY
    ensures |r.branches| == |seeds|
    ensures forall j :: 0 <= j < |seeds| ==> r.branches[j] == SeedBranch(g, cfg, seeds[j])
    ensures forall c :: Occupied(r.grid, c) <==> Occupied(g, c) || exists j :: 0 <= j < |seeds| && r.branches[j].pos == c
    ensures forall id :: id in r.main <==> exists j :: 0 <= j < |seeds| && seeds[j].id == id
    decreases |seeds|
  {
    if |seeds| == 0 then Seeded(g, [], {})
    else
      var b := SeedBranch(g, cfg, seeds[0]);
      var g' := Mark(g, b.pos);
      var r := SeedBranches(g', cfg, seeds[1..]);
      SeedList(g, g', cfg, seeds, r.branches);
      SeedCells(g, g', seeds, b, r.grid, r.branches);
      SeedIds(seeds, r.main);
      Seeded(r.grid, [b] + r.branches, {b.id} + r.main)
  }

  lemma SeedList(g: Grid, g': Grid, cfg: Config, seeds: seq<SeedDraws>, rest: seq<Branch>)
    requires Valid(g) && Valid(g') && |seeds| > 0 && g.sizeX > 0 && g.sizeY > 0
    requires g'.sizeX == g.sizeX && g'.sizeY == g.sizeY && |rest| == |seeds| - 1
    requires forall j :: 0 <= j < |seeds| - 1 ==> rest[j] == SeedBranch(g', cfg, seeds[1..][j])
    ensures forall j :: 0 <= j < |seeds| ==> ([SeedBranch(g, cfg, seeds[0])] + rest)[j] == SeedBranch(g, cfg, seeds[j])
  {
    forall j | 0 < j < |seeds| ensures rest[j - 1] == SeedBranch(g, cfg, seeds[j]) {
      assert seeds[1..][j - 1] == seeds[j];
    }
  }

  lemma SeedCells(g: Grid, g': Grid, seeds: seq<SeedDraws>, b: Branch, out: Grid, rest: seq<Branch>)
    requires Valid(g) && Valid(out) && |seeds| > 0 && |rest| == |seeds| - 1
    requires g' == Mark(g, b.pos) && IsPositionValid(g, b.pos)
    requires forall c :: Occupied(out, c) <==> Occupied(g', c) || exists j :: 0 <= j < |rest| && rest[j].pos == c
    ensures forall c :: Occupied(out, c) <==> Occupied(g, c) || exists j :: 0 <= j < |seeds| && ([b] + rest)[j].pos == c
  {
    var all := [b] + rest;
    forall c ensures Occupied(out, c) <==> Occupied(g, c) || exists j :: 0 <= j < |seeds| && all[j].pos == c {
      if c == b.pos {
        assert all[0].pos == c;
      }
      if exists j :: 0 <= j < |rest| && rest[j].pos == c {
        var j :| 0 <= j < |rest| && rest[j].pos == c;
        assert all[j + 1].pos == c;
      }
      if exists j :: 0 <= j < |seeds| && all[j].pos == c {
        var j :| 0 <= j < |seeds| && all[j].pos == c;
        if j > 0 {
          assert rest[j - 1].pos == c;
        }
      }
    }
  }

  lemma SeedIds(seeds: seq<SeedDraws>, rest: set<U32>)
    requires |seeds| > 0
    requires forall id :: id in rest <==> exists j :: 0 <= j < |seeds| - 1 && seeds[1..][j].id == id
    ensures forall id :: id in {seeds[0].id} + rest <==> exists j :: 0 <= j < |seeds| && seeds[j].id == id
  {
    forall id ensures id in {seeds[0].id} + rest <==> exists j :: 0 <= j < |seeds| && seeds[j].id == id {
      if exists j :: 0 <= j < |seeds| && seeds[j].id == id {
        var j :| 0 <= j < |seeds| && seeds[j].id == id;
        if j > 0 {
          assert seeds[1..][j - 1].id == id;
        }
      }
      if exists j :: 0 <= j < |seeds| - 1 && seeds[1..][j].id == id {
        var j :| 0 <= j < |seeds| - 1 && seeds[1..][j].id == id;
        assert seeds[j + 1].id == id;
      }
    }
  }

  /**
   * `initialize_with_clear`: the grid is emptied, the branch list, the draw
   * history and the main set are reset, and the seeds are planted; every
   * seed is a main branch and the only thing occupying the grid.
   */
  function InitializeWithClear(s: Scene, seeds: seq<SeedDraws>, clear: bool): (r: Scene)
    requires Valid(s.grid) && (|seeds| > 0 ==> s.grid.sizeX > 0 && s.grid.sizeY > 0)
    ensures r.cfg == s.cfg && !r.reverseRunning && r.needsInitialClear == clear
    ensures Valid(r.grid) && r.grid.sizeX == s.grid.sizeX && r.grid.sizeY == s.grid.sizeY
    ensures r.painter.history == map[]
    ensures forall id :: id in r.painter.main <==> exists j :: 0 <= j < |seeds| && seeds[j].id == id
    ensures |r.branches| == |seeds|
    ensures forall j :: 0 <= j < |seeds| ==>
      && r.branches[j].pos == RandomPos(s.grid, seeds[j].x, seeds[j].y)
      && r.branches[j].ownFields == [r.branches[j].pos]
      && r.branches[j].mode == City && r.branches[j].age == 0
      && r.branches[j].id == seeds[j].id && r.branches[j].lifeTime == s.cfg.lifeTime
    ensures forall c :: Occupied(r.grid, c) <==> exists j :: 0 <= j < |seeds| && r.branches[j].pos == c
  {
    var empty := Fill(s.grid, false);
    var seeded := SeedBranches(empty, s.cfg, seeds);
    Scene(s.cfg, seeded.grid, seeded.branches, false, Painter(map[], seeded.main), clear)
  }

  /**
   * The bookkeeping the grid keeps for the live branches: every cell a live
   * branch has visited is occupied.
   */
  ghost predicate Tracks(s: Scene) {
    && Valid(s.grid)
    && forall b, p :: b in s.branches && p in b.ownFields ==> Occupied(s.grid, p)
  }

  /** What `render` does in one frame: whether it cleared the screen, the new events and what it drew. */
  datatype Frame = Frame(scene: Scene, cleared: bool, events: seq<Event>, drawn: seq<DrawOp>)

  /** The first `n` draws of a stream. */
  function Take(draws: nat -> StepDraws, n: nat): (r: seq<StepDraws>)
    ensures |r| == n && forall k :: 0 <= k < n ==> r[k] == draws(k)
  {
    seq(n, k requires 0 <= k < n => draws(k))
  }

  /**
   * A growth frame of `render`: the branching pass, then the stepping pass
   * on its result; the events of non-main branches are painted beneath those
   * of main branches (main as it stands after the branching pass), and the
   * reverse animation starts once no branch is left.
   */
  function RenderGrowth(s: Scene, branchDraws: nat -> BranchDraws, stepDraws: nat -> StepDraws): (r: Frame)
    requires Valid(s.grid) && BiasSound(s.cfg)
    ensures r.scene.cfg == s.cfg && r.cleared == s.needsInitialClear && !r.scene.needsInitialClear
    ensures Valid(r.scene.grid) && r.scene.grid.sizeX == s.grid.sizeX && r.scene.grid.sizeY == s.grid.sizeY
    ensures r.scene.reverseRunning <==> |r.scene.branches| == 0
    ensures ClaimsExactly(s.grid, r.scene.grid, r.events)
    ensures forall c :: Occupied(s.grid, c) ==> Occupied(r.scene.grid, c)
    ensures PromotedFrom(s.painter.main, r.scene.painter.main, r.events)
    ensures r.scene.painter.history.Keys == s.painter.history.Keys + Ids(r.events)
    ensures forall id :: History(r.scene.painter, id) == History(s.painter, id) + OpsFor(s.cfg, r.events, id)
    ensures r.drawn == AllOps(s.cfg, NonMainEvents(r.events, r.scene.painter.main))
                     + AllOps(s.cfg, MainEvents(r.events, r.scene.painter.main))
    ensures forall b' :: b' in r.scene.branches ==> GrewFrom(s.branches, r.events, b')
  {
    var br := ProcessBranching(s.grid, s.branches, s.painter.main, s.cfg, branchDraws);
    var st := ProcessStepping(br.grid, br.branches, s.cfg, Take(stepDraws, |br.branches|));
    var events := br.events + st.events;
    GrowthProvenance(s.branches, br.branches, br.events, st.branches, st.events);
    var back := NonMainEvents(events, br.main);
    var front := MainEvents(events, br.main);
    var p := Layered(s.painter, s.cfg, events, br.main);
    ClaimsChain(s.grid, br.grid, st.grid, br.events, st.events);
    PromotedWithin(s.painter.main, br.main, br.events, st.events);
    LayeredHistory(s.painter, s.cfg, events, br.main);
    Frame(Scene(s.cfg, st.grid, st.branches, |st.branches| == 0, p, false),
          s.needsInitialClear, events, AllOps(s.cfg, back) + AllOps(s.cfg, front))
  }

  /** `b'` is one step on from a branch of `bs`, or from a child announced by one of the events `evs`. */
  ghost predicate GrewFrom(bs: seq<Branch>, evs: seq<Event>, b': Branch) {
    || SucceedsOneOf(multiset(bs), b')
    || exists t, c :: 0 <= t < |evs| && Born(evs[t], c) && Succeeds(c, b')
  }

  /** The branches after both passes grew from the branches before them or from the children the first pass announced. */
  lemma GrowthProvenance(bs: seq<Branch>, mid: seq<Branch>, born: seq<Event>, out: seq<Branch>, moves: seq<Event>)
    requires ChildrenOf(bs, mid, born)
    requires forall t :: 0 <= t < |out| ==> SucceedsOneOf(multiset(mid), out[t])
    ensures forall b' :: b' in out ==> GrewFrom(bs, born + moves, b')
  {
    forall b' | b' in out ensures GrewFrom(bs, born + moves, b') {
      var j :| 0 <= j < |out| && out[j] == b';
      var a :| a in multiset(mid) && Succeeds(a, b');
      if a !in multiset(bs) {
        assert a in multiset(mid) - multiset(bs);
        var t :| 0 <= t < |born| && Born(born[t], a);
        assert (born + moves)[t] == born[t];
      }
    }
  }

  /** Two rounds of claims on top of each other are one round of claims. */
  lemma ClaimsChain(g: Grid, g1: Grid, g2: Grid, e1: seq<Event>, e2: seq<Event>)
    requires Valid(g) && Valid(g1) && Valid(g2) && g1.sizeX == g.sizeX && g1.sizeY == g.sizeY
    requires ClaimsExactly(g, g1, e1) && ClaimsExactly(g1, g2, e2)
    ensures ClaimsExactly(g, g2, e1 + e2)
  {
    var all := e1 + e2;
    assert Targets(all) == Targets(e1) + Targets(e2);
    forall t | 0 <= t < |all| ensures Free(g, Target(all[t])) {
      if t >= |e1| {
        assert all[t] == e2[t - |e1|];
        FreeBefore(g, g1, Target(all[t]));
      }
    }
    forall t, u | 0 <= t < u < |all| ensures Target(all[t]) != Target(all[u]) {
      if t < |e1| <= u {
        assert all[u] == e2[u - |e1|];
        assert Target(all[t]) in Targets(e1);
        assert Occupied(g1, Target(all[t]));
      } else if |e1| <= t {
        assert all[t] == e2[t - |e1|] && all[u] == e2[u - |e1|];
      }
    }
  }

  /** A cell free after more claims was free before them, on a grid of the same extent. */
  lemma FreeBefore(g: Grid, g1: Grid, c: Pos)
    requires Valid(g) && Valid(g1) && g1.sizeX == g.sizeX && g1.sizeY == g.sizeY
    requires forall c :: Occupied(g, c) ==> Occupied(g1, c)
    requires Free(g1, c)
    ensures Free(g, c)
  {
    assert !Occupied(g1, c);
    assert !Occupied(g, c);
    assert IsPositionValid(g, c);
    var v := Get(g, c.x, c.y);
    assert v.Some?;
    assert v != Some(true);
    assert v.value == false;
  }

  lemma PromotedWithin(main: set<U32>, main': set<U32>, e1: seq<Event>, e2: seq<Event>)
    requires PromotedFrom(main, main', e1)
    ensures PromotedFrom(main, main', e1 + e2)
  {
    forall id | id in main' && id !in main
      ensures exists t :: 0 <= t < |e1 + e2| && (e1 + e2)[t].BranchOff? && (e1 + e2)[t].childId == id
    {
      var t :| 0 <= t < |e1| && e1[t].BranchOff? && e1[t].childId == id;
      assert (e1 + e2)[t] == e1[t];
    }
  }

  /** Painting the two layers one after the other grows each history by its own events, in event order. */
  lemma {:induction false} LayeredHistory(p0: Painter, cfg: Config, events: seq<Event>, main: set<U32>)
    ensures Layered(p0, cfg, events, main).main == main
    ensures Layered(p0, cfg, events, main).history.Keys == p0.history.Keys + Ids(events)
    ensures forall id :: History(Layered(p0, cfg, events, main), id) == History(p0, id) + OpsFor(cfg, events, id)
  {
    var p := Layered(p0, cfg, events, main);
    LayeredKeys(p0, cfg, events, main);
    forall id ensures History(p, id) == History(p0, id) + OpsFor(cfg, events, id) {
      LayerAt(p0, cfg, events, main, id);
    }
  }

  /** `render`'s two drawing loops with `main` as the main set: non-main events first, then main ones. */
  function Layered(p0: Painter, cfg: Config, events: seq<Event>, main: set<U32>): Painter {
    DrawEvents(DrawEvents(p0.(main := main), cfg, NonMainEvents(events, main)), cfg, MainEvents(events, main))
  }

  lemma {:induction false} LayeredKeys(p0: Painter, cfg: Config, events: seq<Event>, main: set<U32>)
    ensures Layered(p0, cfg, events, main).main == main
    ensures Layered(p0, cfg, events, main).history.Keys == p0.history.Keys + Ids(events)
  {
    var p := Layered(p0, cfg, events, main);
    var back, front := NonMainEvents(events, main), MainEvents(events, main);
    var p1 := DrawEvents(p0.(main := main), cfg, back);
    IdsSplit(events, main);
    Union3(p0.history.Keys, p1.history.Keys, p.history.Keys, Ids(back), Ids(front), Ids(events));
  }

  lemma Union3(k0: set<U32>, k1: set<U32>, k: set<U32>, a: set<U32>, b: set<U32>, c: set<U32>)
    requires k1 == k0 + a && k == k1 + b && a + b == c
    ensures k == k0 + c
  {
  }

  lemma {:induction false} LayerAt(p0: Painter, cfg: Config, events: seq<Event>, main: set<U32>, id: U32)
    ensures History(Layered(p0, cfg, events, main), id) == History(p0, id) + OpsFor(cfg, events, id)
  {
    var p := Layered(p0, cfg, events, main);
    var back, front := NonMainEvents(events, main), MainEvents(events, main);
    var pm := p0.(main := main);
    var p1 := DrawEvents(pm, cfg, back);
    HistoryIgnoresMain(p0, main, id);
    LayersJoin(cfg, events, main, id);
    assert History(p, id) == History(p1, id) + OpsFor(cfg, front, id);
    assert History(p1, id) == History(pm, id) + OpsFor(cfg, back, id);
    assert History(p1, id) == History(p0, id) + OpsFor(cfg, back, id);
    Append3(History(p0, id), History(p1, id), History(p, id),
            OpsFor(cfg, back, id), OpsFor(cfg, front, id), OpsFor(cfg, events, id));
  }

  lemma HistoryIgnoresMain(p0: Painter, main: set<U32>, id: U32)
    ensures History(p0.(main := main), id) == History(p0, id)
  {
  }

  /** The two layers' views of `id` together are its view of all the events. */
  lemma LayersJoin(cfg: Config, events: seq<Event>, main: set<U32>, id: U32)
    ensures OpsFor(cfg, NonMainEvents(events, main), id) + OpsFor(cfg, MainEvents(events, main), id) == OpsFor(cfg, events, id)
  {
    LayeringKeepsBranchOrder(cfg, events, main, id);
    OpsForAppend(cfg, NonMainEvents(events, main), MainEvents(events, main), id);
  }

  lemma Append3(h0: seq<DrawOp>, h1: seq<DrawOp>, h: seq<DrawOp>, a: seq<DrawOp>, b: seq<DrawOp>, c: seq<DrawOp>)
    requires h1 == h0 + a && h == h1 + b && a + b == c
    ensures h == h0 + c
  {
  }

  /** Splitting the events into two layers loses no branch and adds none. */
  lemma {:induction false} IdsSplit(evs: seq<Event>, main: set<U32>)
    ensures Ids(NonMainEvents(evs, main)) + Ids(MainEvents(evs, main)) == Ids(evs)
    decreases |evs|
  {
    if |evs| > 0 {
      IdsSplit(evs[1..], main);
      IdsCons(evs);
      var n, m := NonMainEvents(evs[1..], main), MainEvents(evs[1..], main);
      if EventId(evs[0]) in main {
        assert NonMainEvents(evs, main) == n && MainEvents(evs, main) == [evs[0]] + m;
        IdsCons([evs[0]] + m);
        assert ([evs[0]] + m)[1..] == m;
      } else {
        assert NonMainEvents(evs, main) == [evs[0]] + n && MainEvents(evs, main) == m;
        IdsCons([evs[0]] + n);
        assert ([evs[0]] + n)[1..] == n;
      }
    }
  }

  /**
   * A reverse frame of `render`: one `reverse_step`; when it reports done the
   * scene is initialized afresh (with the clear flag set), otherwise only the
   * draw history and main set change.
   */
  function RenderReverse(s: Scene, keys: seq<U32>, seeds: seq<SeedDraws>): (r: Frame)
    requires Valid(s.grid) && Enumerates(s.painter, keys)
    requires |seeds| == s.cfg.startBranches && (|seeds| > 0 ==> s.grid.sizeX > 0 && s.grid.sizeY > 0)
    ensures r.cleared == s.needsInitialClear && r.events == [] && AllBlack(r.drawn)
    ensures r.scene.cfg == s.cfg
    ensures Valid(r.scene.grid) && r.scene.grid.sizeX == s.grid.sizeX && r.scene.grid.sizeY == s.grid.sizeY
    ensures ReverseStep(s.painter, s.cfg, keys).done ==>
      r.scene == InitializeWithClear(s.(painter := ReverseStep(s.painter, s.cfg, keys).painter), seeds, true)
    ensures !ReverseStep(s.painter, s.cfg, keys).done ==>
      && r.scene.grid == s.grid && r.scene.branches == s.branches
      && r.scene.reverseRunning == s.reverseRunning && !r.scene.needsInitialClear
      && forall id :: History(s.painter, id) == History(r.scene.painter, id) + StepTail(s.painter, s.cfg, keys, id)
    ensures |s.painter.history| == 0 ==> r.drawn == [] && r.scene == InitializeWithClear(s, seeds, true)
  {
    var rs := ReverseStep(s.painter, s.cfg, keys);
    var s1 := s.(painter := rs.painter, needsInitialClear := false);
    var next := if rs.done then InitializeWithClear(s.(painter := rs.painter), seeds, true) else s1;
    Frame(next, s.needsInitialClear, [], rs.batch)
  }

  /**
   * `render`: a reverse frame while the reverse animation runs, a growth
   * frame otherwise. The screen is cleared on the first frame after an
   * initialization.
   */
  function Render(s: Scene, keys: seq<U32>, branchDraws: nat -> BranchDraws, stepDraws: nat -> StepDraws,
                  seeds: seq<SeedDraws>): (r: Frame)
    requires Valid(s.grid) && BiasSound(s.cfg)
    requires s.reverseRunning ==> Enumerates(s.painter, keys)
    requires s.reverseRunning ==> |seeds| == s.cfg.startBranches && (|seeds| > 0 ==> s.grid.sizeX > 0 && s.grid.sizeY > 0)
    ensures r.cleared == s.needsInitialClear && r.scene.cfg == s.cfg
    ensures Valid(r.scene.grid) && r.scene.grid.sizeX == s.grid.sizeX && r.scene.grid.sizeY == s.grid.sizeY
    ensures s.reverseRunning ==> r.events == [] && AllBlack(r.drawn)
    ensures !s.reverseRunning ==> (r.scene.reverseRunning <==> |r.scene.branches| == 0)
    ensures !s.reverseRunning ==> forall c :: Occupied(s.grid, c) ==> Occupied(r.scene.grid, c)
    ensures !s.reverseRunning ==> forall b' :: b' in r.scene.branches ==> GrewFrom(s.branches, r.events, b')
    ensures s.reverseRunning && ReverseStep(s.painter, s.cfg, keys).done ==>
      r.scene == InitializeWithClear(s.(painter := ReverseStep(s.painter, s.cfg, keys).painter), seeds, true)
    ensures s.reverseRunning && !ReverseStep(s.painter, s.cfg, keys).done ==>
      && r.scene.grid == s.grid && r.scene.branches == s.branches && r.scene.reverseRunning
      && forall id :: History(s.painter, id) == History(r.scene.painter, id) + StepTail(s.painter, s.cfg, keys, id)
  {
    if s.reverseRunning then RenderReverse(s, keys, seeds)
    else RenderGrowth(s, branchDraws, stepDraws)
  }

  /**
   * The grid keeps track of the live branches across frames: every cell a
   * branch alive after the frame has visited is occupied.
   */
  lemma RenderTracks(s: Scene, keys: seq<U32>, branchDraws: nat -> BranchDraws, stepDraws: nat -> StepDraws,
                     seeds: seq<SeedDraws>)
    requires Tracks(s) && BiasSound(s.cfg)
    requires s.reverseRunning ==> Enumerates(s.painter, keys)
    requires s.reverseRunning ==> |seeds| == s.cfg.startBranches && (|seeds| > 0 ==> s.grid.sizeX > 0 && s.grid.sizeY > 0)
    ensures Tracks(Render(s, keys, branchDraws, stepDraws, seeds).scene)
  {
    var r := Render(s, keys, branchDraws, stepDraws, seeds);
    if s.reverseRunning {
      if ReverseStep(s.painter, s.cfg, keys).done {
        FreshTracks(s.(painter := ReverseStep(s.painter, s.cfg, keys).painter), seeds);
      }
    } else {
      GrowthTracks(s, branchDraws, stepDraws);
    }
  }

  /** A freshly seeded scene tracks its seeds. */
  lemma FreshTracks(s: Scene, seeds: seq<SeedDraws>)
    requires Valid(s.grid) && (|seeds| > 0 ==> s.grid.sizeX > 0 && s.grid.sizeY > 0)
    ensures Tracks(InitializeWithClear(s, seeds, true))
  {
    var r := InitializeWithClear(s, seeds, true);
    forall b, p | b in r.branches && p in b.ownFields ensures Occupied(r.grid, p) {
      var j :| 0 <= j < |r.branches| && r.branches[j] == b;
      assert p == r.branches[j].pos;
    }
  }

  lemma GrowthTracks(s: Scene, branchDraws: nat -> BranchDraws, stepDraws: nat -> StepDraws)
    requires Tracks(s) && BiasSound(s.cfg)
    ensures Tracks(RenderGrowth(s, branchDraws, stepDraws).scene)
  {
    var br := ProcessBranching(s.grid, s.branches, s.painter.main, s.cfg, branchDraws);
    BranchingTracks(s.grid, s.branches, br);
    var st := ProcessStepping(br.grid, br.branches, s.cfg, Take(stepDraws, |br.branches|));
    SteppingTracks(br.grid, br.branches, st);
  }

  /** Branches and grid after the branching pass still satisfy the bookkeeping. */
  lemma BranchingTracks(g: Grid, bs: seq<Branch>, br: Pass)
    requires Valid(g) && Valid(br.grid) && br.grid.sizeX == g.sizeX && br.grid.sizeY == g.sizeY
    requires forall b, p :: b in bs && p in b.ownFields ==> Occupied(g, p)
    requires ChildrenOf(bs, br.branches, br.events) && ClaimsExactly(g, br.grid, br.events)
    ensures forall b, p :: b in br.branches && p in b.ownFields ==> Occupied(br.grid, p)
  {
    forall b, p | b in br.branches && p in b.ownFields ensures Occupied(br.grid, p) {
      if b in bs {
        assert Occupied(g, p);
      } else {
        assert b in multiset(br.branches) - multiset(bs);
        var t :| 0 <= t < |br.events| && Born(br.events[t], b);
        assert p == Target(br.events[t]) && Targets(br.events)[t] == p;
      }
    }
  }

  /** Branches and grid after the stepping pass still satisfy the bookkeeping. */
  lemma SteppingTracks(g: Grid, bs: seq<Branch>, st: Stepped)
    requires Valid(g) && Valid(st.grid) && st.grid.sizeX == g.sizeX && st.grid.sizeY == g.sizeY
    requires forall b, p :: b in bs && p in b.ownFields ==> Occupied(g, p)
    requires |st.events| == |st.branches|
    requires forall t :: 0 <= t < |st.branches| ==>
      st.events[t].Move? && st.events[t].to == st.branches[t].pos
    requires forall t :: 0 <= t < |st.branches| ==> SucceedsOneOf(multiset(bs), st.branches[t])
    requires ClaimsExactly(g, st.grid, st.events)
    ensures forall b, p :: b in st.branches && p in b.ownFields ==> Occupied(st.grid, p)
  {
    forall b, p | b in st.branches && p in b.ownFields ensures Occupied(st.grid, p) {
      var t :| 0 <= t < |st.branches| && st.branches[t] == b;
      assert SucceedsOneOf(multiset(bs), b);
      var a :| a in multiset(bs) && Succeeds(a, b);
      if p in a.ownFields {
        assert Occupied(g, p);
      } else {
        assert p == b.pos && Targets(st.events)[t] == p;
      }
    }
  }

  /** `on_resize`'s cell count for one axis: half the pixel extent divided by the scale, rounded. */
  function CellCount(pixels: U32, cfg: Config): (r: U32)
    requires cfg.scale > 0.0
    ensures pixels as real / cfg.scale / 2.0 + 0.5 < U32_LIMIT as real ==>
      r as real - 0.5 <= pixels as real / cfg.scale / 2.0 < r as real + 0.5
    ensures pixels as real / cfg.scale / 2.0 + 0.5 >= U32_LIMIT as real ==> r == U32_LIMIT - 1
  {
    RoundToU32(pixels as real / cfg.scale / 2.0)
  }

  /**
   * `CityGrowScene::with_config`: a grid of half-scale cells for the window,
   * an empty painter, the clear flag set, and `start_branches` seeds planted.
   */
  function WithConfig(width: U32, height: U32, cfg: Config, seeds: seq<SeedDraws>): (r: Scene)
    requires cfg.scale > 0.0
    requires CellCount(width, cfg) <= I32_MAX && CellCount(height, cfg) <= I32_MAX
    requires Mul(CellCount(height, cfg), CellCount(width, cfg)) < U32_LIMIT
    requires |seeds| == cfg.startBranches && (|seeds| > 0 ==> CellCount(width, cfg) > 0 && CellCount(height, cfg) > 0)
    ensures Valid(r.grid) && r.grid.sizeX == CellCount(width, cfg) && r.grid.sizeY == CellCount(height, cfg)
    ensures r.cfg == cfg && !r.reverseRunning && r.needsInitialClear
    ensures r.painter.history == map[] && |r.branches| == cfg.startBranches
    ensures forall id :: id in r.painter.main <==> exists j :: 0 <= j < |seeds| && r.branches[j].id == id
    ensures forall c :: Occupied(r.grid, c) <==> exists j :: 0 <= j < |seeds| && r.branches[j].pos == c
  {
    var g := NewGrid(CellCount(width, cfg), CellCount(height, cfg));
    InitializeWithClear(Scene(cfg, g, [], false, Painter(map[], {}), true), seeds, true)
  }

  /**
   * `on_resize`: a new grid of half-scale cells for the new size, then a
   * fresh initialization. Everything drawn and grown before is forgotten.
   */
  function OnResize(s: Scene, width: U32, height: U32, seeds: seq<SeedDraws>): (r: Scene)
    requires s.cfg.scale > 0.0
    requires CellCount(width, s.cfg) <= I32_MAX && CellCount(height, s.cfg) <= I32_MAX
    requires Mul(CellCount(height, s.cfg), CellCount(width, s.cfg)) < U32_LIMIT
    requires |seeds| == s.cfg.startBranches && (|seeds| > 0 ==> CellCount(width, s.cfg) > 0 && CellCount(height, s.cfg) > 0)
    ensures Valid(r.grid) && r.grid.sizeX == CellCount(width, s.cfg) && r.grid.sizeY == CellCount(height, s.cfg)
    ensures r.cfg == s.cfg && !r.reverseRunning && r.needsInitialClear
    ensures r.painter.history == map[] && |r.branches| == |seeds|
    ensures forall id :: id in r.painter.main <==> exists j :: 0 <= j < |seeds| && r.branches[j].id == id
    ensures forall c :: Occupied(r.grid, c) <==> exists j :: 0 <= j < |seeds| && r.branches[j].pos == c
  {
    var g := NewGrid(CellCount(width, s.cfg), CellCount(height, s.cfg));
    InitializeWithClear(s.(grid := g), seeds, true)
  }
}
