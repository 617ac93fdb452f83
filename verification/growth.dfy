/**
 * The two passes of one growth tick (`process_branching` and
 * `process_stepping` of `CityGrowScene` in src/city_grow.rs), written as the
 * same index walk over the branch list with `swap_remove`, `push` and `swap`.
 */
module Growth {
  import opened Ints
  import opened Wrappers
  import opened Positions
  import opened Grids
  import opened Configs
  import opened Branches
  import opened Vecs

  /**
   * What the branching walk leaves behind: the grid, the grown list, the
   * main-branch ids and the new events, with the record of its visits.
   */
  datatype Pass = Pass(grid: Grid, branches: seq<Branch>, main: set<U32>, events: seq<Event>, visits: seq<BranchVisit>)

  /** A spawn of the branching walk: the child `try_branch_off` made, its event, and whether it was promoted. */
  datatype Spawn = Spawn(child: Branch, event: Event, promoted: bool)

  /** One visit of the branching walk: the grid the branch saw and the spawn it made, if any. */
  datatype BranchVisit = BranchVisit(grid: Grid, spawn: Option<Spawn>)

  /** The cell an event claims: the destination of a move, or the child's cell. */
  function Target(e: Event): Pos {
    match e
    case Move(_, _, to, _, _, _) => to
    case BranchOff(_, _, childPos, _, _) => childPos
  }

  function Targets(evs: seq<Event>): (r: seq<Pos>)
    ensures |r| == |evs| && forall t :: 0 <= t < |evs| ==> r[t] == Target(evs[t])
  {
    seq(|evs|, t requires 0 <= t < |evs| => Target(evs[t]))
  }

  /**
   * The cells claimed by `evs` were free in `g`, pairwise distinct, and are
   * exactly what `g'` has occupied on top of `g`.
   */
  ghost predicate ClaimsExactly(g: Grid, g': Grid, evs: seq<Event>)
    requires Valid(g) && Valid(g')
  {
    && (forall t :: 0 <= t < |evs| ==> Free(g, Target(evs[t])))
    && (forall t, u :: 0 <= t < u < |evs| ==> Target(evs[t]) != Target(evs[u]))
    && (forall c :: Occupied(g', c) <==> Occupied(g, c) || c in Targets(evs))
  }

  /** Claiming one free cell and then the claims of `evs` on the marked grid. */
  lemma ClaimsCompose(g: Grid, e: Event, g': Grid, evs: seq<Event>)
    requires Valid(g) && Valid(g') && Free(g, Target(e))
    requires ClaimsExactly(Mark(g, Target(e)), g', evs)
    ensures ClaimsExactly(g, g', [e] + evs)
  {
    var all := [e] + evs;
    assert Targets(all) == [Target(e)] + Targets(evs);
    forall t | 0 <= t < |all|
      ensures Free(g, Target(all[t]))
    {
      if t > 0 {
        assert all[t] == evs[t - 1];
      }
    }
    forall t, u | 0 <= t < u < |all|
      ensures Target(all[t]) != Target(all[u])
    {
      assert all[u] == evs[u - 1];
      if t > 0 {
        assert all[t] == evs[t - 1];
      }
    }
  }

  /** `b'` is `a` advanced by one step: same identity and palette, one more visited cell. */
  predicate Succeeds(a: Branch, b': Branch) {
    && b'.id == a.id
    && b'.lifeTime == a.lifeTime
    && b'.color == a.color
    && b'.ownFields == a.ownFields + [b'.pos]
  }

  /** `b'` is one of the branches in `m` advanced by one step. */
  ghost predicate SucceedsOneOf(m: multiset<Branch>, b': Branch) {
    exists a :: a in m && Succeeds(a, b')
  }

  /** Event `t` of `evs` is the move of branch `i + t` of `bs`. */
  predicate Reports(evs: seq<Event>, bs: seq<Branch>, i: nat) {
    forall t :: 0 <= t < |evs| ==>
      i + t < |bs| && evs[t].Move? && evs[t].branchId == bs[i + t].id && evs[t].to == bs[i + t].pos
  }

  /** The `Move` event `process_stepping` emits for a successful step. */
  function MoveEvent(st: Step): Event {
    Move(st.branch.id, st.from, st.to, st.branch.mode, st.branch.color, st.tip)
  }

  /**
   * What the stepping walk leaves behind: the grid, the rebuilt list and the
   * new events, with the record of its visits in the order it made them.
   */
  datatype Stepped = Stepped(grid: Grid, branches: seq<Branch>, events: seq<Event>, visits: seq<StepVisit>)

  /** One visit of the stepping walk: the grid the branch saw, the branch, its draws and what its step returned. */
  datatype StepVisit = StepVisit(grid: Grid, branch: Branch, draw: StepDraws, outcome: Option<Step>)

  /** The grid the next visit sees: the destination of a successful step is marked. */
  function GridAfter(v: StepVisit): Grid
    requires Valid(v.grid)
  {
    match v.outcome
    case Some(st) => Mark(v.grid, st.to)
    case None => v.grid
  }

  /**
   * `vs` records a walk from grid `g` with draws taken from `draws[k]` on:
   * each visit stepped its branch with the next draw on the grid the visits
   * before it left, and `g'` is the grid left at the end.
   */
  predicate StepTrace(g: Grid, cfg: Config, draws: seq<StepDraws>, k: nat, vs: seq<StepVisit>, g': Grid)
    requires BiasSound(cfg)
    decreases |vs|
  {
    if |vs| == 0 then g' == g
    else
      && vs[0].grid == g && k < |draws| && StepsWith(vs[0], cfg, draws[k])
      && StepTrace(GridAfter(vs[0]), cfg, draws, k + 1, vs[1..], g')
  }

  /** Visit `v` stepped its branch with draw `d` on the grid it records. */
  predicate StepsWith(v: StepVisit, cfg: Config, d: StepDraws)
    requires BiasSound(cfg)
  {
    Valid(v.grid) && v.draw == d && v.outcome == StepBranch(v.branch, v.grid, cfg, d)
  }

  /** The branches visited, in visiting order. */
  function Visited(vs: seq<StepVisit>): (r: seq<Branch>)
    ensures |r| == |vs| && forall j :: 0 <= j < |vs| ==> r[j] == vs[j].branch
  {
    seq(|vs|, j requires 0 <= j < |vs| => vs[j].branch)
  }

  /** The advanced branch of every visit whose step succeeded, in visiting order. */
  function Survivors(vs: seq<StepVisit>): seq<Branch> {
    if |vs| == 0 then []
    else (match vs[0].outcome case Some(st) => [st.branch] case None => []) + Survivors(vs[1..])
  }

  /** The move event of every visit whose step succeeded, in visiting order. */
  function Moves(vs: seq<StepVisit>): seq<Event> {
    if |vs| == 0 then []
    else (match vs[0].outcome case Some(st) => [MoveEvent(st)] case None => []) + Moves(vs[1..])
  }

  /**
   * The `while i < branch_list.len()` loop of `process_stepping` from index
   * `i`, using draw `draws[k]` for the branch it takes out. A survivor is put
   * back in slot `i` and the walk moves on; a dead branch is dropped and the
   * element `swap_remove` moved into slot `i` is processed next.
   */
  function SteppingLoop(g: Grid, bs: seq<Branch>, i: nat, cfg: Config, draws: seq<StepDraws>, k: nat): (r: Stepped)
    requires Valid(g) && BiasSound(cfg)
    requires i <= |bs| && k + |bs| - i <= |draws|
    ensures Valid(r.grid) && r.grid.sizeX == g.sizeX && r.grid.sizeY == g.sizeY
    ensures i <= |r.branches| <= |bs| && r.branches[..i] == bs[..i]
    ensures |r.events| == |r.branches| - i && Reports(r.events, r.branches, i)
    ensures forall t :: i <= t < |r.branches| ==> SucceedsOneOf(multiset(bs[i..]), r.branches[t])
    ensures ClaimsExactly(g, r.grid, r.events)
    ensures StepTrace(g, cfg, draws, k, r.visits, r.grid)
    ensures multiset(Visited(r.visits)) == multiset(bs[i..])
    ensures r.branches[i..] == Survivors(r.visits) && r.events == Moves(r.visits)
    decreases |bs| - i, 1
  {
    if i >= |bs| then
      Stepped(g, bs, [], [])
    else
      match StepBranch(bs[i], g, cfg, draws[k])
      case Some(st) => SteppingSurvivor(g, bs, i, cfg, draws, k, st)
      case None => SteppingDropped(g, bs, i, cfg, draws, k)
  }

  /** One iteration of `SteppingLoop` whose branch survived with step `st`. */
  function SteppingSurvivor(g: Grid, bs: seq<Branch>, i: nat, cfg: Config, draws: seq<StepDraws>, k: nat, st: Step): (r: Stepped)
    requires Valid(g) && BiasSound(cfg)
    requires i < |bs| && k + |bs| - i <= |draws|
    requires StepBranch(bs[i], g, cfg, draws[k]) == Some(st)
    requires Free(g, st.to) && Succeeds(bs[i], st.branch) && st.branch.pos == st.to
    ensures Valid(r.grid) && r.grid.sizeX == g.sizeX && r.grid.sizeY == g.sizeY
    ensures i <= |r.branches| <= |bs| && r.branches[..i] == bs[..i]
    ensures |r.events| == |r.branches| - i && Reports(r.events, r.branches, i)
    ensures forall t :: i <= t < |r.branches| ==> SucceedsOneOf(multiset(bs[i..]), r.branches[t])
    ensures ClaimsExactly(g, r.grid, r.events)
    ensures StepTrace(g, cfg, draws, k, r.visits, r.grid)
    ensures multiset(Visited(r.visits)) == multiset(bs[i..])
    ensures r.branches[i..] == Survivors(r.visits) && r.events == Moves(r.visits)
    decreases |bs| - i, 0
  {
    var rest := SwapRemove(bs, i);
    SwapRemovePushSwap(bs, i, st.branch);
    var bs1 := Swap(rest + [st.branch], i, |rest|);
    var r := SteppingLoop(Mark(g, st.to), bs1, i + 1, cfg, draws, k + 1);
    var v := StepVisit(g, bs[i], draws[k], Some(st));
    SurvivorStep(g, bs, i, cfg, draws, k, st, v, bs1, r);
    Stepped(r.grid, r.branches, [MoveEvent(st)] + r.events, [v] + r.visits)
  }

  /** Everything a surviving visit in `SteppingLoop` guarantees, from what the rest of the walk guarantees. */
  lemma {:induction false} SurvivorStep(g: Grid, bs: seq<Branch>, i: nat, cfg: Config, draws: seq<StepDraws>, k: nat,
                                        st: Step, v: StepVisit, bs1: seq<Branch>, r: Stepped)
    requires Valid(g) && BiasSound(cfg) && i < |bs| && k < |draws|
    requires StepBranch(bs[i], g, cfg, draws[k]) == Some(st) && v == StepVisit(g, bs[i], draws[k], Some(st))
    requires Free(g, st.to) && Succeeds(bs[i], st.branch) && st.branch.pos == st.to && bs1 == bs[i := st.branch]
    requires Valid(r.grid) && r.grid.sizeX == g.sizeX && r.grid.sizeY == g.sizeY
    requires i + 1 <= |r.branches| <= |bs1| && r.branches[..i + 1] == bs1[..i + 1]
    requires |r.events| == |r.branches| - (i + 1) && Reports(r.events, r.branches, i + 1)
    requires forall t :: i + 1 <= t < |r.branches| ==> SucceedsOneOf(multiset(bs1[i + 1..]), r.branches[t])
    requires ClaimsExactly(Mark(g, st.to), r.grid, r.events)
    requires StepTrace(Mark(g, st.to), cfg, draws, k + 1, r.visits, r.grid)
    requires multiset(Visited(r.visits)) == multiset(bs1[i + 1..])
    requires r.branches[i + 1..] == Survivors(r.visits) && r.events == Moves(r.visits)
    ensures r.branches[..i] == bs[..i]
    ensures |[MoveEvent(st)] + r.events| == |r.branches| - i && Reports([MoveEvent(st)] + r.events, r.branches, i)
    ensures forall t :: i <= t < |r.branches| ==> SucceedsOneOf(multiset(bs[i..]), r.branches[t])
    ensures ClaimsExactly(g, r.grid, [MoveEvent(st)] + r.events)
    ensures StepTrace(g, cfg, draws, k, [v] + r.visits, r.grid)
    ensures multiset(Visited([v] + r.visits)) == multiset(bs[i..])
    ensures r.branches[i..] == Survivors([v] + r.visits) && [MoveEvent(st)] + r.events == Moves([v] + r.visits)
  {
    SurvivorBookkeeping(g, bs, i, st, r);
    assert r.branches[i] == r.branches[..i + 1][i];
    assert bs1[i + 1..] == bs[i + 1..];
    StepTraceCons(g, cfg, draws, k, v, r.visits, r.grid);
    SurvivorTrace(bs, i, v, st, r);
  }

  /** One iteration of `SteppingLoop` whose branch died: the list shrinks and slot `i` is walked again. */
  function SteppingDropped(g: Grid, bs: seq<Branch>, i: nat, cfg: Config, draws: seq<StepDraws>, k: nat): (r: Stepped)
    requires Valid(g) && BiasSound(cfg)
    requires i < |bs| && k + |bs| - i <= |draws|
    requires StepBranch(bs[i], g, cfg, draws[k]).None?
    ensures Valid(r.grid) && r.grid.sizeX == g.sizeX && r.grid.sizeY == g.sizeY
    ensures i <= |r.branches| <= |bs| && r.branches[..i] == bs[..i]
    ensures |r.events| == |r.branches| - i && Reports(r.events, r.branches, i)
    ensures forall t :: i <= t < |r.branches| ==> SucceedsOneOf(multiset(bs[i..]), r.branches[t])
    ensures ClaimsExactly(g, r.grid, r.events)
    ensures StepTrace(g, cfg, draws, k, r.visits, r.grid)
    ensures multiset(Visited(r.visits)) == multiset(bs[i..])
    ensures r.branches[i..] == Survivors(r.visits) && r.events == Moves(r.visits)
    decreases |bs| - i, 0
  {
    var rest := SwapRemove(bs, i);
    var r := SteppingLoop(g, rest, i, cfg, draws, k + 1);
    SucceedsFromFewer(multiset(rest[i..]), multiset(bs[i..]), r.branches, i);
    var v := StepVisit(g, bs[i], draws[k], None);
    StepTraceCons(g, cfg, draws, k, v, r.visits, r.grid);
    DroppedTrace(bs, i, v, r);
    r.(visits := [v] + r.visits)
  }

  /** The record of a walk whose first visit stepped `bs[i]` to `st`. */
  lemma {:induction false} SurvivorTrace(bs: seq<Branch>, i: nat, v: StepVisit, st: Step, r: Stepped)
    requires i < |bs| && v.branch == bs[i] && v.outcome == Some(st)
    requires i + 1 <= |r.branches| && r.branches[i] == st.branch
    requires multiset(Visited(r.visits)) == multiset(bs[i + 1..])
    requires r.branches[i + 1..] == Survivors(r.visits) && r.events == Moves(r.visits)
    ensures multiset(Visited([v] + r.visits)) == multiset(bs[i..])
    ensures r.branches[i..] == Survivors([v] + r.visits)
    ensures [MoveEvent(st)] + r.events == Moves([v] + r.visits)
  {
    VisitedCons(v, r.visits, bs, i);
    RecordConsSome(v, r.visits, st);
    assert r.branches[i..] == [st.branch] + r.branches[i + 1..];
  }

  /** The record of a walk whose first visit found `bs[i]` dead. */
  lemma {:induction false} DroppedTrace(bs: seq<Branch>, i: nat, v: StepVisit, r: Stepped)
    requires i < |bs| && v.branch == bs[i] && v.outcome.None? && i <= |r.branches|
    requires multiset(Visited(r.visits)) == multiset(bs[i..]) - multiset{bs[i]}
    requires r.branches[i..] == Survivors(r.visits) && r.events == Moves(r.visits)
    ensures multiset(Visited([v] + r.visits)) == multiset(bs[i..])
    ensures r.branches[i..] == Survivors([v] + r.visits)
    ensures r.events == Moves([v] + r.visits)
  {
    VisitedConsMultiset(v, r.visits, multiset(bs[i..]) - multiset{bs[i]});
    assert bs[i] in multiset(bs[i..]) by {
      assert bs[i..][0] == bs[i];
    }
    RecordConsNone(v, r.visits);
  }

  /** A visit that stepped its branch on `g` with `draws[k]`, in front of the record of the rest of the walk. */
  lemma {:induction false} StepTraceCons(g: Grid, cfg: Config, draws: seq<StepDraws>, k: nat, v: StepVisit,
                                         vs: seq<StepVisit>, g': Grid)
    requires Valid(g) && BiasSound(cfg) && k < |draws| && v.grid == g && v.draw == draws[k]
    requires v.outcome == StepBranch(v.branch, g, cfg, draws[k])
    requires StepTrace(GridAfter(v), cfg, draws, k + 1, vs, g')
    ensures StepTrace(g, cfg, draws, k, [v] + vs, g')
  {
    assert ([v] + vs)[0] == v && ([v] + vs)[1..] == vs;
  }

  lemma {:induction false} VisitedCons(v: StepVisit, vs: seq<StepVisit>, bs: seq<Branch>, i: nat)
    requires i < |bs| && v.branch == bs[i] && multiset(Visited(vs)) == multiset(bs[i + 1..])
    ensures multiset(Visited([v] + vs)) == multiset(bs[i..])
  {
    assert Visited([v] + vs) == [v.branch] + Visited(vs);
    assert bs[i..] == [bs[i]] + bs[i + 1..];
  }

  lemma {:induction false} VisitedConsMultiset(v: StepVisit, vs: seq<StepVisit>, m: multiset<Branch>)
    requires multiset(Visited(vs)) == m
    ensures multiset(Visited([v] + vs)) == multiset{v.branch} + m
  {
    assert Visited([v] + vs) == [v.branch] + Visited(vs);
  }

  /** The survivors and moves of a record with one more visit in front, which stepped to `st`. */
  lemma {:induction false} RecordConsSome(v: StepVisit, vs: seq<StepVisit>, st: Step)
    requires v.outcome == Some(st)
    ensures Survivors([v] + vs) == [st.branch] + Survivors(vs)
    ensures Moves([v] + vs) == [MoveEvent(st)] + Moves(vs)
  {
    assert ([v] + vs)[0] == v && ([v] + vs)[1..] == vs;
  }

  /** The survivors and moves of a record with one more visit in front, whose branch died. */
  lemma {:induction false} RecordConsNone(v: StepVisit, vs: seq<StepVisit>)
    requires v.outcome.None?
    ensures Survivors([v] + vs) == Survivors(vs)
    ensures Moves([v] + vs) == Moves(vs)
  {
    assert ([v] + vs)[0] == v && ([v] + vs)[1..] == vs;
  }

  /** The visits whose branch died. */
  function Dead(vs: seq<StepVisit>): seq<Branch> {
    if |vs| == 0 then []
    else (if vs[0].outcome.None? then [vs[0].branch] else []) + Dead(vs[1..])
  }

  /** Every visit of a record stepped its branch with its own draw on a valid grid. */
  lemma {:induction false} TraceAt(g: Grid, cfg: Config, draws: seq<StepDraws>, k: nat, vs: seq<StepVisit>, g': Grid, j: nat)
    requires BiasSound(cfg) && StepTrace(g, cfg, draws, k, vs, g') && j < |vs|
    ensures k + j < |draws| && StepsWith(vs[j], cfg, draws[k + j])
    decreases j
  {
    if j > 0 {
      var rest := vs[1..];
      assert rest[j - 1] == vs[j] && k + 1 + (j - 1) == k + j;
      TraceAt(GridAfter(vs[0]), cfg, draws, k + 1, rest, g', j - 1);
    }
  }

  /** A visit whose step succeeded contributes its survivor and its move. */
  lemma {:induction false} SurvivorsAt(vs: seq<StepVisit>, j: nat)
    requires j < |vs| && vs[j].outcome.Some?
    ensures vs[j].outcome.value.branch in Survivors(vs)
    ensures MoveEvent(vs[j].outcome.value) in Moves(vs)
    decreases j
  {
    assert vs == [vs[0]] + vs[1..];
    if vs[0].outcome.Some? {
      RecordConsSome(vs[0], vs[1..], vs[0].outcome.value);
    } else {
      RecordConsNone(vs[0], vs[1..]);
    }
    if j > 0 {
      SurvivorsAt(vs[1..], j - 1);
      assert vs[1..][j - 1] == vs[j];
    }
  }

  lemma SurvivorsAll(vs: seq<StepVisit>)
    ensures forall j :: 0 <= j < |vs| && vs[j].outcome.Some? ==>
      vs[j].outcome.value.branch in Survivors(vs) && MoveEvent(vs[j].outcome.value) in Moves(vs)
  {
    forall j | 0 <= j < |vs| && vs[j].outcome.Some?
      ensures vs[j].outcome.value.branch in Survivors(vs) && MoveEvent(vs[j].outcome.value) in Moves(vs)
    {
      SurvivorsAt(vs, j);
    }
  }

  /** Each visit either survives or dies. */
  lemma {:induction false} SurvivorsCount(vs: seq<StepVisit>)
    ensures |Survivors(vs)| + |Dead(vs)| == |vs|
    decreases |vs|
  {
    if |vs| > 0 {
      SurvivorsCount(vs[1..]);
    }
  }

  lemma SucceedsFromFewer(m: multiset<Branch>, m': multiset<Branch>, bs: seq<Branch>, i: nat)
    requires m <= m'
    requires forall t :: i <= t < |bs| ==> SucceedsOneOf(m, bs[t])
    ensures forall t :: i <= t < |bs| ==> SucceedsOneOf(m', bs[t])
  {
    forall t | i <= t < |bs|
      ensures SucceedsOneOf(m', bs[t])
    {
      var a :| a in m && Succeeds(a, bs[t]);
      assert a in m';
    }
  }

  /** The bookkeeping of one surviving branch in `SteppingLoop`. */
  lemma SurvivorBookkeeping(g: Grid, bs: seq<Branch>, i: nat, st: Step, r: Stepped)
    requires Valid(g) && i < |bs|
    requires Free(g, st.to) && Succeeds(bs[i], st.branch) && st.branch.pos == st.to
    requires Valid(r.grid) && i + 1 <= |r.branches| && r.branches[..i + 1] == bs[i := st.branch][..i + 1]
    requires |r.events| == |r.branches| - (i + 1) && Reports(r.events, r.branches, i + 1)
    requires forall t :: i + 1 <= t < |r.branches| ==> SucceedsOneOf(multiset(bs[i := st.branch][i + 1..]), r.branches[t])
    requires ClaimsExactly(Mark(g, st.to), r.grid, r.events)
    ensures r.branches[..i] == bs[..i]
    ensures |[MoveEvent(st)] + r.events| == |r.branches| - i && Reports([MoveEvent(st)] + r.events, r.branches, i)
    ensures forall t :: i <= t < |r.branches| ==> SucceedsOneOf(multiset(bs[i..]), r.branches[t])
    ensures ClaimsExactly(g, r.grid, [MoveEvent(st)] + r.events)
  {
    assert r.branches[..i] == r.branches[..i + 1][..i];
    assert r.branches[i] == r.branches[..i + 1][i] == st.branch;
    SurvivorReports(st, r.events, r.branches, i);
    SurvivorSucceeds(bs, i, st.branch, r.branches);
    ClaimsCompose(g, MoveEvent(st), r.grid, r.events);
  }

  /** Prepending the survivor's move to the moves reported from slot `i + 1`. */
  lemma SurvivorReports(st: Step, evs: seq<Event>, bs: seq<Branch>, i: nat)
    requires i < |bs| && bs[i] == st.branch && st.branch.pos == st.to
    requires Reports(evs, bs, i + 1)
    ensures Reports([MoveEvent(st)] + evs, bs, i)
  {
    var all := [MoveEvent(st)] + evs;
    forall t | 0 <= t < |all|
      ensures i + t < |bs| && all[t].Move? && all[t].branchId == bs[i + t].id && all[t].to == bs[i + t].pos
    {
      if t > 0 {
        assert all[t] == evs[t - 1];
      }
    }
  }

  /** The survivor in slot `i` and everything after it still descend from `bs[i..]`. */
  lemma SurvivorSucceeds(bs: seq<Branch>, i: nat, b': Branch, out: seq<Branch>)
    requires i < |bs| && i < |out| && out[i] == b' && Succeeds(bs[i], b')
    requires forall t :: i + 1 <= t < |out| ==> SucceedsOneOf(multiset(bs[i := b'][i + 1..]), out[t])
    ensures forall t :: i <= t < |out| ==> SucceedsOneOf(multiset(bs[i..]), out[t])
  {
    assert bs[i := b'][i + 1..] == bs[i + 1..];
    assert bs[i..] == [bs[i]] + bs[i + 1..];
    SucceedsFromFewer(multiset(bs[i + 1..]), multiset(bs[i..]), out, i + 1);
    assert SucceedsOneOf(multiset(bs[i..]), out[i]) by {
      assert bs[i] in multiset(bs[i..]);
    }
  }

  /**
   * `CityGrowScene::process_stepping`: advances every branch once, marks each
   * destination, keeps the survivors (in the order the walk put them back) and
   * drops branches whose step reported death.
   */
  function ProcessStepping(g: Grid, bs: seq<Branch>, cfg: Config, draws: seq<StepDraws>): (r: Stepped)
    requires Valid(g) && BiasSound(cfg) && |bs| <= |draws|
    ensures Valid(r.grid) && r.grid.sizeX == g.sizeX && r.grid.sizeY == g.sizeY
    ensures |r.events| == |r.branches| <= |bs|
    ensures forall t :: 0 <= t < |r.branches| ==>
      r.events[t].Move? && r.events[t].branchId == r.branches[t].id && r.events[t].to == r.branches[t].pos
    ensures forall t :: 0 <= t < |r.branches| ==> SucceedsOneOf(multiset(bs), r.branches[t])
    ensures ClaimsExactly(g, r.grid, r.events)
    ensures StepTrace(g, cfg, draws, 0, r.visits, r.grid)
    ensures multiset(Visited(r.visits)) == multiset(bs)
    ensures r.branches == Survivors(r.visits) && r.events == Moves(r.visits)
    ensures |r.visits| == |bs| && |r.branches| + |Dead(r.visits)| == |bs|
    ensures forall j :: 0 <= j < |r.visits| && r.visits[j].outcome.Some? ==>
      r.visits[j].outcome.value.branch in r.branches && MoveEvent(r.visits[j].outcome.value) in r.events
  {
    assert bs[0..] == bs;
    var r := SteppingLoop(g, bs, 0, cfg, draws, 0);
    assert r.branches[0..] == r.branches;
    assert |multiset(Visited(r.visits))| == |multiset(bs)|;
    SurvivorsCount(r.visits);
    SurvivorsAll(r.visits);
    r
  }

  /** The draws of one branching iteration: the branch-off roll, the neighbour pick, the child's id and the promotion roll. */
  datatype BranchDraws = BranchDraws(roll: real, neighborPick: nat, childId: U32, promoteRoll: real)

  /** How many of `bs[i..]` have moved at least once, the only branches `try_branch_off` lets spawn. */
  function Spawners(bs: seq<Branch>, i: nat): nat
    decreases |bs| - i
  {
    if i >= |bs| then 0 else (if |bs[i].ownFields| > 1 then 1 else 0) + Spawners(bs, i + 1)
  }

  /** Two lists with the same first `n` branches hold equally many spawners in slots `i..n`. */
  lemma {:induction false} SpawnersPrefix(a: seq<Branch>, b: seq<Branch>, i: nat, n: nat)
    requires i <= n <= |a| && n <= |b| && a[..n] == b[..n]
    ensures Spawners(a, i) - Spawners(a, n) == Spawners(b, i) - Spawners(b, n)
    decreases n - i
  {
    if i < n {
      assert a[i] == a[..n][i] == b[..n][i] == b[i];
      SpawnersPrefix(a, b, i + 1, n);
    }
  }

  /** `c` is the fresh child announced by event `e`. */
  predicate Born(e: Event, c: Branch) {
    e.BranchOff? && c.id == e.childId && c.pos == e.childPos &&
    c.ownFields == [c.pos] && c.age == 0 && c.mode == City
  }

  /** Every branch of `after` that is not in `before` is the child of one of `evs`. */
  ghost predicate ChildrenOf(before: seq<Branch>, after: seq<Branch>, evs: seq<Event>) {
    forall c :: c in multiset(after) - multiset(before) ==> exists t :: 0 <= t < |evs| && Born(evs[t], c)
  }

  /** Every id of `after` that is not in `before` is the child id of one of `evs`. */
  ghost predicate PromotedFrom(before: set<U32>, after: set<U32>, evs: seq<Event>) {
    before <= after &&
    forall id :: id in after && id !in before ==> exists t :: 0 <= t < |evs| && evs[t].BranchOff? && evs[t].childId == id
  }

  /**
   * What the branching walk from slot `i` guarantees: the grid keeps its
   * size and gains exactly the claimed cells, slots before `i` are untouched,
   * no branch is lost, every extra branch and every new main id comes from an
   * event, and at most one event per spawner ahead of the walk.
   */
  ghost predicate BranchingPost(g: Grid, bs: seq<Branch>, main: set<U32>, i: nat, r: Pass)
    requires Valid(g) && i <= |bs|
  {
    && Valid(r.grid) && r.grid.sizeX == g.sizeX && r.grid.sizeY == g.sizeY
    && |r.branches| == |bs| + |r.events| && r.branches[..i] == bs[..i]
    && multiset(bs) <= multiset(r.branches) && ChildrenOf(bs, r.branches, r.events)
    && (forall t :: 0 <= t < |r.events| ==> r.events[t].BranchOff?)
    && |r.events| <= Spawners(bs, i)
    && PromotedFrom(main, r.main, r.events)
    && ClaimsExactly(g, r.grid, r.events)
  }

  /**
   * What one visit of the branching walk does with branch `b` on grid `g`:
   * it spawns exactly when the population-scaled roll hits and
   * `try_branch_off` succeeds, and the promotion roll decides the child's rank.
   */
  function BranchOutcome(b: Branch, g: Grid, cfg: Config, population: nat, d: BranchDraws): (r: Option<Spawn>)
    requires Valid(g)
    ensures r.Some? <==>
      RollHits(cfg, b.mode, population, d.roll) && TryBranchOff(b, g, cfg, d.neighborPick, d.childId).Success?
    ensures r.Some? ==> r.value.child == TryBranchOff(b, g, cfg, d.neighborPick, d.childId).child
    ensures r.Some? ==> r.value.event == TryBranchOff(b, g, cfg, d.neighborPick, d.childId).event
    ensures r.Some? ==> (r.value.promoted <==> d.promoteRoll < cfg.propBranchOffToMain)
  {
    if RollHits(cfg, b.mode, population, d.roll) then
      match TryBranchOff(b, g, cfg, d.neighborPick, d.childId)
      case Success(_, child, _, event) => Some(Spawn(child, event, d.promoteRoll < cfg.propBranchOffToMain))
      case Failure(_) => None
    else None
  }

  /** The child as it is pushed: promoted to a main branch when the roll said so. */
  function Pushed(sp: Spawn, cfg: Config): Branch {
    if sp.promoted then Promote(sp.child, cfg) else sp.child
  }

  /** The grid the next visit sees: a spawned child's cell is marked. */
  function GridAfterSpawn(v: BranchVisit): Grid
    requires Valid(v.grid)
  {
    match v.spawn
    case Some(sp) => Mark(v.grid, sp.child.pos)
    case None => v.grid
  }

  /**
   * `vs` records the branching walk over `bs[j..]` from grid `g`, slot `j`
   * rolling `draws(j)`: each visit's outcome is that of its branch on the
   * grid the visits before it left, and `g'` is the grid left at the end.
   */
  ghost predicate BranchTrace(g: Grid, bs: seq<Branch>, j: nat, cfg: Config, population: nat,
                              draws: nat -> BranchDraws, vs: seq<BranchVisit>, g': Grid)
    decreases |vs|
  {
    if |vs| == 0 then g' == g
    else
      && j < |bs| && vs[0].grid == g && SpawnsAs(vs[0], bs[j], cfg, population, draws(j))
      && BranchTrace(GridAfterSpawn(vs[0]), bs, j + 1, cfg, population, draws, vs[1..], g')
  }

  /** Visit `v` made branch `b` spawn as `BranchOutcome` says on the grid it records, with draws `d`. */
  predicate SpawnsAs(v: BranchVisit, b: Branch, cfg: Config, population: nat, d: BranchDraws) {
    Valid(v.grid) && v.spawn == BranchOutcome(b, v.grid, cfg, population, d)
  }

  /** The event a visit adds: its spawn's, if it spawned. */
  function EventOf(v: BranchVisit): seq<Event> {
    match v.spawn
    case Some(sp) => [sp.event]
    case None => []
  }

  /** The branch a visit pushes: its child as pushed, if it spawned. */
  function ChildOf(v: BranchVisit, cfg: Config): seq<Branch> {
    match v.spawn
    case Some(sp) => [Pushed(sp, cfg)]
    case None => []
  }

  /** The main id a visit adds: its child's, if it spawned a promoted child. */
  function PromotedOf(v: BranchVisit): set<U32> {
    match v.spawn
    case Some(sp) => if sp.promoted then {sp.child.id} else {}
    case None => {}
  }

  /** The events of the visits that spawned, in visiting order. */
  function SpawnEvents(vs: seq<BranchVisit>): seq<Event> {
    if |vs| == 0 then [] else EventOf(vs[0]) + SpawnEvents(vs[1..])
  }

  /** The children pushed by the visits, in visiting order. */
  function Children(vs: seq<BranchVisit>, cfg: Config): seq<Branch> {
    if |vs| == 0 then [] else ChildOf(vs[0], cfg) + Children(vs[1..], cfg)
  }

  /** The ids of the children promoted to main branches. */
  function PromotedIds(vs: seq<BranchVisit>): set<U32> {
    if |vs| == 0 then {} else PromotedOf(vs[0]) + PromotedIds(vs[1..])
  }

  /**
   * The record of the branching walk from slot `i`: one visit for every slot
   * from `i` to the end of the final list, in slot order; the events, the new
   * branches and the new main ids are exactly those of the spawning visits;
   * and a walk without events changes nothing.
   */
  ghost predicate BranchingRecord(g: Grid, bs: seq<Branch>, main: set<U32>, i: nat, cfg: Config, population: nat,
                                  draws: nat -> BranchDraws, r: Pass)
  {
    && i + |r.visits| == |r.branches|
    && BranchTrace(g, r.branches, i, cfg, population, draws, r.visits, r.grid)
    && r.events == SpawnEvents(r.visits)
    && multiset(r.branches) == multiset(bs) + multiset(Children(r.visits, cfg))
    && r.main == main + PromotedIds(r.visits)
    && (|r.events| == 0 ==> r.branches == bs && r.main == main && r.grid == g)
    && (Quiet(bs, i, cfg, population, draws) ==> |r.events| == 0)
  }

  /**
   * The `while i < branch_list.len()` loop of `process_branching` from index
   * `i`, with `draws(i)` for the branch it takes out and `population` the
   * list length when the pass began. A spawning parent goes back into slot
   * `i` and its child lands near the end of the list, where the walk reaches
   * it later in the same pass.
   */
  function BranchingLoop(g: Grid, bs: seq<Branch>, main: set<U32>, i: nat, cfg: Config, population: nat,
                         draws: nat -> BranchDraws): (r: Pass)
    requires Valid(g) && i <= |bs|
    ensures BranchingPost(g, bs, main, i, r)
    ensures BranchingRecord(g, bs, main, i, cfg, population, draws, r)
    decreases Spawners(bs, i), |bs| - i, 1
  {
    if i >= |bs| then
      Pass(g, bs, main, [], [])
    else
      var b, d := bs[i], draws(i);
      if RollHits(cfg, b.mode, population, d.roll) then
        match TryBranchOff(b, g, cfg, d.neighborPick, d.childId)
        case Success(_, child, _, event) =>
          assert BranchOutcome(b, g, cfg, population, d) == Some(Spawn(child, event, d.promoteRoll < cfg.propBranchOffToMain));
          BranchingSpawned(g, bs, main, i, cfg, population, draws, child, event)
        case Failure(_) => BranchingKept(g, bs, main, i, cfg, population, draws)
      else BranchingKept(g, bs, main, i, cfg, population, draws)
  }

  /** One iteration of `BranchingLoop` that leaves branch `i` where it was. */
  function BranchingKept(g: Grid, bs: seq<Branch>, main: set<U32>, i: nat, cfg: Config, population: nat,
                         draws: nat -> BranchDraws): (r: Pass)
    requires Valid(g) && i < |bs|
    requires BranchOutcome(bs[i], g, cfg, population, draws(i)).None?
    ensures BranchingPost(g, bs, main, i, r)
    ensures BranchingRecord(g, bs, main, i, cfg, population, draws, r)
    decreases Spawners(bs, i), |bs| - i, 0
  {
    SwapRemovePushSwap(bs, i, bs[i]);
    assert bs[i := bs[i]] == bs;
    var r := BranchingLoop(g, bs, main, i + 1, cfg, population, draws);
    KeptStep(g, bs, main, i, cfg, population, draws, r);
    r.(visits := [BranchVisit(g, None)] + r.visits)
  }

  /** Everything a visit without a spawn in `BranchingLoop` guarantees, from what the rest of the walk guarantees. */
  lemma {:induction false} KeptStep(g: Grid, bs: seq<Branch>, main: set<U32>, i: nat, cfg: Config, population: nat,
                                    draws: nat -> BranchDraws, r: Pass)
    requires Valid(g) && i < |bs| && BranchOutcome(bs[i], g, cfg, population, draws(i)).None?
    requires BranchingPost(g, bs, main, i + 1, r)
    requires BranchingRecord(g, bs, main, i + 1, cfg, population, draws, r)
    ensures BranchingPost(g, bs, main, i, r.(visits := [BranchVisit(g, None)] + r.visits))
    ensures BranchingRecord(g, bs, main, i, cfg, population, draws, r.(visits := [BranchVisit(g, None)] + r.visits))
  {
    var r' := r.(visits := [BranchVisit(g, None)] + r.visits);
    KeptPost(g, bs, main, i, r, r');
    KeptRecord(g, bs, main, i, cfg, population, draws, r);
  }

  /** The walk's guarantees over slots `i + 1..` extend to slot `i` when that visit spawned nothing. */
  lemma {:induction false} KeptPost(g: Grid, bs: seq<Branch>, main: set<U32>, i: nat, r: Pass, r': Pass)
    requires Valid(g) && i < |bs| && BranchingPost(g, bs, main, i + 1, r)
    requires r'.grid == r.grid && r'.branches == r.branches && r'.main == r.main && r'.events == r.events
    ensures BranchingPost(g, bs, main, i, r')
    ensures i < |r.branches| && r.branches[i] == bs[i]
  {
    assert r.branches[..i] == r.branches[..i + 1][..i];
    assert r.branches[i] == r.branches[..i + 1][i];
    assert Spawners(bs, i + 1) <= Spawners(bs, i);
  }

  /**
   * One iteration of `BranchingLoop` in which branch `i` spawned `child` with
   * `event`; the promotion roll of `draws(i)` decides whether the child
   * becomes a main branch before it is pushed.
   */
  function BranchingSpawned(g: Grid, bs: seq<Branch>, main: set<U32>, i: nat, cfg: Config, population: nat,
                            draws: nat -> BranchDraws, child: Branch, event: Event): (r: Pass)
    requires Valid(g) && i < |bs| && |bs[i].ownFields| > 1
    requires Born(event, child) && Free(g, child.pos)
    requires BranchOutcome(bs[i], g, cfg, population, draws(i)) ==
      Some(Spawn(child, event, draws(i).promoteRoll < cfg.propBranchOffToMain))
    ensures BranchingPost(g, bs, main, i, r)
    ensures BranchingRecord(g, bs, main, i, cfg, population, draws, r)
    decreases Spawners(bs, i), |bs| - i, 0
  {
    var promoted := draws(i).promoteRoll < cfg.propBranchOffToMain;
    var child' := if promoted then Promote(child, cfg) else child;
    var main' := if promoted then main + {child.id} else main;
    var bs' := Swap(SwapRemove(bs, i) + [child', bs[i]], i, |bs|);
    SwapRemoveReinsert(bs, i, child');
    SpawnedList(bs, i, child', bs');
    var r := BranchingLoop(Mark(g, child.pos), bs', main', i + 1, cfg, population, draws);
    var sp := Spawn(child, event, promoted);
    SpawnedStep(g, bs, main, i, cfg, population, draws, sp, bs', main', r);
    Pass(r.grid, r.branches, r.main, [event] + r.events, [BranchVisit(g, Some(sp))] + r.visits)
  }

  /** Everything one spawn in `BranchingLoop` guarantees, from what the rest of the walk guarantees. */
  lemma {:induction false} SpawnedStep(g: Grid, bs: seq<Branch>, main: set<U32>, i: nat, cfg: Config, population: nat,
                                       draws: nat -> BranchDraws, sp: Spawn, bs': seq<Branch>, main': set<U32>,
                                       r: Pass)
    requires Valid(g) && i < |bs| && BranchOutcome(bs[i], g, cfg, population, draws(i)) == Some(sp)
    requires Born(sp.event, sp.child) && Free(g, sp.child.pos)
    requires main' == if sp.promoted then main + {sp.child.id} else main
    requires |bs'| == |bs| + 1 && bs'[..i + 1] == bs[..i + 1]
    requires multiset(bs') == multiset(bs) + multiset{Pushed(sp, cfg)}
    requires Spawners(bs', i + 1) + 1 == Spawners(bs, i)
    requires BranchingPost(Mark(g, sp.child.pos), bs', main', i + 1, r)
    requires BranchingRecord(Mark(g, sp.child.pos), bs', main', i + 1, cfg, population, draws, r)
    ensures BranchingPost(g, bs, main, i,
      Pass(r.grid, r.branches, r.main, [sp.event] + r.events, [BranchVisit(g, Some(sp))] + r.visits))
    ensures BranchingRecord(g, bs, main, i, cfg, population, draws,
      Pass(r.grid, r.branches, r.main, [sp.event] + r.events, [BranchVisit(g, Some(sp))] + r.visits))
  {
    var child := Pushed(sp, cfg);
    assert Born(sp.event, child);
    SpawnedBookkeeping(g, bs, main, i, child, sp.event, bs', main', r);
    assert r.branches[i] == r.branches[..i + 1][i] == bs'[..i + 1][i] == bs[i];
    var v := BranchVisit(g, Some(sp));
    assert ChildOf(v, cfg) == [child];
    assert main' == main + PromotedOf(v);
    assert GridAfterSpawn(v) == Mark(g, sp.child.pos);
    BranchTraceCons(g, r.branches, i, cfg, population, draws, v, r.visits, r.grid);
    SpawnedTally(sp, v, cfg, bs, bs', main, main', r);
  }

  /** The record of a walk whose visit to slot `i` spawned nothing. */
  lemma {:induction false} KeptRecord(g: Grid, bs: seq<Branch>, main: set<U32>, i: nat, cfg: Config, population: nat,
                                      draws: nat -> BranchDraws, r: Pass)
    requires Valid(g) && i < |bs| && BranchOutcome(bs[i], g, cfg, population, draws(i)).None?
    requires i < |r.branches| && r.branches[i] == bs[i]
    requires BranchingRecord(g, bs, main, i + 1, cfg, population, draws, r)
    ensures BranchingRecord(g, bs, main, i, cfg, population, draws, r.(visits := [BranchVisit(g, None)] + r.visits))
  {
    var v := BranchVisit(g, None);
    BranchTraceCons(g, r.branches, i, cfg, population, draws, v, r.visits, r.grid);
    BranchRecordCons(v, r.visits, cfg);
    assert EventOf(v) == [] && ChildOf(v, cfg) == [] && PromotedOf(v) == {};
  }

  /** The events, branches and main ids of a walk whose visit to slot `i` spawned `sp`. */
  lemma {:induction false} SpawnedTally(sp: Spawn, v: BranchVisit, cfg: Config, bs: seq<Branch>, bs': seq<Branch>,
                                        main: set<U32>, main': set<U32>, r: Pass)
    requires v.spawn == Some(sp)
    requires main' == main + PromotedOf(v) && multiset(bs') == multiset(bs) + multiset(ChildOf(v, cfg))
    requires r.events == SpawnEvents(r.visits)
    requires multiset(r.branches) == multiset(bs') + multiset(Children(r.visits, cfg))
    requires r.main == main' + PromotedIds(r.visits)
    ensures [sp.event] + r.events == SpawnEvents([v] + r.visits)
    ensures multiset(r.branches) == multiset(bs) + multiset(Children([v] + r.visits, cfg))
    ensures r.main == main + PromotedIds([v] + r.visits)
  {
    BranchRecordCons(v, r.visits, cfg);
    assert EventOf(v) == [sp.event];
    assert multiset(ChildOf(v, cfg) + Children(r.visits, cfg)) == multiset(ChildOf(v, cfg)) + multiset(Children(r.visits, cfg));
  }

  /** A visit made on `g` to slot `j` with `draws(j)`, in front of the record of the rest of the walk. */
  lemma {:induction false} BranchTraceCons(g: Grid, bs: seq<Branch>, j: nat, cfg: Config, population: nat,
                                           draws: nat -> BranchDraws, v: BranchVisit, vs: seq<BranchVisit>, g': Grid)
    requires Valid(g) && j < |bs| && v.grid == g && v.spawn == BranchOutcome(bs[j], g, cfg, population, draws(j))
    requires BranchTrace(GridAfterSpawn(v), bs, j + 1, cfg, population, draws, vs, g')
    ensures BranchTrace(g, bs, j, cfg, population, draws, [v] + vs, g')
  {
    assert ([v] + vs)[0] == v && ([v] + vs)[1..] == vs;
  }

  /** The events, children and promotions of a record with one more visit in front. */
  lemma {:induction false} BranchRecordCons(v: BranchVisit, vs: seq<BranchVisit>, cfg: Config)
    ensures SpawnEvents([v] + vs) == EventOf(v) + SpawnEvents(vs)
    ensures Children([v] + vs, cfg) == ChildOf(v, cfg) + Children(vs, cfg)
    ensures PromotedIds([v] + vs) == PromotedOf(v) + PromotedIds(vs)
  {
    assert ([v] + vs)[0] == v && ([v] + vs)[1..] == vs;
  }

  /** The bookkeeping of one spawn in `BranchingLoop`. */
  lemma SpawnedBookkeeping(g: Grid, bs: seq<Branch>, main: set<U32>, i: nat, child: Branch, event: Event,
                           bs': seq<Branch>, main': set<U32>, r: Pass)
    requires Valid(g) && i < |bs| && Born(event, child) && Free(g, child.pos)
    requires |bs'| == |bs| + 1 && bs'[..i + 1] == bs[..i + 1]
    requires multiset(bs') == multiset(bs) + multiset{child}
    requires main' == main || main' == main + {event.childId}
    requires Valid(r.grid) && |r.branches| == |bs'| + |r.events| && r.branches[..i + 1] == bs'[..i + 1]
    requires multiset(bs') <= multiset(r.branches) && ChildrenOf(bs', r.branches, r.events)
    requires forall t :: 0 <= t < |r.events| ==> r.events[t].BranchOff?
    requires PromotedFrom(main', r.main, r.events)
    requires ClaimsExactly(Mark(g, child.pos), r.grid, r.events)
    ensures |r.branches| == |bs| + |[event] + r.events| && r.branches[..i] == bs[..i]
    ensures multiset(bs) <= multiset(r.branches) && ChildrenOf(bs, r.branches, [event] + r.events)
    ensures forall t :: 0 <= t < |[event] + r.events| ==> ([event] + r.events)[t].BranchOff?
    ensures PromotedFrom(main, r.main, [event] + r.events)
    ensures ClaimsExactly(g, r.grid, [event] + r.events)
  {
    assert r.branches[..i] == r.branches[..i + 1][..i];
    assert bs'[..i + 1][..i] == bs[..i];
    var evs := [event] + r.events;
    ChildrenShift(bs, bs', r.branches, child, event, r.events);
    PromotedShift(main, main', r.main, event, r.events);
    assert Target(event) == child.pos;
    ClaimsCompose(g, event, r.grid, r.events);
  }

  /** A child pushed before the walk went on is accounted for by its own event. */
  lemma ChildrenShift(bs: seq<Branch>, bs': seq<Branch>, out: seq<Branch>, child: Branch, event: Event, evs: seq<Event>)
    requires Born(event, child) && multiset(bs') == multiset(bs) + multiset{child}
    requires multiset(bs') <= multiset(out) && ChildrenOf(bs', out, evs)
    ensures multiset(bs) <= multiset(out) && ChildrenOf(bs, out, [event] + evs)
  {
    var all := [event] + evs;
    forall c | c in multiset(out) - multiset(bs)
      ensures exists t :: 0 <= t < |all| && Born(all[t], c)
    {
      if c in multiset(out) - multiset(bs') {
        var t :| 0 <= t < |evs| && Born(evs[t], c);
        assert all[t + 1] == evs[t];
      } else {
        assert c == child;
        assert all[0] == event;
      }
    }
  }

  /** A promotion recorded before the walk went on is accounted for by the spawn's event. */
  lemma PromotedShift(main: set<U32>, main': set<U32>, out: set<U32>, event: Event, evs: seq<Event>)
    requires event.BranchOff? && (main' == main || main' == main + {event.childId})
    requires PromotedFrom(main', out, evs)
    ensures PromotedFrom(main, out, [event] + evs)
  {
    var all := [event] + evs;
    forall id | id in out && id !in main
      ensures exists t :: 0 <= t < |all| && all[t].BranchOff? && all[t].childId == id
    {
      if id in main' {
        assert all[0] == event;
      } else {
        var t :| 0 <= t < |evs| && evs[t].BranchOff? && evs[t].childId == id;
        assert all[t + 1] == evs[t];
      }
    }
  }

  /** The list after a spawn: same prefix, one child more, and one spawner fewer ahead of the walk. */
  lemma SpawnedList(bs: seq<Branch>, i: nat, child: Branch, bs': seq<Branch>)
    requires i < |bs| && |bs[i].ownFields| > 1 && |child.ownFields| == 1
    requires bs' == if i < |bs| - 1 then bs[..|bs| - 1] + [child, bs[|bs| - 1]] else bs + [child]
    ensures |bs'| == |bs| + 1 && bs'[..i + 1] == bs[..i + 1]
    ensures multiset(bs') == multiset(bs) + multiset{child}
    ensures Spawners(bs', i + 1) + 1 == Spawners(bs, i)
  {
    var n := |bs|;
    if i < n - 1 {
      var last := bs[n - 1];
      assert bs == bs[..n - 1] + [last];
      assert multiset(bs') == multiset(bs[..n - 1]) + multiset{child, last};
      assert bs'[..i + 1] == bs[..n - 1][..i + 1];
      SpawnedCount(bs[..n - 1], i, child, last);
    } else {
      assert bs'[i + 1] == child;
      assert Spawners(bs', i + 2) == 0;
    }
  }

  /** A child slipped in before the last element adds no spawner after slot `i`. */
  lemma {:induction false} SpawnedCount(pre: seq<Branch>, i: nat, child: Branch, last: Branch)
    requires i < |pre| && |pre[i].ownFields| > 1 && |child.ownFields| == 1
    ensures Spawners(pre + [child, last], i + 1) + 1 == Spawners(pre + [last], i)
  {
    var a, b, n := pre + [child, last], pre + [last], |pre|;
    var l := if |last.ownFields| > 1 then 1 else 0;
    assert a[n] == child && a[n + 1] == last && b[n] == last;
    assert Spawners(a, n + 2) == 0 && Spawners(b, n + 1) == 0;
    assert Spawners(a, n + 1) == l;
    assert Spawners(a, n) == l;
    assert Spawners(b, n) == l;
    assert a[..n] == pre == b[..n];
    SpawnersPrefix(a, b, i + 1, n);
    assert b[i] == pre[i];
    assert Spawners(b, i) == 1 + Spawners(b, i + 1);
  }

  /**
   * `CityGrowScene::process_branching`: each branch of the list, including
   * children spawned earlier in the same pass, rolls the population-scaled
   * chance and may spawn a City child on a free cell next to its last visited
   * cell; a spawned child is promoted to a main branch on the promotion roll.
   * Parents are never removed or changed, and only branches that had moved
   * before the pass can spawn.
   */
  function ProcessBranching(g: Grid, bs: seq<Branch>, main: set<U32>, cfg: Config, draws: nat -> BranchDraws): (r: Pass)
    requires Valid(g)
    ensures Valid(r.grid) && r.grid.sizeX == g.sizeX && r.grid.sizeY == g.sizeY
    ensures |r.branches| == |bs| + |r.events|
    ensures multiset(bs) <= multiset(r.branches) && ChildrenOf(bs, r.branches, r.events)
    ensures forall t :: 0 <= t < |r.events| ==> r.events[t].BranchOff?
    ensures |r.events| <= Spawners(bs, 0)
    ensures PromotedFrom(main, r.main, r.events)
    ensures ClaimsExactly(g, r.grid, r.events)
    ensures |r.visits| == |r.branches| && BranchTrace(g, r.branches, 0, cfg, |bs|, draws, r.visits, r.grid)
    ensures r.events == SpawnEvents(r.visits)
    ensures multiset(r.branches) == multiset(bs) + multiset(Children(r.visits, cfg))
    ensures r.main == main + PromotedIds(r.visits)
    ensures |r.events| == 0 ==> r.branches == bs && r.main == main && r.grid == g
    ensures Quiet(bs, 0, cfg, |bs|, draws) ==> |r.events| == 0
  {
    assert bs[0..] == bs;
    BranchingLoop(g, bs, main, 0, cfg, |bs|, draws)
  }

  /**
   * Visit `j` of a branching record is the visit to slot `i + j` with draws
   * `draws(i + j)`, on the grid the visits before it left; it spawned exactly
   * as `BranchOutcome` says for that branch on that grid.
   */
  lemma {:induction false} BranchTraceAt(g: Grid, bs: seq<Branch>, i: nat, cfg: Config, population: nat,
                                         draws: nat -> BranchDraws, vs: seq<BranchVisit>, g': Grid, j: nat)
    requires BranchTrace(g, bs, i, cfg, population, draws, vs, g') && j < |vs|
    ensures i + j < |bs| && SpawnsAs(vs[j], bs[i + j], cfg, population, draws(i + j))
    decreases j
  {
    if j > 0 {
      var rest, g1 := vs[1..], GridAfterSpawn(vs[0]);
      assert BranchTrace(g1, bs, i + 1, cfg, population, draws, rest, g');
      BranchTraceAt(g1, bs, i + 1, cfg, population, draws, rest, g', j - 1);
      assert rest[j - 1] == vs[j] && i + 1 + (j - 1) == i + j;
    }
  }

  /** No roll of `bs[i..]` hits, slot `j` rolling `draws(j)`. */
  predicate Quiet(bs: seq<Branch>, i: nat, cfg: Config, population: nat, draws: nat -> BranchDraws)
    decreases |bs| - i
  {
    i >= |bs| || (!RollHits(cfg, bs[i].mode, population, draws(i).roll) && Quiet(bs, i + 1, cfg, population, draws))
  }

  /** The walk from slot `i` is quiet when no roll of `bs[i..]` hits. */
  lemma {:induction false} QuietFromAll(bs: seq<Branch>, i: nat, cfg: Config, population: nat, draws: nat -> BranchDraws)
    requires forall j :: i <= j < |bs| ==> !RollHits(cfg, bs[j].mode, population, draws(j).roll)
    ensures Quiet(bs, i, cfg, population, draws)
    decreases |bs| - i
  {
    if i < |bs| {
      QuietFromAll(bs, i + 1, cfg, population, draws);
    }
  }

  /**
   * When no branch's population-scaled roll hits, the branching pass emits
   * no event and leaves the list, the main ids and the grid as they were.
   */
  lemma {:induction false} NoHitsNoGrowth(g: Grid, bs: seq<Branch>, main: set<U32>, cfg: Config, draws: nat -> BranchDraws)
    requires Valid(g)
    requires forall j :: 0 <= j < |bs| ==> !RollHits(cfg, bs[j].mode, |bs|, draws(j).roll)
    ensures var r := ProcessBranching(g, bs, main, cfg, draws);
      r.events == [] && r.branches == bs && r.main == main && r.grid == g
  {
    QuietFromAll(bs, 0, cfg, |bs|, draws);
  }
}
