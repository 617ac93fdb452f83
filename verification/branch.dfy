/**
 * One growing branch (`Branch` in src/city_grow.rs) and its state machine:
 * mode transitions, the Land direction, bounded backtracking, next-move choice,
 * the per-tick step and branching off a child. Every random draw of the source
 * is an explicit argument: probability rolls are reals compared against the
 * configured chance, index draws are reduced into the list they index.
 */
module Branches {
  import opened Ints
  import opened Wrappers
  import opened Positions
  import opened Grids
  import opened Configs

  /** `Hsla`: hue, saturation, lightness and alpha as `u8` values. */
  datatype Hsla = Hsla(h: U8, s: U8, l: U8, a: U8)

  datatype Branch = Branch(
    id: U32,
    pos: Pos,
    mode: BranchMode,
    expandDirection: Pos,
    ownFields: seq<Pos>,
    age: U16,
    lifeTime: U16,
    color: Hsla)

  /** What a tick reports to the painter. */
  datatype Event =
    | BranchOff(childId: U32, parentPos: Pos, childPos: Pos, parentMode: BranchMode, childColor: Hsla)
    | Move(branchId: U32, from: Pos, to: Pos, mode: BranchMode, color: Hsla, ownFieldsTip: Pos)

  /** The branch an event is drawn for: the mover, or the newly spawned child. */
  function EventId(e: Event): U32 {
    match e
    case BranchOff(childId, _, _, _, _) => childId
    case Move(branchId, _, _, _, _, _) => branchId
  }

  /** The draws one `step_branch` call may take from the random generator. */
  datatype StepDraws = StepDraws(
    transitionRoll: real,  // `rng.random::<f32>()` in `transition_modes`
    directionPick: nat,    // index into the free neighbours in `expand_direction`
    ageRoll: nat,          // `random_range(0..=age)` on Land -> City
    ratioHit: bool,        // `random_ratio` in `find_next_move`
    movePick: nat)         // `choose` among the free neighbours

  /** A uniform choice from a non-empty list, driven by the draw `k`. */
  function Pick(s: seq<Pos>, k: nat): (r: Pos)
    requires |s| > 0
    ensures r in s
    ensures k < |s| ==> r == s[k]
  {
    s[k % |s|]
  }

  function Last(s: seq<Pos>): Pos
    requires |s| > 0
  {
    s[|s| - 1]
  }

  /** `Branch::new`: a fresh City branch at `pos` with full life time and the default palette. */
  function NewBranch(pos: Pos, cfg: Config, hue: U8, id: U32): (b: Branch)
    ensures b.pos == pos && b.ownFields == [pos] && b.mode == City && b.age == 0
    ensures b.id == id && b.lifeTime == cfg.lifeTime
    ensures b.color == Hsla(hue, cfg.saturationMain, cfg.lightnessDefault, 255)
    ensures b.expandDirection == Pos(0, 0)
  {
    Branch(id, pos, City, Pos(0, 0), [pos], 0, cfg.lifeTime,
           Hsla(hue, cfg.saturationMain, cfg.lightnessDefault, 255))
  }

  /**
   * `Branch::expand_direction`: the offset to a randomly chosen free neighbour,
   * kept only if `is_position_valid` accepts the OFFSET itself. Offsets with a
   * negative component (West, North) never pass that check.
   */
  function ExpandDirection(g: Grid, pos: Pos, pick: nat): (r: Option<Pos>)
    requires Valid(g)
    ensures |FreeNeighbors(g, pos)| == 0 ==> r.None?
    ensures r.Some? ==> (r.value == East || r.value == South)
    ensures r.Some? ==> TryAdd(pos, r.value) == Some(Pick(FreeNeighbors(g, pos), pick))
    ensures |FreeNeighbors(g, pos)| > 0 && IsPositionValid(g, pos) ==>
      (r.Some? <==> Rank(pos, Pick(FreeNeighbors(g, pos), pick)) in {0, 2})
  {
    var ns := FreeNeighbors(g, pos);
    if |ns| == 0 then None
    else
      var target := Pick(ns, pick);
      match TrySub(target, pos)
      case None => None
      case Some(offset) => if IsPositionValid(g, offset) then Some(offset) else None
  }

  /**
   * `Branch::transition_modes`: City turns Land when the roll is under
   * `prop_city_to_land` (picking a new direction, or keeping the old one when
   * none is accepted); Land turns City when the roll is under
   * `prop_land_to_city`, re-rolling the age to a value in `0..=age`.
   */
  function TransitionModes(b: Branch, g: Grid, cfg: Config, d: StepDraws): (r: Branch)
    requires Valid(g)
    ensures r.id == b.id && r.pos == b.pos && r.ownFields == b.ownFields
    ensures r.lifeTime == b.lifeTime && r.color == b.color
    ensures b.mode == City ==> (r.mode == Land <==> d.transitionRoll < cfg.propCityToLand) && r.age == b.age
    ensures b.mode == Land ==> (r.mode == City <==> d.transitionRoll < cfg.propLandToCity)
    ensures b.mode == Land ==> r.expandDirection == b.expandDirection && r.age <= b.age
    ensures r.mode == b.mode ==> r == b
    ensures b.mode == City && r.mode == Land ==>
      r.expandDirection == b.expandDirection || r.expandDirection == East || r.expandDirection == South
    ensures r.expandDirection != b.expandDirection ==>
      TryAdd(b.pos, r.expandDirection).Some? && TryAdd(b.pos, r.expandDirection).value in FreeNeighbors(g, b.pos)
  {
    if b.mode == City && d.transitionRoll < cfg.propCityToLand then
      b.(expandDirection := ExpandDirection(g, b.pos, d.directionPick).GetOr(b.expandDirection), mode := Land)
    else if b.mode == Land && d.transitionRoll < cfg.propLandToCity then
      b.(mode := City, age := d.ageRoll % (b.age + 1))
    else b
  }

  /** First index of the backtracking window: the last `min(max_steps_back, len)` visited cells. */
  function SearchStart(b: Branch, cfg: Config): nat {
    |b.ownFields| - Min(cfg.maxStepsBack, |b.ownFields|)
  }

  /**
   * The `rev().take(n).find(pred)` search of `set_next_position`: the most
   * recent index in `lo..hi` whose cell satisfies `pred`.
   */
  function FindLast(fields: seq<Pos>, lo: nat, hi: nat, pred: Pos -> bool): (r: Option<nat>)
    requires lo <= hi <= |fields|
    ensures r.Some? ==> lo <= r.value < hi && pred(fields[r.value])
    ensures r.Some? ==> forall k :: r.value < k < hi ==> !pred(fields[k])
    ensures r.None? <==> forall k :: lo <= k < hi ==> !pred(fields[k])
    decreases hi - lo
  {
    if hi == lo then None
    else if pred(fields[hi - 1]) then Some(hi - 1)
    else FindLast(fields, lo, hi - 1, pred)
  }

  /**
   * `Branch::set_next_position`: stay when the current cell has a free
   * neighbour; otherwise jump back to the most recent cell of the window that
   * has one, or report death.
   */
  function SetNextPosition(b: Branch, g: Grid, cfg: Config): (r: Option<Branch>)
    requires Valid(g)
    ensures HasFreeNeighbor(g, b.pos) ==> r == Some(b)
    ensures r.Some? ==> r.value == b.(pos := r.value.pos) && HasFreeNeighbor(g, r.value.pos)
    ensures r.None? <==> (!HasFreeNeighbor(g, b.pos) &&
      forall k :: SearchStart(b, cfg) <= k < |b.ownFields| ==> !HasFreeNeighbor(g, b.ownFields[k]))
    ensures r.Some? && !HasFreeNeighbor(g, b.pos) ==>
      exists j :: SearchStart(b, cfg) <= j < |b.ownFields| && b.ownFields[j] == r.value.pos &&
        forall k :: j < k < |b.ownFields| ==> !HasFreeNeighbor(g, b.ownFields[k])
  {
    if !HasFreeNeighbor(g, b.pos) then
      match FindLast(b.ownFields, SearchStart(b, cfg), |b.ownFields|, p => HasFreeNeighbor(g, p))
      case Some(j) => Some(b.(pos := b.ownFields[j]))
      case None => None
    else Some(b)
  }

  /** `pos + expand_direction`, kept only when inside the grid. */
  function Preferred(g: Grid, b: Branch): (r: Option<Pos>)
    requires Valid(g)
    ensures r.Some? ==> IsPositionValid(g, r.value) && TryAdd(b.pos, b.expandDirection) == r
    ensures r.Some? <==> TryAdd(b.pos, b.expandDirection).Some? && IsPositionValid(g, TryAdd(b.pos, b.expandDirection).value)
  {
    match TryAdd(b.pos, b.expandDirection)
    case None => None
    case Some(p) => if IsPositionValid(g, p) then Some(p) else None
  }

  /** A Land branch whose straight-ahead cell is free: the case that rolls `random_ratio`. */
  predicate GoesStraight(g: Grid, b: Branch)
    requires Valid(g)
  {
    b.mode == Land && Preferred(g, b).Some? && Preferred(g, b).value in FreeNeighbors(g, b.pos)
  }

  /**
   * `Branch::find_next_move`: City picks any free neighbour. Land continues
   * straight when that cell is free, drifting to a random neighbour when the
   * ratio test hits; otherwise it picks a random neighbour and adopts the
   * offset it took as its new direction.
   */
  function FindNextMove(b: Branch, g: Grid, cfg: Config, d: StepDraws): (r: (Branch, Pos))
    requires Valid(g) && HasFreeNeighbor(g, b.pos)
    requires GoesStraight(g, b) ==> RatioDefined(cfg.landDirectionalBias, |FreeNeighbors(g, b.pos)|)
    ensures r.1 in FreeNeighbors(g, b.pos)
    ensures r.0 == b.(expandDirection := r.0.expandDirection)
    ensures b.mode == City || GoesStraight(g, b) ==> r.0 == b
    ensures GoesStraight(g, b) && !d.ratioHit ==> r.1 == Preferred(g, b).value
    ensures b.mode == Land && !GoesStraight(g, b) ==> TryAdd(b.pos, r.0.expandDirection) == Some(r.1)
  {
    var ns := FreeNeighbors(g, b.pos);
    if b.mode == Land then
      if GoesStraight(g, b) then
        if d.ratioHit then (b, Pick(ns, d.movePick)) else (b, Preferred(g, b).value)
      else
        var target := Pick(ns, d.movePick);
        TrySubUndoesTryAdd(target, b.pos);
        (b.(expandDirection := TrySub(target, b.pos).GetOr(b.expandDirection)), target)
    else (b, Pick(ns, d.movePick))
  }

  /** What a successful step returns: the advanced branch, where it moved from and to, and the old tip. */
  datatype Step = Step(branch: Branch, from: Pos, to: Pos, tip: Pos)

  /** The branch is in its last `life_time_branch` ticks and is forced into City mode. */
  predicate LateLife(b: Branch, cfg: Config) {
    b.age < b.lifeTime && b.lifeTime - b.age < cfg.lifeTimeBranch
  }

  /**
   * The first stage of `step_branch`: a branch in late life is forced into
   * City mode, any other branch may switch mode.
   */
  function ResolveMode(b: Branch, g: Grid, cfg: Config, d: StepDraws): (r: Branch)
    requires Valid(g)
    ensures r == b.(mode := r.mode, expandDirection := r.expandDirection, age := r.age)
    ensures LateLife(b, cfg) ==> r == b.(mode := City)
    ensures r.age <= b.age
    ensures r.age != b.age ==> b.mode == Land && r.mode == City && !LateLife(b, cfg) && d.transitionRoll < cfg.propLandToCity
  {
    if b.lifeTime - b.age < cfg.lifeTimeBranch then b.(mode := City) else TransitionModes(b, g, cfg, d)
  }

  /**
   * The commit stage of `step_branch`, for a branch whose (resolved) position
   * has a free neighbour: choose the move, append the destination to the
   * visited cells and age the branch by one tick.
   */
  function Advance(b: Branch, g: Grid, cfg: Config, d: StepDraws): (r: Step)
    requires Valid(g) && BiasSound(cfg) && HasFreeNeighbor(g, b.pos) && b.age < b.lifeTime
    ensures r.from == b.pos && r.to in FreeNeighbors(g, b.pos) && Free(g, r.to)
    ensures r.branch == b.(pos := r.to, ownFields := b.ownFields + [r.to], age := b.age + 1,
                           expandDirection := r.branch.expandDirection)
    ensures |b.ownFields| > 0 ==> r.tip == Last(b.ownFields)
    ensures |b.ownFields| == 0 ==> r.tip == b.pos
  {
    var n := |FreeNeighbors(g, b.pos)|;
    assert 1 <= n <= 4 ==> RatioDefined(cfg.landDirectionalBias, n);
    var (b3, next) := FindNextMove(b, g, cfg, d);
    var tip := if |b3.ownFields| > 0 then Last(b3.ownFields) else b3.pos;
    Step(b3.(pos := next, ownFields := b3.ownFields + [next], age := b3.age + 1), b3.pos, next, tip)
  }

  /**
   * `Branch::step_branch`: death when the age reaches the life time, then
   * late-life forcing to City or a mode transition, position resolution with
   * backtracking, next-move selection, and the commit that appends the
   * destination and ages the branch by one tick.
   */
  function StepBranch(b: Branch, g: Grid, cfg: Config, d: StepDraws): (r: Option<Step>)
    requires Valid(g) && BiasSound(cfg)
    ensures b.age >= b.lifeTime ==> r.None?
    ensures r.None? <==> (b.age >= b.lifeTime ||
      (!HasFreeNeighbor(g, b.pos) &&
       forall k :: SearchStart(b, cfg) <= k < |b.ownFields| ==> !HasFreeNeighbor(g, b.ownFields[k])))
    ensures r.Some? ==> r.value.to in FreeNeighbors(g, r.value.from) && Free(g, r.value.to)
    ensures r.Some? ==> r.value.from == b.pos || r.value.from in b.ownFields[SearchStart(b, cfg)..]
    ensures r.Some? ==> r.value.branch.pos == r.value.to && r.value.branch.ownFields == b.ownFields + [r.value.to]
    ensures r.Some? ==> r.value.branch.id == b.id && r.value.branch.lifeTime == b.lifeTime && r.value.branch.color == b.color
    ensures r.Some? && |b.ownFields| > 0 ==> r.value.tip == Last(b.ownFields)
    ensures r.Some? && |b.ownFields| == 0 ==> r.value.tip == r.value.from
    ensures r.Some? && LateLife(b, cfg) ==> r.value.branch.mode == City && r.value.branch.age == b.age + 1
    ensures r.Some? ==> r.value.branch.age <= b.age + 1
    ensures r.Some? && r.value.branch.age != b.age + 1 ==>
      b.mode == Land && r.value.branch.mode == City && !LateLife(b, cfg) && d.transitionRoll < cfg.propLandToCity
  {
    if b.age >= b.lifeTime then None
    else
      var b1 := ResolveMode(b, g, cfg, d);
      assert SearchStart(b1, cfg) == SearchStart(b, cfg);
      match SetNextPosition(b1, g, cfg)
      case None => None
      case Some(b2) => Some(Advance(b2, g, cfg, d))
  }

  /** The outcome of `try_branch_off`. */
  datatype BranchOffResult =
    | Success(parent: Branch, child: Branch, pos: Pos, event: Event)
    | Failure(branch: Branch)

  /**
   * `Branch::try_branch_off`: a branch that has moved at least once spawns a
   * City child with the short life time at a free neighbour of its LAST
   * visited cell (not of its current position), in the parent's hue.
   */
  function TryBranchOff(b: Branch, g: Grid, cfg: Config, pick: nat, childId: U32): (r: BranchOffResult)
    requires Valid(g)
    ensures r.Success? <==> |b.ownFields| > 1 && HasFreeNeighbor(g, Last(b.ownFields))
    ensures r.Failure? ==> r.branch == b
    ensures r.Success? ==> r.parent == b && r.pos == r.child.pos
    ensures r.Success? ==> r.pos in FreeNeighbors(g, Last(b.ownFields)) && Free(g, r.pos)
    ensures r.Success? ==> r.child.ownFields == [r.pos] && r.child.age == 0 && r.child.mode == City
    ensures r.Success? ==> r.child.id == childId && r.child.lifeTime == cfg.lifeTimeBranch
    ensures r.Success? ==> r.child.color == Hsla(b.color.h, cfg.saturationBranch, cfg.lightnessBranch, 255)
    ensures r.Success? ==> r.child.expandDirection == Pos(0, 0)
    ensures r.Success? ==> r.event == BranchOff(childId, Last(b.ownFields), r.pos, b.mode, r.child.color)
  {
    if |b.ownFields| <= 1 then Failure(b)
    else
      var search := Last(b.ownFields);
      var ns := FreeNeighbors(g, search);
      if |ns| == 0 then Failure(b)
      else
        var pos := Pick(ns, pick);
        var child := Branch(childId, pos, City, Pos(0, 0), [pos], 0, cfg.lifeTimeBranch,
                            Hsla(b.color.h, cfg.saturationBranch, cfg.lightnessBranch, 255));
        Success(b, child, pos, BranchOff(childId, search, pos, b.mode, child.color))
  }

  /**
   * Promotion of a fresh child to a main branch in `process_branching`: full
   * life time and the default palette, the hue shifted by `change_hue_new_main`
   * with the `u8` addition wrapping (release semantics) before the no-op `% 256`.
   */
  function Promote(child: Branch, cfg: Config): (r: Branch)
    ensures r == child.(color := r.color, lifeTime := cfg.lifeTime)
    ensures r.color.s == cfg.saturationMain && r.color.l == cfg.lightnessDefault && r.color.a == 255
    ensures r.color.h == (child.color.h + cfg.changeHueNewMain) % 256
  {
    var hue := WrappingAddU8(child.color.h, cfg.changeHueNewMain) % 256;
    child.(color := Hsla(hue, cfg.saturationMain, cfg.lightnessDefault, 255), lifeTime := cfg.lifeTime)
  }
}
