# city_grow in Dafny

A model of the generative "city grow" animation in `src/city_grow.rs`. Branches
random-walk over a grid of cells and claim every cell they enter. A City
branch wanders, a Land branch prefers one direction, and branches spawn
children, some of which are promoted to main branches. Every move is painted
and recorded in a per-branch draw history. When no branch is left alive, a
reverse animation erases that history frame by frame: non-main branches go
first, main branches last. After that the city is re-seeded and grows again.

The model is functional. It uses immutable datatypes and pure functions, and
every random draw is a parameter:

- An index draw (`random_range(0..len)`, `choose`) is any `nat`, reduced modulo the list length.
- A probability roll is a `real` compared with `<` against the configured chance.
- `random_ratio` is a boolean that is handed in.
- The stream of draws a pass consumes is a function `nat -> …` or a sequence.
- Draw operations live in grid space. A line runs between two cell
  positions, a filled rectangle is its integer corner, and a colour is
  `Solid`, `Faded` or `Black`. `grid_to_screen` is one affine map for
  every operation, so joints and equality are preserved.
- The records of visits that the two growth passes return (`visits`) exist only
  to state what each visited branch drew and saw; the source keeps no such
  record. The branching pass hands slot `j` the draws `draws(j)`.

Modules, in the order the program builds them up:

- `Wrappers`, `Ints`: `Option`, the integer widths (`i32`, `u32`, `u8`), the
  `as u32` cast of an `i32`, the wrapping `u8` add, f32 rounding and the
  ceiling division of `reverse_step`.
- `Positions`: `Pos::try_add` / `try_sub` with `i32` overflow checks, and the
  four directions East, West, South, North.
- `Grids`: the row-major bit field with bounds-checked `get`, `set` and
  `fill`, `is_position_valid`, `random_pos` and `get_free_neighbors`. The
  neighbour lookup casts the candidate's coordinates with `as u32`, so a
  negative coordinate lands out of range and reads as not free.
- `Configs`: `CityGrowConfig`, its defaults, `branch_chance`, the
  population-scaled branching chance, and the condition under which
  `random_ratio` does not panic.
- `Branches`: the branch state machine: `Branch::new`, `transition_modes`,
  `expand_direction`, `set_next_position`, `find_next_move`, `step_branch`,
  `try_branch_off`, and the promotion of a child to a main branch.
- `Vecs`: `Vec::swap_remove` and `swap`, and how the two passes use them to
  put an element back in its slot.
- `Growth`: the `process_stepping` and `process_branching` walks over the
  branch list, with the `swap_remove` / push / `swap` bookkeeping written out.
- `Painting`: `draw_move` and `compute_fill_rect`: the history entries one
  event appends, and the layering of non-main events beneath main ones.
- `Consolidation`: `consolidate_lines`, which merges chained lines into
  polylines and turns everything black for erasing.
- `Reversing`: `reverse_step`, which pops up to `ceil(R / k)` entries from
  each selected branch, together with what a whole reverse run erases.
- `Scenes`: `with_config`, `initialize_with_clear`, `render` and `on_resize`.

Behaviour of the code that the model keeps as written:

- `expand_direction` applies `is_position_valid` to the offset `target - pos`,
  not to the target (src/city_grow.rs:350-352). Only the East `(1, 0)` and
  South `(0, 1)` offsets can pass. West and North give `None`, and the branch
  keeps its old direction. `Branches.ExpandDirection` states this.
- `try_branch_off` branches from the last visited cell, not from `pos`. After a
  backtrack the two differ.
- The Land-to-City transition re-rolls the age to any value up to the old age.
  It is skipped in late life, when the mode is forced to City.
- The promoted hue is a `u8` addition that wraps (release-build semantics), so
  the `% 256` after it changes nothing.
- `reverse_step` drops an id only if its history was already empty when the
  step began. A history drained by a step therefore stays, empty, until the
  next step.
- Branch ids are random and never checked for collisions. Two branches with
  one id share one history entry and one main flag.

## Model

| member | source | states |
|---|---|---|
| Positions.TryAdd | src/city_grow.rs:172-178 | `Some` exactly when both coordinate sums fit in `i32`, and then it is the componentwise sum |
| Positions.TrySub | src/city_grow.rs:180-186 | `Some` exactly when both coordinate differences fit in `i32`, and then it is the componentwise difference |
| Positions.TrySubUndoesTryAdd | src/city_grow.rs:172-186 | `try_sub` undoes a successful `try_add` and vice versa |
| Positions.AdjacentIsDirectionStep | src/city_grow.rs:15-20 | two cells are 4-neighbours exactly when one of the four direction offsets leads from one to the other without overflow |
| Ints.AsU32 | src/city_grow.rs:104 | `as u32` keeps a non-negative `i32` and sends a negative one above `i32::MAX` |
| Ints.WrappingAddU8 | src/city_grow.rs:561-562 | the `u8` sum, less 256 when it overflows |
| Ints.RoundToU32 | src/city_grow.rs:487-488 | the saturating `round() as u32`: 0 for negative input, `u32::MAX` past the top of the range, otherwise the nearest integer with halves rounded up |
| Ints.CeilDiv | src/city_grow.rs:919-922 | the least multiplier `r` with `r * b >= a` |
| Grids.NewGrid | src/city_grow.rs:64-73 | a grid of the given sizes in which every in-range cell reads `Some(false)` and every other cell reads `None` |
| Grids.Get | src/city_grow.rs:75-81 | `None` exactly when `x >= size_x` or `y >= size_y` |
| Grids.Set | src/city_grow.rs:83-87 | out of range, the grid is unchanged; in range, only cell `(x, y)` changes, and it reads back the new value |
| Grids.Fill | src/city_grow.rs:89-91 | every in-range cell reads the fill value afterwards |
| Grids.RandomPos | src/city_grow.rs:93-97 | a position inside the grid for any pair of draws; in-range draws select exactly the cell they name, so every cell can be drawn |
| Grids.PositionValidIsCastLookup | src/city_grow.rs:109-111 | `is_position_valid` holds exactly when both coordinates lie in `0..size`, which is exactly when the `as u32` lookup finds a cell |
| Grids.CastLookupIsFree | src/city_grow.rs:104-111 | the cast lookup `get(x as u32, y as u32) == Some(false)` holds exactly when the position is inside the grid and unoccupied |
| Grids.Mark | src/city_grow.rs:526 | the occupied cells are the old ones plus the marked cell when it is inside the grid; nothing else changes, and the marked cell is no longer free |
| Grids.Candidate | src/city_grow.rs:102-105 | holds `pos + dir` exactly when the sum does not overflow and the cell is free |
| Grids.CandidateStep | src/city_grow.rs:99-107 | the four candidates together hold exactly the free 4-neighbours |
| Grids.FreeNeighbors | src/city_grow.rs:99-107 | exactly the free 4-neighbours of `pos`, at most four, in East, West, South, North order |
| Configs.BranchChance | src/city_grow.rs:238-243 | the chance configured for the branch's own mode: the City chance for City branches, the Land chance for Land branches |
| Configs.RollHitsLaws | src/city_grow.rs:542-546 | with a non-zero denominator a roll hits exactly when it is below the scaled chance, so a smaller roll hits whenever a larger one does; a lone branch with a non-negative fall-off rolls against its base chance; with a zero denominator the outcome does not depend on the roll |
| Configs.ScaledChanceFallsOff | src/city_grow.rs:542-544 | with one branch the scaled chance is the base chance; a larger population never gets a larger chance |
| Configs.BiasAtLeastOneIsSound | src/city_grow.rs:393-396 | a directional bias of at least 1 keeps `random_ratio`'s denominator at or above its numerator for every neighbour count |
| Configs.DefaultIsSound | src/city_grow.rs:211-235 | the default configuration satisfies that condition and has a positive fall-off |
| Branches.Pick | src/city_grow.rs:349 | the drawn element is a member of the list, and any in-range draw selects that index |
| Branches.NewBranch | src/city_grow.rs:267-283 | a City branch of age 0 whose visited cells are just its position, with the configured life time, the main palette at the drawn hue, and the zero expand direction |
| Branches.TransitionModes | src/city_grow.rs:325-342 | City becomes Land exactly on a hit of the City-to-Land roll, and Land becomes City exactly on a hit of the Land-to-City roll; only a Land-to-City switch may lower the age, and an unchanged mode leaves the branch unchanged; a City-to-Land switch keeps the old direction or takes East or South, and a changed direction leads from `pos` to a free neighbour |
| Branches.ExpandDirection | src/city_grow.rs:344-353 | `None` without free neighbours; a result is always East or South and leads to the drawn neighbour; on a cell inside the grid, it is `Some` exactly when the drawn neighbour lies East or South |
| Branches.FindLast | src/city_grow.rs:361-367 | the newest index in the searched window whose cell satisfies the test, or `None` exactly when no cell in the window does |
| Branches.SetNextPosition | src/city_grow.rs:357-377 | keeps a position that has a free neighbour; otherwise it moves to the newest of the last `min(max_steps_back, len)` visited cells that has one; it is `None` exactly when neither exists |
| Branches.Preferred | src/city_grow.rs:387-390 | `Some` exactly when the step from `pos` in the expand direction does not overflow and lands inside the grid, and then it is that cell |
| Branches.FindNextMove | src/city_grow.rs:379-415 | the target is a free neighbour; City branches and straight-going Land branches keep their state; a Land branch without a ratio hit takes the preferred cell; otherwise a Land branch's new direction leads to the target |
| Branches.ResolveMode | src/city_grow.rs:295-302 | late in life the mode is forced to City with nothing else changed; otherwise only a Land-to-City transition may lower the age |
| Branches.Advance | src/city_grow.rs:304-322 | moves to a free neighbour, appends it to the visited cells, adds one to the age, and reports the previous last visited cell as the tip |
| Branches.StepBranch | src/city_grow.rs:285-323 | `None` exactly when the branch is too old or no free neighbour is found within the backtracking window; a step leaves from the current or a backtracked cell to a free neighbour, appends it to the visited cells, keeps id, life time and colour, and ages by one except where a Land-to-City re-roll resets the age |
| Branches.TryBranchOff | src/city_grow.rs:417-464 | succeeds exactly when there are at least two visited cells and the last one has a free neighbour; a failure returns the branch unchanged; the child sits on that neighbour as a fresh City branch with the parent's hue, branch palette, branch life time and the zero expand direction, and the event records both cells |
| Branches.Promote | src/city_grow.rs:557-571 | only colour and life time change: the main palette with the hue shifted by the configured amount modulo 256, and the main life time |
| Vecs.SwapRemove | src/city_grow.rs:541 | one element shorter, the prefix before the slot untouched, the old last element moved into the slot with the elements after the slot kept in place, and the removed element gone from the multiset |
| Vecs.Swap | src/city_grow.rs:579 | exchanges the two slots and leaves every other slot alone |
| Vecs.SwapRemovePushSwap | src/city_grow.rs:590-592 | `swap_remove`, push, then swap puts the new element exactly in the removed slot |
| Vecs.SwapRemoveReinsert | src/city_grow.rs:576-579 | `swap_remove`, pushing child and parent, then swap leaves the parent in its slot and the child just before the old last element |
| Growth.SteppingLoop | src/city_grow.rs:604-623 | from slot `i`, the earlier slots stay put, every remaining branch is a one-step successor of a branch that was there, the events report those moves in slot order, and the grid gains exactly the claimed cells, which were free and pairwise distinct; the visit record holds every remaining branch once, each stepped with the next draw on the grid the earlier visits left, and the survivors and events are exactly the successors and moves of the visits whose step returned `Some`, in visit order |
| Growth.TraceAt | src/city_grow.rs:604-623 | visit `j` of a stepping record stepped its branch with draw `k + j` on the grid it records |
| Growth.ProcessStepping | src/city_grow.rs:600-626 | each survivor is a one-step successor of an input branch, with one `Move` event per survivor naming its id and new cell; the grid gains exactly the distinct, previously free destination cells; every input branch is visited once, with its own draw on the grid the earlier visits left; a branch is dropped exactly when its `step_branch` returned `None`, and otherwise its successor is kept and its `Move` emitted |
| Growth.BranchOutcome | src/city_grow.rs:542-571 | a visit spawns exactly when the population-scaled roll hits and `try_branch_off` succeeds; child and event are the ones `try_branch_off` returns, and the child is promoted exactly when the promotion roll is below `prop_branch_off_to_main` |
| Growth.BranchingLoop | src/city_grow.rs:540-595 | the slots before `i` are untouched and no branch is lost; every extra branch is the child of an emitted event; all events are `BranchOff`; new main ids come only from those events; and the grid gains exactly the distinct, previously free child cells; slot `j` rolls `draws(j)` on the grid the earlier slots left and spawns exactly as `BranchOutcome` says, and the events, pushed children and new main ids are exactly those of the spawning visits |
| Growth.BranchTraceAt | src/city_grow.rs:540-595 | visit `j` of a branching record is the visit to slot `i + j` with draws `draws(i + j)`, and it spawned exactly as `BranchOutcome` says on the grid it records |
| Growth.ProcessBranching | src/city_grow.rs:535-598 | the list grows by one per event, keeps every input branch, and adds only the event children; at most one event per branch with two or more visited cells; main ids only grow, by spawned children; the grid gains exactly the child cells; every slot of the final list, pushed children included, is visited once and spawns exactly as `BranchOutcome` says with the population fixed at the input length; the events are the spawns' events in slot order, the list gains exactly the pushed children (promoted ones with the main palette and life time) and the main ids exactly the promoted children's ids; a pass without events changes nothing |
| Growth.NoHitsNoGrowth | src/city_grow.rs:540-595 | when no branch's population-scaled roll hits, the pass emits no event and leaves the list, the main ids and the grid as they were |
| Painting.StrokeOf | src/city_grow.rs:665-695 | a `Move` is drawn under its branch id from `from` to `to` with its own tip; a `BranchOff` is drawn under the child id from parent to child cell, with the parent cell as tip; a move keeps its own mode and colour, a branch-off takes the parent's mode and the child's colour |
| Painting.FillCorner | src/city_grow.rs:643-650 | the componentwise minimum of the destination and the tip shifted by the perpendicular |
| Painting.FillCornersStraddle | src/city_grow.rs:705-720 | for a step between neighbours, the two corners lie one perpendicular apart, within one cell of the step |
| Painting.EventOps | src/city_grow.rs:697-747 | one solid line from `from` to `to`, preceded by two faded filled rectangles (perpendicular and its negation) exactly for a City move between distinct cells |
| Painting.DrawMove | src/city_grow.rs:733-747 | appends the event's operations to its id's history, creates the entry if missing, and changes no other history |
| Painting.DrawEvents | src/city_grow.rs:1010-1017 | every id's history grows by exactly that id's operations in event order, and the key set grows by the ids drawn |
| Painting.NonMainEvents | src/city_grow.rs:996-1007 | exactly the events of the input whose id is not a main id |
| Painting.MainEvents | src/city_grow.rs:996-1007 | exactly the events of the input whose id is a main id |
| Painting.LayersPartition | src/city_grow.rs:993-1007 | the two layers together hold every event of the frame exactly as often as the frame does |
| Painting.LayeringKeepsBranchOrder | src/city_grow.rs:993-1017 | drawing non-main events before main events gives every branch the same history as drawing them in arrival order, and loses no event |
| Consolidation.Flush | src/city_grow.rs:783-806 | emits nothing for fewer than two pending points, and otherwise one black line or polyline of the run's thickness painting exactly the segments between consecutive pending points |
| Consolidation.Blacken | src/city_grow.rs:832-850 | the same kind of operation with the same geometry, in black |
| Consolidation.ConsolidateFrom | src/city_grow.rs:762-872 | all output is black and at most one op longer than the input; it paints the open run's segments, then the input's segments and rectangles, in order |
| Consolidation.ConsolidateLines | src/city_grow.rs:753-875 | empty input gives empty output; the output is black, no longer than the input, and paints exactly the input's segments and rectangles in the same order |
| Consolidation.ConsolidateAroundOther | src/city_grow.rs:813-853 | an operation that is not a line closes the open run and comes out blackened in place: the output around it is that of the operations before it and that of the operations after it |
| Consolidation.ConsolidateSplits | src/city_grow.rs:770-853 | when the first operation after a prefix cannot join the run the prefix left open (it is not a line, is not joined to the run's last point, or differs in thickness), the whole output is the prefix's output followed by the rest's |
| Consolidation.CutFrom | src/city_grow.rs:762-853 | the same split for a walk that starts with an open run: the walk over the prefix flushes that run, and the rest starts with none |
| Consolidation.ChainConsolidates | src/city_grow.rs:770-780 | a chain of joined lines of one thickness becomes a single black line (one segment) or a single black polyline through all its points |
| Consolidation.NoLinesPassThrough | src/city_grow.rs:813-853 | with no lines in the input, each operation comes out blackened in place |
| Reversing.Part | src/city_grow.rs:905-910 | exactly the keys whose membership in the main set matches the side requested, without duplicates |
| Reversing.Selected | src/city_grow.rs:905-917 | the non-main history ids while any exist, otherwise the main ones, with no duplicates; non-empty whenever the history is |
| Reversing.PerBranch | src/city_grow.rs:919-922 | the ceiling of `max(R, 1) / max(k, 1)`, at least 1 |
| Reversing.Tail | src/city_grow.rs:936-937 | the last `min(per, len)` entries of a history |
| Reversing.PopTails | src/city_grow.rs:929-939 | every selected history loses exactly its tail, other histories are unchanged, the ids recorded for removal are exactly the selected ones whose history was empty, and the collected ops are the tails in selection order |
| Reversing.ReverseStep | src/city_grow.rs:900-953 | done at once on an empty history; otherwise each id keeps its history minus its tail, every selected branch shrinks or goes, ids are deleted only if already empty, main branches are untouched while non-main ones remain, and the batch is black and paints the erased operations' segments and rectangles, branch by branch in reverse selection order and newest first within a branch |
| Reversing.SplitLaw | src/city_grow.rs:929-950 | each history is what the step leaves plus what it erased for that id; no entry grows and no id is added |
| Reversing.ErasedByBranch | src/city_grow.rs:938-943 | reversing the collected tails gives each branch's tail, newest first, with the branches in reverse selection order |
| Reversing.ReverseProgress | src/city_grow.rs:900-953 | on a non-empty history the step strictly decreases the total number of entries plus ids, so the reverse animation ends |
| Reversing.ErasedNewestFirst | src/city_grow.rs:936-943 | over a whole reverse run, the operations erased for a branch are its history in reverse order |
| Scenes.SeedBranches | src/city_grow.rs:522-531 | one branch per seed at its drawn cell; the occupied cells are the old ones plus the seed cells; the main ids are exactly the seed ids |
| Scenes.InitializeWithClear | src/city_grow.rs:514-533 | an empty history, reverse mode off, the clear flag as given, the grid's occupied cells exactly the seed cells, and one fresh City branch per seed with its id in the main set |
| Scenes.WithConfig | src/city_grow.rs:486-508 | a grid of the rounded half-scale cell counts, the clear flag set, no history, and `start_branches` seeds whose cells are exactly the occupied ones and whose ids are exactly the main ids |
| Scenes.RenderGrowth | src/city_grow.rs:984-1023 | the grid gains exactly the cells claimed by the frame's events; main ids grow only by promoted children; every history grows by its branch's operations in event order; non-main strokes are drawn before main ones; the reverse animation starts exactly when no branch is left; every branch after the frame is a one-step successor of a branch before it or of a child announced by one of the frame's `BranchOff` events |
| Scenes.LayeredHistory | src/city_grow.rs:993-1017 | painting the two layers yields the history keys and per-id histories of painting the events in order |
| Scenes.RenderReverse | src/city_grow.rs:972-981 | a reverse frame draws only black and emits no events; while work remains, grid and branches are kept and each history loses exactly its step tail; once done, the scene is re-initialized with a clear |
| Scenes.Render | src/city_grow.rs:966-1026 | the clear happens exactly on a flagged frame; reverse frames draw only black; growth frames never free a cell, start the reverse animation exactly when no branch is left, and keep only one-step successors of the old branches and of the frame's new children; a reverse frame removes each history's step tail and keeps grid and branches while work remains, and re-seeds the scene with a clear once the step is done |
| Scenes.RenderTracks | src/city_grow.rs:966-1026 | every cell a live branch has visited stays occupied across any frame |
| Scenes.FreshTracks | src/city_grow.rs:514-533 | a freshly seeded scene has every visited cell occupied |
| Scenes.CellCount | src/city_grow.rs:487-488 | the integer nearest to pixels over twice the scale, halves rounded up, saturating at `u32::MAX` |
| Scenes.OnResize | src/city_grow.rs:1028-1037 | a grid of the rounded half-scale cell counts for the new size, history dropped, reverse mode off, the clear flag set, the seeds' cells exactly the occupied ones, and the main ids exactly the seed ids |

## Left out

- Rendering: `Hsla::to_d2d_color`, `grid_to_screen`, the float rectangle edges of `compute_fill_rect`, `batch_erase`'s renderer calls and blend modes, `clear`, `prepare_render`, `is_animating` and `debug!` logging are foreign or I/O. The model keeps what would be drawn (the ops a frame emits) and the integer rectangle corner.
- Renderer failures: every renderer call is taken to succeed, so Painting.DrawMove, Painting.DrawEvents, Scenes.RenderGrowth, Scenes.Render, Reversing.ReverseStep and Reversing.ErasedNewestFirst describe the error-free path only. In the source, a failing call ends the operation with `?`:
  - `draw_move` (src/city_grow.rs:724-730) fails before it records anything. The rectangles already drawn for that event stay on screen with no history entry to erase them.
  - `render` (src/city_grow.rs:1010-1017) stops at the first failing `draw_move`. Grid, branch list and main ids have already advanced, the remaining events of the frame go unrecorded, and `reverse_running` is not set on that frame.
  - `reverse_step` (src/city_grow.rs:944) fails after it has drained the tails and before it removes the emptied ids. The drained entries are lost without being erased, and the emptied ids stay until a later step removes them.
- The 0.01 joint tolerance of `consolidate_lines`: positions are grid cells mapped to the screen by one affine map, so the joint test becomes equality of cells. This matches the source only while one cell spans at least 0.01 screen units; with a smaller scale, distinct neighbouring cells would count as joined there. The 0.01 thickness tolerance is kept.
- Consolidation.ConsolidateLines: the geometry it is shown to keep is the sequence of segments and rectangles. A line's thickness is not part of it: a merged run takes its first line's thickness, and the source lets the others differ by less than 0.01. Consolidation.ChainConsolidates, Consolidation.ConsolidateSplits and Consolidation.ConsolidateAroundOther fix the exact output: a chain becomes one line or polyline, and the output splits wherever an operation cannot join the open run.
- f32 arithmetic: chances, rolls, alpha, scale and thickness are exact reals. A zero denominator in the scaled chance, which only a fall-off of minus the population gives, makes the f32 chance infinite (or NaN); `RollHits` then hits, whatever the roll, exactly when `base * (1 + fall_off) > 0`.
- The `ThreadRng` distributions: every draw is a parameter, so the model covers every outcome, not their probabilities.
- HashMap iteration order in `reverse_step` is a `keys` parameter that enumerates the history's keys without repeats. The HashSet of main ids is a `set`.
- `screen_width` / `screen_height` are stored but only read back by `on_resize`, which takes the new size as its argument. The rng is replaced by the draws.
- Grids.NewGrid: requires the sizes to fit in `i32` and their product to fit in `u32`. The source's `size_x * size_y` would overflow and its `as i32` casts would wrap beyond that. The same requirement is on Scenes.WithConfig and Scenes.OnResize.
- Branches.StepBranch: requires `BiasSound`, under which `random_ratio` cannot panic. This over-requires for City branches, which never call it. The same holds for Branches.Advance, Growth.ProcessStepping, Growth.SteppingLoop, Scenes.RenderGrowth and Scenes.Render.
- Scenes.Render: requires the seed list to match `start_branches` and the grid to be non-empty whenever the reverse animation runs, though only the frame that finishes it seeds. `random_range(0..0)` panics on an empty grid.
- Scenes.WithConfig: requires a positive scale. A zero or negative scale divides by zero or flips signs in f32, which is not modelled. The same holds for Scenes.OnResize.
- Ints.CeilDiv: computes the exact ceiling. The source divides in f32, which loses precision for counts above 2^24.
- Scenes.CellCount: divides exactly before rounding. f32 rounding of the pixel size is not modelled.
- Painting.FillCorner: uses unbounded integers. The source's `i32` sum `tip + perpendicular` could overflow only one cell beyond `i32::MAX`, and grid cells never get there.
- Debug-build overflow panics, such as the promoted hue's `u8` add, are not modelled. The model follows release builds, which wrap.
- Id and position collisions are not excluded. Colliding ids share one history entry, exactly as in the source.
