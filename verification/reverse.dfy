/**
 * `reverse_step` of `CityGrowScene` (src/city_grow.rs): one frame of the
 * reverse animation, which pops the newest operations off the recorded
 * histories and repaints them in black, non-main branches before main ones.
 * The `HashMap` iteration order is the caller's `keys`; the renderer calls of
 * `batch_erase` become the `batch` the frame would draw.
 */
module Reversing {
  import opened Ints
  import opened Configs
  import opened Painting
  import opened Consolidation

  /** `s` read back to front. */
  function Reverse<T>(s: seq<T>): (r: seq<T>)
    ensures |r| == |s|
    ensures forall k :: 0 <= k < |s| ==> r[k] == s[|s| - 1 - k]
  {
    if |s| == 0 then [] else Reverse(s[1..]) + [s[0]]
  }

  lemma {:induction false} ReverseAppend<T>(a: seq<T>, b: seq<T>)
    ensures Reverse(a + b) == Reverse(b) + Reverse(a)
  {
    var l, r := Reverse(a + b), Reverse(b) + Reverse(a);
    assert |l| == |r|;
    forall k | 0 <= k < |l| ensures l[k] == r[k] {
      if k < |b| {
        assert l[k] == (a + b)[|a| + |b| - 1 - k] == b[|b| - 1 - k];
      } else {
        assert l[k] == (a + b)[|a| + |b| - 1 - k] == a[|a| - 1 - (k - |b|)];
      }
    }
  }

  predicate Distinct<T(==)>(s: seq<T>) {
    forall a, b :: 0 <= a < b < |s| ==> s[a] != s[b]
  }

  /** `keys` is an iteration order of the history map: every recorded branch exactly once. */
  ghost predicate Enumerates(p: Painter, keys: seq<U32>) {
    && Distinct(keys)
    && forall id :: id in keys <==> id in p.history
  }

  /** Some recorded branch is not a main branch. */
  ghost predicate HasNonMain(p: Painter) {
    exists id :: id in p.history && id !in p.main
  }

  /** The ids of `keys` that are (`inMain`) or are not in `main`, in key order: one half of the `partition`. */
  function Part(keys: seq<U32>, main: set<U32>, inMain: bool): (r: seq<U32>)
    ensures forall id :: id in r <==> id in keys && (id in main <==> inMain)
    ensures Distinct(keys) ==> Distinct(r)
  {
    if |keys| == 0 then []
    else
      var rest := Part(keys[1..], main, inMain);
      assert forall id :: id in keys <==> id == keys[0] || id in keys[1..];
      if (keys[0] in main) == inMain then
        assert Distinct(keys) ==> keys[0] !in keys[1..];
        [keys[0]] + rest
      else rest
  }

  /**
   * The branches a frame works on: the non-main ones while any remain,
   * otherwise the main ones.
   */
  function Selected(p: Painter, keys: seq<U32>): (r: seq<U32>)
    requires Enumerates(p, keys)
    ensures Distinct(r)
    ensures forall id :: id in r <==> id in p.history && (id in p.main <==> !HasNonMain(p))
    ensures |p.history| > 0 ==> |r| > 0
  {
    var nonMain := Part(keys, p.main, false);
    if |nonMain| > 0 then
      var id := nonMain[0];
      assert id in p.history && id !in p.main;
      nonMain
    else
      var r := Part(keys, p.main, true);
      assert |p.history| > 0 ==> |r| > 0 by {
        if |p.history| > 0 {
          var id :| id in p.history;
          assert id in keys;
        }
      }
      r
  }

  /** `entries_per_branch`: the frame budget shared out over the selected branches, rounded up. */
  function PerBranch(cfg: Config, selected: nat): (r: nat)
    ensures r >= 1
    ensures r * Max(selected, 1) >= cfg.reverseActionsPerFrame
    ensures (r - 1) * Max(selected, 1) < Max(cfg.reverseActionsPerFrame, 1)
  {
    CeilDiv(Max(cfg.reverseActionsPerFrame, 1), Max(selected, 1))
  }

  /** The newest `per` operations of a history (all of it when shorter). */
  function Tail(h: seq<DrawOp>, per: nat): (r: seq<DrawOp>)
    ensures |r| == Min(per, |h|)
    ensures h == h[..|h| - |r|] + r
  {
    h[|h| - Min(per, |h|)..]
  }

  /** What a frame takes from every branch it works on, in key order. */
  function Tails(h: map<U32, seq<DrawOp>>, ids: seq<U32>, per: nat): seq<DrawOp> {
    if |ids| == 0 then []
    else (if ids[0] in h then Tail(h[ids[0]], per) else []) + Tails(h, ids[1..], per)
  }

  /** No branch appears and none grows. */
  predicate Shrunk(h': map<U32, seq<DrawOp>>, h: map<U32, seq<DrawOp>>) {
    forall id :: id in h' ==> id in h && |h'[id]| <= |h[id]|
  }

  /** The state of the `for branch_id in branches_to_process` loop. */
  datatype Pop = Pop(history: map<U32, seq<DrawOp>>, taken: seq<DrawOp>, emptied: set<U32>)

  /**
   * The draining loop of `reverse_step`, in key order: an empty history is
   * marked for removal, any other loses its newest `per` operations, which
   * join the end of the collected list. Draining one branch never changes
   * what a later one gives up.
   */
  function PopTails(h: map<U32, seq<DrawOp>>, ids: seq<U32>, per: nat): (r: Pop)
    requires Distinct(ids)
    ensures r.history.Keys == h.Keys
    ensures forall id :: id in h && id !in ids ==> r.history[id] == h[id]
    ensures forall id :: id in h && id in ids ==> h[id] == r.history[id] + Tail(h[id], per)
    ensures forall id :: id in r.emptied <==> id in ids && id in h && |h[id]| == 0
    ensures r.taken == Tails(h, ids, per)
    decreases |ids|
  {
    if |ids| == 0 then Pop(h, [], {})
    else
      var id := ids[0];
      assert forall x :: x in ids <==> x == id || x in ids[1..];
      assert id !in ids[1..];
      if id !in h then PopTails(h, ids[1..], per)
      else if |h[id]| == 0 then
        var r := PopTails(h, ids[1..], per);
        Pop(r.history, r.taken, r.emptied + {id})
      else
        var t := Tail(h[id], per);
        var h' := h[id := h[id][..|h[id]| - |t|]];
        var r := PopTails(h', ids[1..], per);
        TailsUnaffected(h, h', id, ids[1..], per);
        Pop(r.history, t + r.taken, r.emptied)
  }

  /** Changing a branch that is not among `ids` leaves their tails alone. */
  lemma {:induction false} TailsUnaffected(h: map<U32, seq<DrawOp>>, h': map<U32, seq<DrawOp>>, id: U32, ids: seq<U32>, per: nat)
    requires id !in ids && id in h && id in h' && h' == h[id := h'[id]]
    ensures Tails(h', ids, per) == Tails(h, ids, per)
    decreases |ids|
  {
    if |ids| > 0 {
      assert ids[0] != id;
      TailsUnaffected(h, h', id, ids[1..], per);
    }
  }

  /** The operations a frame repaints, newest first, and the batch it draws for them. */
  datatype ReverseResult = ReverseResult(painter: Painter, done: bool, erased: seq<DrawOp>, batch: seq<DrawOp>)

  /** What one frame takes from branch `id`. */
  function StepTail(p: Painter, cfg: Config, keys: seq<U32>, id: U32): seq<DrawOp>
    requires Enumerates(p, keys)
  {
    var sel := Selected(p, keys);
    if id in sel then Tail(History(p, id), PerBranch(cfg, |sel|)) else []
  }

  /** The reverse-order reference: branch by branch, each branch's taken operations newest first. */
  function Erasures(h: map<U32, seq<DrawOp>>, ids: seq<U32>, per: nat): seq<DrawOp> {
    if |ids| == 0 then []
    else Reverse(if ids[0] in h then Tail(h[ids[0]], per) else []) + Erasures(h, ids[1..], per)
  }

  /**
   * `reverse_step`: with nothing recorded the animation is done. Otherwise
   * every selected branch gives up its newest operations, the collected list
   * is repainted back to front, and a branch is forgotten (with its main
   * flag) only when its history was already empty when the frame began: a
   * branch drained empty by this frame survives until the next one. The
   * frame reports done exactly when no history remains.
   */
  function ReverseStep(p: Painter, cfg: Config, keys: seq<U32>): (r: ReverseResult)
    requires Enumerates(p, keys)
    ensures |p.history| == 0 ==> r == ReverseResult(p, true, [], [])
    ensures r.done <==> |r.painter.history| == 0
    ensures forall id :: History(p, id) == History(r.painter, id) + StepTail(p, cfg, keys, id)
    ensures Shrunk(r.painter.history, p.history)
    ensures forall id :: id in Selected(p, keys) ==> id !in r.painter.history || |r.painter.history[id]| < |p.history[id]|
    ensures forall id :: id in r.painter.history <==> id in p.history && !(id in Selected(p, keys) && |p.history[id]| == 0)
    ensures forall id :: id in r.painter.main <==> id in p.main && !(id in Selected(p, keys) && id in p.history && |p.history[id]| == 0)
    ensures HasNonMain(p) ==> forall id :: id in p.main && id in p.history ==> id in r.painter.history && History(r.painter, id) == History(p, id)
    ensures forall id :: id in Selected(p, keys) ==> |StepTail(p, cfg, keys, id)| == Min(PerBranch(cfg, |Selected(p, keys)|), |History(p, id)|)
    ensures r.erased == Erasures(p.history, Reverse(Selected(p, keys)), PerBranch(cfg, |Selected(p, keys)|))
    ensures AllBlack(r.batch) && |r.batch| <= |r.erased| && Shapes(r.batch) == Shapes(r.erased)
  {
    if |p.history| == 0 then ReverseResult(p, true, [], [])
    else
      var sel := Selected(p, keys);
      var per := PerBranch(cfg, |sel|);
      var pop := StepPop(p, cfg, keys);
      var erased := Reverse(pop.taken);
      var p' := Kept(p, cfg, keys);
      ErasedByBranch(p.history, sel, per);
      SplitLaw(p, cfg, keys);
      ReverseResult(p', |p'.history| == 0, erased, ConsolidateLines(erased))
  }

  /** What one frame pops from the histories of the selected branches. */
  function StepPop(p: Painter, cfg: Config, keys: seq<U32>): Pop
    requires Enumerates(p, keys)
  {
    var sel := Selected(p, keys);
    PopTails(p.history, sel, PerBranch(cfg, |sel|))
  }

  /** The painter one frame leaves: the popped histories, less the ids that were already empty. */
  function Kept(p: Painter, cfg: Config, keys: seq<U32>): Painter
    requires Enumerates(p, keys)
  {
    var pop := StepPop(p, cfg, keys);
    Painter(pop.history - pop.emptied, p.main - pop.emptied)
  }

  lemma SplitLaw(p: Painter, cfg: Config, keys: seq<U32>)
    requires Enumerates(p, keys)
    ensures forall id :: History(p, id) == History(Kept(p, cfg, keys), id) + StepTail(p, cfg, keys, id)
    ensures Shrunk(Kept(p, cfg, keys).history, p.history)
    ensures forall id :: id in Selected(p, keys) ==>
      id !in Kept(p, cfg, keys).history || |Kept(p, cfg, keys).history[id]| < |p.history[id]|
  {
    var sel := Selected(p, keys);
    var per := PerBranch(cfg, |sel|);
    var pop, p' := StepPop(p, cfg, keys), Kept(p, cfg, keys);
    forall id ensures History(p, id) == History(p', id) + StepTail(p, cfg, keys, id) {
      SplitAt(p, p', pop, sel, per, id);
    }
    forall id | id in p'.history ensures id in p.history && |p'.history[id]| <= |p.history[id]| {
      SplitAt(p, p', pop, sel, per, id);
    }
    forall id | id in sel && id in p'.history ensures |p'.history[id]| < |p.history[id]| {
      SplitAt(p, p', pop, sel, per, id);
    }
  }

  /** One branch's share of the split law. */
  lemma SplitAt(p: Painter, p': Painter, pop: Pop, sel: seq<U32>, per: nat, id: U32)
    requires Distinct(sel) && pop == PopTails(p.history, sel, per)
    requires p' == Painter(pop.history - pop.emptied, p.main - pop.emptied)
    ensures History(p, id) == History(p', id) + (if id in sel then Tail(History(p, id), per) else [])
    ensures id in p'.history ==> id in p.history
    ensures id in sel && id in p'.history ==> |History(p, id)| > 0 && per >= 1 ==> |p'.history[id]| < |p.history[id]|
  {
    if id in pop.emptied {
      assert History(p, id) == [];
    }
  }

  /** Reading the collected list back to front visits the branches in reverse key order. */
  lemma {:induction false} ErasedByBranch(h: map<U32, seq<DrawOp>>, ids: seq<U32>, per: nat)
    ensures Reverse(Tails(h, ids, per)) == Erasures(h, Reverse(ids), per)
    decreases |ids|
  {
    if |ids| > 0 {
      var t := if ids[0] in h then Tail(h[ids[0]], per) else [];
      ReverseAppend(t, Tails(h, ids[1..], per));
      ErasedByBranch(h, ids[1..], per);
      assert Reverse(ids) == Reverse(ids[1..]) + [ids[0]];
      ErasuresAppend(h, Reverse(ids[1..]), [ids[0]], per);
      assert Erasures(h, [ids[0]], per) == Reverse(t) + Erasures(h, [], per);
    }
  }

  lemma {:induction false} ErasuresAppend(h: map<U32, seq<DrawOp>>, a: seq<U32>, b: seq<U32>, per: nat)
    ensures Erasures(h, a + b, per) == Erasures(h, a, per) + Erasures(h, b, per)
    decreases |a|
  {
    if |a| == 0 {
      assert a + b == b;
    } else {
      assert (a + b)[1..] == a[1..] + b;
      ErasuresAppend(h, a[1..], b, per);
    }
  }

  /** The work left to the reverse animation: every recorded operation, plus one per recorded branch. */
  ghost function Weight(h: map<U32, seq<DrawOp>>): nat {
    WeightOf(h, h.Keys)
  }

  ghost function WeightOf(h: map<U32, seq<DrawOp>>, ids: set<U32>): nat
    requires ids <= h.Keys
  {
    if ids == {} then 0
    else
      var id :| id in ids;
      |h[id]| + 1 + WeightOf(h, ids - {id})
  }

  lemma {:induction false} WeightOfRemove(h: map<U32, seq<DrawOp>>, ids: set<U32>, id: U32)
    requires ids <= h.Keys && id in ids
    ensures WeightOf(h, ids) == |h[id]| + 1 + WeightOf(h, ids - {id})
  {
    var j :| j in ids && WeightOf(h, ids) == |h[j]| + 1 + WeightOf(h, ids - {j});
    if j != id {
      WeightOfRemove(h, ids - {j}, id);
      WeightOfRemove(h, ids - {id}, j);
      assert ids - {j} - {id} == ids - {id} - {j};
    }
  }

  lemma WeightOfFrame(h: map<U32, seq<DrawOp>>, h': map<U32, seq<DrawOp>>, ids: set<U32>)
    requires ids <= h.Keys && ids <= h'.Keys
    requires forall id :: id in ids ==> h[id] == h'[id]
    ensures WeightOf(h, ids) == WeightOf(h', ids)
  {
    if ids != {} {
      var j :| j in ids;
      WeightOfRemove(h', ids, j);
      WeightOfFrame(h, h', ids - {j});
    }
  }

  lemma WeightRemove(h: map<U32, seq<DrawOp>>, id: U32)
    requires id in h
    ensures Weight(h) == |h[id]| + 1 + Weight(h - {id})
  {
    WeightOfRemove(h, h.Keys, id);
    assert (h - {id}).Keys == h.Keys - {id};
    WeightOfFrame(h, h - {id}, h.Keys - {id});
  }

  lemma {:induction false} WeightMonotone(h': map<U32, seq<DrawOp>>, h: map<U32, seq<DrawOp>>)
    requires Shrunk(h', h)
    ensures Weight(h') <= Weight(h)
    decreases |h|
  {
    if |h| == 0 {
      assert |h'| == 0 by { assert h'.Keys <= h.Keys; }
    } else {
      var id :| id in h;
      WeightRemove(h, id);
      assert |h - {id}| < |h| by { assert (h - {id}).Keys == h.Keys - {id}; }
      if id in h' {
        WeightRemove(h', id);
        WeightMonotone(h' - {id}, h - {id});
      } else {
        assert h' - {id} == h';
        WeightMonotone(h', h - {id});
      }
    }
  }

  lemma WeightDrops(h': map<U32, seq<DrawOp>>, h: map<U32, seq<DrawOp>>, id: U32)
    requires Shrunk(h', h) && id in h
    requires id !in h' || |h'[id]| < |h[id]|
    ensures Weight(h') < Weight(h)
  {
    WeightRemove(h, id);
    if id in h' {
      WeightRemove(h', id);
      WeightMonotone(h' - {id}, h - {id});
    } else {
      assert h' - {id} == h';
      WeightMonotone(h', h - {id});
    }
  }

  /**
   * Every frame with something left to erase makes progress: some selected
   * branch loses an operation or is forgotten, and nothing grows, so the
   * reverse animation reaches done after finitely many frames.
   */
  lemma ReverseProgress(p: Painter, cfg: Config, keys: seq<U32>)
    requires Enumerates(p, keys) && |p.history| > 0
    ensures Shrunk(ReverseStep(p, cfg, keys).painter.history, p.history)
    ensures Weight(ReverseStep(p, cfg, keys).painter.history) < Weight(p.history)
  {
    var r := ReverseStep(p, cfg, keys);
    var h, h' := p.history, r.painter.history;
    var sel := Selected(p, keys);
    var id := sel[0];
    assert History(p, id) == History(r.painter, id) + StepTail(p, cfg, keys, id);
    WeightDrops(h', h, id);
  }

  /** `ps` are the painter states of consecutive reverse frames, frame `j` iterating the histories in the order `ks[j]`. */
  ghost predicate ReverseRun(ps: seq<Painter>, ks: seq<seq<U32>>, cfg: Config) {
    && |ps| == |ks| + 1
    && forall j :: 0 <= j < |ks| ==> Enumerates(ps[j], ks[j]) && ps[j + 1] == ReverseStep(ps[j], cfg, ks[j]).painter
  }

  /** What each frame of the run takes from branch `id`. */
  ghost function RunTails(ps: seq<Painter>, ks: seq<seq<U32>>, cfg: Config, id: U32): (r: seq<seq<DrawOp>>)
    requires ReverseRun(ps, ks, cfg)
    ensures |r| == |ks|
  {
    seq(|ks|, j requires 0 <= j < |ks| => StepTail(ps[j], cfg, ks[j], id))
  }

  /** What the frames repaint for one branch: frame by frame, each frame's share newest first. */
  function NewestFirst(ts: seq<seq<DrawOp>>): seq<DrawOp> {
    if |ts| == 0 then [] else Reverse(ts[0]) + NewestFirst(ts[1..])
  }

  /** Peeling tails `ts` off the history `hs[0]` one after another until nothing is left. */
  lemma {:induction false} PeelAll(hs: seq<seq<DrawOp>>, ts: seq<seq<DrawOp>>)
    requires |hs| == |ts| + 1 && hs[|ts|] == []
    requires forall j :: 0 <= j < |ts| ==> hs[j] == hs[j + 1] + ts[j]
    ensures NewestFirst(ts) == Reverse(hs[0])
    decreases |ts|
  {
    if |ts| > 0 {
      PeelAll(hs[1..], ts[1..]);
      PeelNewest(hs[0], hs[1], ts[0], NewestFirst(ts[1..]));
    }
  }

  /**
   * The reverse animation is last-in first-out per branch: once a run of
   * frames has emptied a branch's history, it has repainted that branch's
   * operations exactly in the reverse of the order they were drawn.
   */
  lemma ErasedNewestFirst(ps: seq<Painter>, ks: seq<seq<U32>>, cfg: Config, id: U32)
    requires ReverseRun(ps, ks, cfg)
    requires History(ps[|ks|], id) == []
    ensures NewestFirst(RunTails(ps, ks, cfg, id)) == Reverse(History(ps[0], id))
  {
    var hs := seq(|ps|, j requires 0 <= j < |ps| => History(ps[j], id));
    var ts := RunTails(ps, ks, cfg, id);
    forall j | 0 <= j < |ts| ensures hs[j] == hs[j + 1] + ts[j] {
      RunStep(ps, ks, cfg, id, j);
    }
    PeelAll(hs, ts);
  }

  lemma RunStep(ps: seq<Painter>, ks: seq<seq<U32>>, cfg: Config, id: U32, j: nat)
    requires ReverseRun(ps, ks, cfg) && j < |ks|
    ensures History(ps[j], id) == History(ps[j + 1], id) + StepTail(ps[j], cfg, ks[j], id)
  {
    var r := ReverseStep(ps[j], cfg, ks[j]);
  }

  /** Repainting a frame's tail newest first, then the rest of the history newest first, reverses the whole history. */
  lemma PeelNewest(h: seq<DrawOp>, kept: seq<DrawOp>, tail: seq<DrawOp>, later: seq<DrawOp>)
    requires h == kept + tail && later == Reverse(kept)
    ensures Reverse(tail) + later == Reverse(h)
  {
    ReverseAppend(kept, tail);
  }
}
