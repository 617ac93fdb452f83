/**
 * The `Vec` operations the tick passes use to walk and rebuild the branch
 * list in place: `swap_remove`, `push` and `swap`, and what their combinations
 * in `process_branching` and `process_stepping` amount to.
 */
module Vecs {

  /** `Vec::swap_remove(i)`: removes element `i` and moves the last element into its slot. */
  function SwapRemove<T>(s: seq<T>, i: nat): (r: seq<T>)
    requires i < |s|
    ensures |r| == |s| - 1
    ensures r[..i] == s[..i]
    ensures multiset(r[i..]) == multiset(s[i..]) - multiset{s[i]}
    ensures multiset(r) == multiset(s) - multiset{s[i]}
    ensures i < |s| - 1 ==> r[i] == s[|s| - 1] && r[i + 1..] == s[i + 1..|s| - 1]
  {
    if i == |s| - 1 then
      SwapRemoveLast(s, i);
      s[..i]
    else
      SwapRemoveInner(s, i, s[..i] + [s[|s| - 1]] + s[i + 1..|s| - 1]);
      s[..i] + [s[|s| - 1]] + s[i + 1..|s| - 1]
  }

  /** Removing the last element is a plain truncation. */
  lemma SwapRemoveLast<T>(s: seq<T>, i: nat)
    requires i == |s| - 1
    ensures s[..i][..i] == s[..i]
    ensures multiset(s[..i][i..]) == multiset(s[i..]) - multiset{s[i]}
    ensures multiset(s[..i]) == multiset(s) - multiset{s[i]}
  {
    assert s[i..] == [s[i]];
    assert s == s[..i] + [s[i]];
  }

  /** Removing an inner element: the last one takes its slot and the rest keep theirs. */
  lemma SwapRemoveInner<T>(s: seq<T>, i: nat, r: seq<T>)
    requires i < |s| - 1 && r == s[..i] + [s[|s| - 1]] + s[i + 1..|s| - 1]
    ensures |r| == |s| - 1 && r[..i] == s[..i]
    ensures r[i] == s[|s| - 1] && r[i + 1..] == s[i + 1..|s| - 1]
    ensures multiset(r[i..]) == multiset(s[i..]) - multiset{s[i]}
    ensures multiset(r) == multiset(s) - multiset{s[i]}
  {
    var x, y, mid := s[i], s[|s| - 1], s[i + 1..|s| - 1];
    assert s[i..] == [x] + mid + [y];
    assert r[i..] == [y] + mid;
    assert r == s[..i] + r[i..];
    assert s == s[..i] + s[i..];
    SwappedBag(s[..i], x, mid, y, s[i..], r[i..], s, r);
  }

  /** The bag identity behind `SwapRemoveInner`, on the pieces of the sequences. */
  lemma SwappedBag<T>(a: seq<T>, x: T, mid: seq<T>, y: T, st: seq<T>, rt: seq<T>, s: seq<T>, r: seq<T>)
    requires st == [x] + mid + [y] && rt == [y] + mid
    requires s == a + st && r == a + rt
    ensures multiset(rt) == multiset(st) - multiset{x}
    ensures multiset(r) == multiset(s) - multiset{x}
  {
    assert multiset(st) == multiset{x} + multiset(mid) + multiset{y};
    assert multiset(rt) == multiset{y} + multiset(mid);
  }

  /** `Vec::swap(i, j)`. */
  function Swap<T>(s: seq<T>, i: nat, j: nat): (r: seq<T>)
    requires i < |s| && j < |s|
    ensures |r| == |s| && r[i] == s[j] && r[j] == s[i]
    ensures forall k :: 0 <= k < |s| && k != i && k != j ==> r[k] == s[k]
  {
    s[i := s[j]][j := s[i]]
  }

  /**
   * Taking element `i` out with `swap_remove`, pushing `x` and swapping it back
   * into slot `i` replaces element `i` by `x` and leaves the order of the rest alone.
   */
  lemma SwapRemovePushSwap<T>(s: seq<T>, i: nat, x: T)
    requires i < |s|
    ensures Swap(SwapRemove(s, i) + [x], i, |s| - 1) == s[i := x]
  {
  }

  /**
   * The spawn of `process_branching`: when the element taken out of slot `i`
   * is pushed back after `c` and swapped home, `c` ends up just before the
   * old last element (or last, when `i` was the last slot) and nothing else moves.
   */
  lemma SwapRemoveReinsert<T>(s: seq<T>, i: nat, c: T)
    requires i < |s|
    ensures Swap(SwapRemove(s, i) + [c, s[i]], i, |s|) ==
      if i < |s| - 1 then s[..|s| - 1] + [c, s[|s| - 1]] else s + [c]
  {
  }
}
