/**
  The intrusive free-list stack shared by both versions of the slot table.

  The stack is not stored anywhere as a list: it is threaded through the
  `next_free_index` field of the slots. Its top index lives in the packed head
  word, and the table's capacity N serves as the "empty" sentinel. This module
  states, on plain values, what it means for a ghost list of indices to be the
  stack that those links spell out. It also proves the facts both tables need
  about pushing, popping, building the initial chain and counting free slots.
 */
module FreeStack {

  /** No index occurs twice. */
  ghost predicate NoDup(s: seq<nat>) {
    forall j, k :: 0 <= j < k < |s| ==> s[j] != s[k]
  }

  /** `list` is exactly what one reads by starting at `top` and following the
      next-free links of `slots` (read through `next`) until the sentinel
      `|slots|`; every index met on the way is a valid slot index. */
  ghost predicate IsChain<X>(slots: seq<X>, next: X -> nat, top: nat, list: seq<nat>)
    decreases |list|
  {
    if list == [] then top == |slots|
    else top == list[0] && top < |slots| && IsChain(slots, next, next(slots[top]), list[1..])
  }

  /** The indices k, k+1, ..., n-1 in increasing order. */
  function Range(k: nat, n: nat): (r: seq<nat>)
    requires k <= n
  {
    seq(n - k, j => k + j)
  }

  /** The top of a chain is a slot index or the sentinel. */
  lemma ChainTop<X>(slots: seq<X>, next: X -> nat, top: nat, list: seq<nat>)
    requires IsChain(slots, next, top, list)
    ensures top <= |slots|
  {
  }

  /** Every index on a chain is a slot index. */
  lemma {:induction false} ChainInRange<X>(slots: seq<X>, next: X -> nat, top: nat, list: seq<nat>)
    requires IsChain(slots, next, top, list)
    ensures forall j :: 0 <= j < |list| ==> list[j] < |slots|
    decreases |list|
  {
    if list != [] {
      ChainInRange(slots, next, next(slots[top]), list[1..]);
      assert forall j :: 1 <= j < |list| ==> list[j] == list[1..][j - 1];
    }
  }

  /** The links determine the stack: two ghost lists read from the same head
      and the same links are equal. */
  lemma {:induction false} ChainUnique<X>(slots: seq<X>, next: X -> nat, top: nat, l1: seq<nat>, l2: seq<nat>)
    requires IsChain(slots, next, top, l1) && IsChain(slots, next, top, l2)
    ensures l1 == l2
    decreases |l1|
  {
    if l1 != [] && l2 != [] {
      ChainUnique(slots, next, next(slots[top]), l1[1..], l2[1..]);
      assert l1 == [l1[0]] + l1[1..];
      assert l2 == [l2[0]] + l2[1..];
    }
  }

  /** Rewriting slots whose links do not change, or which are not on the
      chain, leaves the chain intact. */
  lemma {:induction false} ChainFrame<X>(slots: seq<X>, slots': seq<X>, next: X -> nat, top: nat, list: seq<nat>)
    requires IsChain(slots, next, top, list)
    requires |slots'| == |slots|
    requires forall j :: 0 <= j < |list| && list[j] < |slots| ==> next(slots'[list[j]]) == next(slots[list[j]])
    ensures IsChain(slots', next, top, list)
    decreases |list|
  {
    if list != [] {
      assert forall j :: 0 <= j < |list[1..]| ==> list[1..][j] == list[j + 1];
      ChainFrame(slots, slots', next, next(slots[top]), list[1..]);
    }
  }

  /** Pushing slot `i` (not on the stack) writes the old top into its link and
      makes it the new top: the stack grows by `i` at the front. */
  lemma PushChain<X>(slots: seq<X>, next: X -> nat, top: nat, list: seq<nat>, i: nat, e: X)
    requires IsChain(slots, next, top, list) && NoDup(list)
    requires i < |slots| && i !in list
    requires next(e) == top
    ensures IsChain(slots[i := e], next, i, [i] + list)
    ensures NoDup([i] + list)
  {
    ChainInRange(slots, next, top, list);
    ChainFrame(slots, slots[i := e], next, top, list);
    assert ([i] + list)[1..] == list;
  }

  /** Popping moves the top to the popped slot's link; what remains is still a
      chain without repetitions. */
  lemma PopChain<X>(slots: seq<X>, next: X -> nat, top: nat, list: seq<nat>)
    requires IsChain(slots, next, top, list) && NoDup(list)
    requires list != []
    ensures top == list[0] && top < |slots|
    ensures IsChain(slots, next, next(slots[top]), list[1..])
    ensures NoDup(list[1..]) && top !in list[1..]
  {
  }

  /** When every slot j links to j + 1, the chain from k is k, k+1, ..., N-1,
      which ends at the sentinel N. */
  lemma {:induction false} InitialChain<X>(slots: seq<X>, next: X -> nat, k: nat)
    requires forall j :: 0 <= j < |slots| ==> next(slots[j]) == j + 1
    requires k <= |slots|
    ensures IsChain(slots, next, k, Range(k, |slots|))
    ensures NoDup(Range(k, |slots|))
    decreases |slots| - k
  {
    if k < |slots| {
      InitialChain(slots, next, k + 1);
      assert Range(k, |slots|)[1..] == Range(k + 1, |slots|);
    }
  }

  /** The number of elements of `xs` satisfying `p`. */
  function CountWhere<X>(xs: seq<X>, p: X -> bool): (n: nat)
    ensures n <= |xs|
    ensures n == |xs| <==> forall j :: 0 <= j < |xs| ==> p(xs[j])
    decreases |xs|
  {
    if xs == [] then 0
    else CountWhere(xs[..|xs| - 1], p) + (if p(xs[|xs| - 1]) then 1 else 0)
  }

  /** The indices below n whose element does not satisfy `p`. */
  ghost function Unmarked<X>(xs: seq<X>, p: X -> bool, n: nat): set<nat>
    requires n <= |xs|
  {
    set i: nat | i < n && !p(xs[i])
  }

  lemma {:induction false} UnmarkedCount<X>(xs: seq<X>, p: X -> bool, n: nat)
    requires n <= |xs|
    ensures |Unmarked(xs, p, n)| + CountWhere(xs[..n], p) == n
    decreases n
  {
    if n > 0 {
      UnmarkedCount(xs, p, n - 1);
      assert xs[..n][..n - 1] == xs[..n - 1];
      if p(xs[n - 1]) {
        assert Unmarked(xs, p, n) == Unmarked(xs, p, n - 1);
      } else {
        assert Unmarked(xs, p, n) == Unmarked(xs, p, n - 1) + {n - 1};
      }
    }
  }

  /** The indices on the stack, as a set. */
  ghost function Elements(s: seq<nat>): set<nat> {
    set x | x in s
  }

  lemma {:induction false} NoDupCard(s: seq<nat>)
    requires NoDup(s)
    ensures |Elements(s)| == |s|
    decreases |s|
  {
    if s == [] {
      assert Elements(s) == {};
    } else {
      var rest := s[1..];
      assert NoDup(rest);
      NoDupCard(rest);
      assert Elements(s) == {s[0]} + Elements(rest);
      assert s[0] !in Elements(rest);
    }
  }

  /** When the stack holds, without repetition, exactly the indices of the
      unoccupied slots, its length plus the number of occupied slots is the
      capacity. */
  lemma FreeCount<X>(xs: seq<X>, occupied: X -> bool, list: seq<nat>)
    requires NoDup(list)
    requires forall i: nat :: i in list <==> i < |xs| && !occupied(xs[i])
    ensures |list| + CountWhere(xs, occupied) == |xs|
  {
    NoDupCard(list);
    assert Elements(list) == Unmarked(xs, occupied, |xs|);
    UnmarkedCount(xs, occupied, |xs|);
    assert xs[..|xs|] == xs;
  }
}
