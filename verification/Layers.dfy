/**
 Which positions of a skip list are neighbours on a layer.

 A list is given by the heights of its nodes, head first.  A node of height `h` takes part in
 the layers 0, ..., h - 1.
 */
module Layers {
  import opened Sequences

  /** Nothing strictly between positions `b` and `a` reaches layer `i`. */
  ghost predicate Gap(hs: seq<nat>, i: nat, b: nat, a: nat) {
    forall m | b < m < a && m < |hs| :: hs[m] <= i
  }

  /** The last position before `k` that is tall enough for layer `i`. */
  ghost function Before(hs: seq<nat>, i: nat, k: nat): (b: nat)
    requires 0 < k <= |hs| && i < hs[0]
    ensures b < k && i < hs[b]
  {
    if i < hs[k - 1] then k - 1 else Before(hs, i, k - 1)
  }

  /** The first position after `k` that is tall enough for layer `i`, or the length if there is none. */
  ghost function After(hs: seq<nat>, i: nat, k: nat): (a: nat)
    requires k < |hs|
    ensures k < a <= |hs|
    ensures a < |hs| ==> i < hs[a]
    decreases |hs| - k
  {
    if k + 1 == |hs| || i < hs[k + 1] then k + 1 else After(hs, i, k + 1)
  }

  lemma {:induction false} BeforeGap(hs: seq<nat>, i: nat, k: nat)
    requires 0 < k <= |hs| && i < hs[0]
    ensures Gap(hs, i, Before(hs, i, k), k)
  {
    if hs[k - 1] <= i {
      BeforeGap(hs, i, k - 1);
    }
  }

  lemma {:induction false} AfterGap(hs: seq<nat>, i: nat, k: nat)
    requires k < |hs|
    ensures Gap(hs, i, k, After(hs, i, k))
    decreases |hs| - k
  {
    if k + 1 < |hs| && hs[k + 1] <= i {
      AfterGap(hs, i, k + 1);
    }
  }

  /** `Before` is the only position with its property. */
  lemma BeforeIs(hs: seq<nat>, i: nat, k: nat, b: nat)
    requires 0 < k <= |hs| && i < hs[0]
    requires b < k && i < hs[b] && Gap(hs, i, b, k)
    ensures Before(hs, i, k) == b
  {
    BeforeGap(hs, i, k);
  }

  /** `After` is the only position with its property. */
  lemma AfterIs(hs: seq<nat>, i: nat, k: nat, a: nat)
    requires k < a <= |hs| && (a < |hs| ==> i < hs[a]) && Gap(hs, i, k, a)
    ensures After(hs, i, k) == a
  {
    AfterGap(hs, i, k);
  }

  /** Neighbours see each other: the successor's predecessor is where one started. */
  lemma AfterBefore(hs: seq<nat>, i: nat, k: nat)
    requires k < |hs| && i < hs[0] && i < hs[k]
    ensures After(hs, i, k) < |hs| ==> Before(hs, i, After(hs, i, k)) == k
  {
    AfterGap(hs, i, k);
    if After(hs, i, k) < |hs| {
      BeforeIs(hs, i, After(hs, i, k), k);
    }
  }

  /** A gap stays a gap unless it swallows a node that reaches the layer. */
  lemma PutGap(hs: seq<nat>, p: nat, h: nat, i: nat, b: nat, a: nat)
    requires p <= |hs| && Gap(hs, i, b, a)
    ensures h <= i || a < p || p <= b ==> Gap(Put(hs, p, h), i, Shift(p, b), Shift(p, a))
    ensures b < p <= a ==> Gap(Put(hs, p, h), i, b, p) && Gap(Put(hs, p, h), i, p, a + 1)
  {
    PutIndex(hs, p, h);
  }

  /** What lies before the new position does not see the new node. */
  lemma BeforePut(hs: seq<nat>, p: nat, h: nat, i: nat)
    requires 0 < p <= |hs| && i < hs[0]
    ensures Put(hs, p, h)[0] == hs[0]
    ensures Before(Put(hs, p, h), i, p) == Before(hs, i, p)
  {
    var b := Before(hs, i, p);
    BeforeGap(hs, i, p);
    PutKeeps(hs, p, h, 0);
    PutKeeps(hs, p, h, b);
    PutGap(hs, p, h, i, b, p);
    BeforeIs(Put(hs, p, h), i, p, b);
  }

  /** The walk along a layer stops right before position `p`. */
  lemma StopsBefore(hs: seq<nat>, i: nat, r: nat, p: nat)
    requires r < p <= |hs| && i < hs[0] && i < hs[r]
    requires p <= After(hs, i, r)
    ensures Before(hs, i, p) == r
  {
    AfterGap(hs, i, r);
    BeforeIs(hs, i, p, r);
  }

  /** On a layer of the new node, it comes between the two nodes around its position. */
  lemma PutNew(hs: seq<nat>, p: nat, h: nat, i: nat)
    requires 0 < p <= |hs| && i < hs[0] && i < h
    ensures var r, b := Put(hs, p, h), Before(hs, i, p);
      && p <= After(hs, i, b)
      && r[b] == hs[b] && r[0] == hs[0] && After(r, i, b) == p
      && After(r, i, p) == After(hs, i, b) + 1
      && Before(r, i, p) == b
  {
    hide Put;
    var r, b := Put(hs, p, h), Before(hs, i, p);
    BeforeGap(hs, i, p);
    var a := After(hs, i, b);
    AfterGap(hs, i, b);
    PutKeeps(hs, p, h, 0);
    PutKeeps(hs, p, h, a);
    PutKeeps(hs, p, h, b);
    PutGap(hs, p, h, i, b, a);
    AfterIs(r, i, b, p);
    BeforeIs(r, i, p, b);
    AfterIs(r, i, p, a + 1);
  }

  /** An old node whose successor lies on its own side of the new node keeps that successor. */
  lemma PutAfter(hs: seq<nat>, p: nat, h: nat, i: nat, k: nat)
    requires 0 < p <= |hs| && i < hs[0]
    requires k < |hs| && i < hs[k] && k != Before(hs, i, p)
    ensures After(hs, i, k) < p || p <= k
    ensures After(Put(hs, p, h), i, Shift(p, k)) == Shift(p, After(hs, i, k))
  {
    var a := After(hs, i, k);
    AfterGap(hs, i, k);
    PutKeeps(hs, p, h, k);
    PutKeeps(hs, p, h, a);
    if k < p <= a {
      BeforeIs(hs, i, p, k);
    }
    PutGap(hs, p, h, i, k, a);
    AfterIs(Put(hs, p, h), i, Shift(p, k), Shift(p, a));
  }

  /** On a layer above the new node, the node before its position keeps its successor. */
  lemma PutAfterAcross(hs: seq<nat>, p: nat, h: nat, i: nat)
    requires 0 < p <= |hs| && i < hs[0] && h <= i
    ensures var b := Before(hs, i, p);
      p <= After(hs, i, b) && After(Put(hs, p, h), i, b) == After(hs, i, b) + 1
  {
    var b := Before(hs, i, p);
    var a := After(hs, i, b);
    BeforeGap(hs, i, p);
    AfterGap(hs, i, b);
    PutKeeps(hs, p, h, b);
    PutKeeps(hs, p, h, a);
    PutGap(hs, p, h, i, b, a);
    AfterIs(Put(hs, p, h), i, b, a + 1);
  }

  /** The node after the new node's position now has the new node before it. */
  lemma PutBeforeNext(hs: seq<nat>, p: nat, h: nat, i: nat)
    requires 0 < p <= |hs| && i < hs[0] && i < h
    requires After(hs, i, Before(hs, i, p)) < |hs|
    ensures Put(hs, p, h)[0] == hs[0]
    ensures Before(Put(hs, p, h), i, After(hs, i, Before(hs, i, p)) + 1) == p
  {
    var b := Before(hs, i, p);
    var a := After(hs, i, b);
    BeforeGap(hs, i, p);
    AfterGap(hs, i, b);
    PutKeeps(hs, p, h, 0);
    PutKeeps(hs, p, h, a);
    PutGap(hs, p, h, i, b, a);
    BeforeIs(Put(hs, p, h), i, a + 1, p);
  }

  /** Every other old node keeps its predecessor. */
  lemma PutBefore(hs: seq<nat>, p: nat, h: nat, i: nat, k: nat)
    requires 0 < p <= |hs| && i < hs[0]
    requires 0 < k < |hs| && i < hs[k]
    requires h <= i || k != After(hs, i, Before(hs, i, p))
    ensures Put(hs, p, h)[0] == hs[0]
    ensures Before(Put(hs, p, h), i, Shift(p, k)) == Shift(p, Before(hs, i, k))
  {
    var q := Before(hs, i, k);
    BeforeGap(hs, i, k);
    PutKeeps(hs, p, h, 0);
    PutKeeps(hs, p, h, k);
    PutKeeps(hs, p, h, q);
    if q < p <= k {
      BeforeIs(hs, i, p, q);
      AfterIs(hs, i, q, k);
    }
    PutGap(hs, p, h, i, q, k);
    BeforeIs(Put(hs, p, h), i, Shift(p, k), Shift(p, q));
  }
}
