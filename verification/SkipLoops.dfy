/** The loops over the layers that carry an insertion and a deletion through a whole skip list. */
module SkipLoops {
  import opened Layers
  import opened Sequences
  import opened SkipLinks
  import opened SkipNodes

  /** Every node of `ns` has as many layers as its height says. */
  ghost predicate Shaped(ns: seq<SkipNode>)
    reads ns
  {
    forall n | n in ns :: |n.layers| == n.height
  }

  /** The layers `lo`, ..., `hi - 1` are what the list `ns` asks for. */
  ghost predicate LayersOk(ns: seq<SkipNode>, lo: int, hi: int)
    reads ns
  {
    forall j: nat | lo <= j < hi :: LayerOk(ns, j)
  }

  /** On the layers from `top` on, `head` has no neighbours. */
  ghost predicate NilAbove(head: SkipNode, top: int)
    reads head
  {
    forall j | 0 <= top <= j < |head.layers| :: head.layers[j].next == null && head.layers[j].prev == null
  }

  /** The recorded path: on every layer below `top`, the node before position `p`. */
  ghost predicate Path(ns: seq<SkipNode>, p: nat, top: nat, before: seq<SkipNode?>) {
    0 < p <= |ns| && top <= ns[0].height && top <= |before|
    && forall j | 0 <= j < top :: before[j] == ns[BeforeAt(ns, j, p)]
  }

  /** The ranks of that path. */
  ghost predicate RankPath(ns: seq<SkipNode>, p: nat, top: nat, rank: seq<int>) {
    0 < p <= |ns| && top <= ns[0].height && top <= |rank|
    && forall j | 0 <= j < top :: rank[j] == BeforeAt(ns, j, p)
  }

  /** On a new layer that only the head reaches, the path stays at the head. */
  lemma PathUp(ns: seq<SkipNode>, p: nat, top: nat, before: seq<SkipNode?>, rank: seq<int>)
    requires Path(ns, p, top, before) && RankPath(ns, p, top, rank)
    requires top < ns[0].height && top < |before| && top < |rank|
    requires forall k | 1 <= k < |ns| :: ns[k].height <= top
    ensures Path(ns, p, top + 1, before[top := ns[0]]) && RankPath(ns, p, top + 1, rank[top := 0])
  {
    EmptyLayer(ns, top);
    hide AfterAt, BeforeAt;
  }

  /** Links the new node into each of its layers. */
  method SpliceAll(ghost ns: seq<SkipNode>, ghost p: nat, node: SkipNode, before: array<SkipNode?>, rank: array<int>, ghost top: nat)
    requires 0 < p <= |ns| && Distinct(ns) && node !in ns && 1 <= node.height <= top <= ns[0].height
    requires Shaped(ns) && |node.layers| == node.height && NilAbove(ns[0], top)
    requires top <= before.Length && top <= rank.Length
    requires LayersOk(ns, 0, top)
    requires Path(ns, p, top, before[..]) && RankPath(ns, p, top, rank[..]) && rank[0] == p - 1
    modifies ns, node
    ensures Shaped(ns) && |node.layers| == node.height && NilAbove(ns[0], top)
    ensures LayersOk(Put(ns, p, node), 0, node.height)
    ensures LayersOk(ns, node.height, top)
  {
    hide Before, After, Put, Distinct, BeforeAt, LayerOk;
    var i := 0;
    while i < node.height
      invariant 0 <= i <= node.height
      invariant Shaped(ns) && |node.layers| == node.height && NilAbove(ns[0], top)
      invariant LayersOk(Put(ns, p, node), 0, i)
      invariant LayersOk(ns, i, top)
    {
      assert before[i] == before[..][i] && rank[i] == rank[..][i];
      label L:
      SpliceLayer(ns, p, i, before[i], node, rank[0] - rank[i]);
      forall j | i < j < top
        ensures LayerOk(ns, j)
      {
        KeepsLayer@L(ns, i, j);
      }
      forall j | 0 <= j < i
        ensures LayerOk(Put(ns, p, node), j)
      {
        KeepsLayer@L(Put(ns, p, node), i, j);
      }
      assert ns[0] in ns;
      i := i + 1;
    }
  }

  /** Widens the spans that pass over the new node. */
  method WidenAll(ghost ns: seq<SkipNode>, ghost p: nat, node: SkipNode, before: array<SkipNode?>, top: nat)
    requires 0 < p <= |ns| && Distinct(ns) && node !in ns && 1 <= node.height <= top <= ns[0].height
    requires Shaped(ns) && |node.layers| == node.height && NilAbove(ns[0], top)
    requires top <= before.Length
    requires LayersOk(Put(ns, p, node), 0, node.height)
    requires LayersOk(ns, node.height, top)
    requires Path(ns, p, top, before[..])
    modifies ns
    ensures Shaped(ns) && |node.layers| == node.height && NilAbove(ns[0], top)
    ensures LayersOk(Put(ns, p, node), 0, top)
  {
    hide Before, After, Put, Distinct, BeforeAt, LayerOk;
    var i := node.height;
    while i < top
      invariant node.height <= i <= top
      invariant Shaped(ns) && |node.layers| == node.height && NilAbove(ns[0], top)
      invariant LayersOk(Put(ns, p, node), 0, i)
      invariant LayersOk(ns, i, top)
    {
      assert before[i] == before[..][i];
      label L:
      WidenSpan(ns, p, i, before[i], node);
      forall j | i < j < top
        ensures LayerOk(ns, j)
      {
        KeepsLayer@L(ns, i, j);
      }
      forall j | 0 <= j < i
        ensures LayerOk(Put(ns, p, node), j)
      {
        KeepsLayer@L(Put(ns, p, node), i, j);
      }
      assert ns[0] in ns;
      i := i + 1;
    }
  }

  /** Takes `node` out of every layer below `top`, or narrows the span that passes over it. */
  method UnspliceAll(ghost rest: seq<SkipNode>, ghost p: nat, node: SkipNode, before: array<SkipNode?>, top: nat)
    requires 0 < p <= |rest| && Distinct(rest) && node !in rest && 1 <= node.height <= top <= rest[0].height
    requires Shaped(rest) && |node.layers| == node.height && NilAbove(rest[0], top)
    requires top <= before.Length
    requires LayersOk(Put(rest, p, node), 0, top)
    requires forall j | node.height <= j < top :: before[j] == rest[BeforeAt(rest, j, p)]
    modifies rest
    ensures Shaped(rest) && NilAbove(rest[0], top)
    ensures LayersOk(rest, 0, top)
  {
    hide Before, After, Put, Distinct, BeforeAt, LayerOk;
    var i := 0;
    while i < top
      invariant 0 <= i <= top
      invariant Shaped(rest) && |node.layers| == node.height && NilAbove(rest[0], top)
      invariant LayersOk(Put(rest, p, node), i, top)
      invariant LayersOk(rest, 0, i)
    {
      label L:
      if |node.layers| > i {
        UnspliceLayer(rest, p, i, node);
      } else {
        NarrowSpan(rest, p, i, before[i], node);
      }
      forall j | i < j < top
        ensures LayerOk(Put(rest, p, node), j)
      {
        KeepsLayer@L(Put(rest, p, node), i, j);
      }
      forall j | 0 <= j < i
        ensures LayerOk(rest, j)
      {
        KeepsLayer@L(rest, i, j);
      }
      assert rest[0] in rest;
      i := i + 1;
    }
  }
}
