/** The nodes of the skip list and what the fields of a well-formed list must be. */
module SkipNodes {
  import opened Layers
  import opened RankOrder
  import opened Sequences

  const MAX_LAYER: nat := 32

  /** One level of a node: its neighbours there and how many ranks ahead the next one is. */
  datatype Layer = Layer(next: SkipNode?, prev: SkipNode?, span: int)

  class SkipNode {
    const height: nat
    const value: RankItem?
    var layers: seq<Layer>

    constructor (height: nat, value: RankItem?)
      ensures this.height == height && this.value == value
      ensures layers == seq(height, _ => Layer(null, null, 0))
    {
      this.height := height;
      this.value := value;
      layers := seq(height, _ => Layer(null, null, 0));
    }

    method SetNext(i: nat, n: SkipNode?)
      requires i < |layers|
      modifies this
      ensures layers == old(layers)[i := old(layers[i]).(next := n)]
    {
      layers := layers[i := layers[i].(next := n)];
    }

    method SetPrev(i: nat, n: SkipNode?)
      requires i < |layers|
      modifies this
      ensures layers == old(layers)[i := old(layers[i]).(prev := n)]
    {
      layers := layers[i := layers[i].(prev := n)];
    }

    method SetSpan(i: nat, s: int)
      requires i < |layers|
      modifies this
      ensures layers == old(layers)[i := old(layers[i]).(span := s)]
    {
      layers := layers[i := layers[i].(span := s)];
    }
  }

  ghost function Heights(ns: seq<SkipNode>): (hs: seq<nat>)
    ensures |hs| == |ns|
  {
    seq(|ns|, k requires 0 <= k < |ns| => ns[k].height)
  }

  /** Whether layer `i` is one the node at position `k` takes part in. */
  ghost predicate OnLayer(ns: seq<SkipNode>, i: int, k: int) {
    0 <= i && 0 <= k < |ns| && i < ns[0].height && i < ns[k].height
  }

  ghost function AfterAt(ns: seq<SkipNode>, i: nat, k: nat): (a: nat)
    requires k < |ns|
    ensures k < a <= |ns|
  {
    After(Heights(ns), i, k)
  }

  ghost function BeforeAt(ns: seq<SkipNode>, i: nat, k: nat): (b: nat)
    requires 0 < k <= |ns| && i < ns[0].height
    ensures b < k && i < ns[b].height
  {
    Before(Heights(ns), i, k)
  }

  /** The node at position `a`, nil past the end. */
  ghost function NodeAt(ns: seq<SkipNode>, a: nat): SkipNode? {
    if a < |ns| then ns[a] else null
  }

  /** The span from position `k` to `a`: ranks to the next node, or nodes remaining if there is none. */
  ghost function SpanTo(len: nat, k: nat, a: nat): int {
    if a < len then a - k else len - 1 - k
  }

  /** What layer `i` of the node at position `k` must hold. */
  ghost function LayerAt(ns: seq<SkipNode>, i: nat, k: nat): Layer
    requires OnLayer(ns, i, k)
  {
    Layer(NodeAt(ns, AfterAt(ns, i, k)),
          if k == 0 then null else ns[BeforeAt(ns, i, k)],
          SpanTo(|ns|, k, AfterAt(ns, i, k)))
  }

  ghost predicate LayerOk(ns: seq<SkipNode>, i: nat)
    reads ns
  {
    forall k | OnLayer(ns, i, k) :: i < |ns[k].layers| && ns[k].layers[i] == LayerAt(ns, i, k)
  }

  lemma HeightsPut(ns: seq<SkipNode>, p: nat, n: SkipNode)
    requires p <= |ns|
    ensures Heights(Put(ns, p, n)) == Put(Heights(ns), p, n.height)
  {
  }

  /** Old positions find the same node at their shifted place. */
  lemma NodePut(ns: seq<SkipNode>, p: nat, n: SkipNode, a: nat)
    requires p <= |ns| && a <= |ns|
    ensures NodeAt(Put(ns, p, n), Shift(p, a)) == NodeAt(ns, a)
    ensures NodeAt(Put(ns, p, n), p) == n
  {
    PutKeeps(ns, p, n, a);
  }

  /** What the new list asks of the new node. */
  lemma PutSelf(ns: seq<SkipNode>, p: nat, n: SkipNode, i: nat)
    requires 0 < p <= |ns| && i < ns[0].height && i < n.height
    ensures var b := BeforeAt(ns, i, p);
      && OnLayer(Put(ns, p, n), i, p)
      && LayerAt(Put(ns, p, n), i, p) == Layer(LayerAt(ns, i, b).next, ns[b], LayerAt(ns, i, b).span - (p - 1 - b))
  {
    hide Before, After, Put;
    HeightsPut(ns, p, n);
    PutNew(Heights(ns), p, n.height, i);
    NodePut(ns, p, n, 0);
    NodePut(ns, p, n, BeforeAt(ns, i, p));
    NodePut(ns, p, n, AfterAt(ns, i, BeforeAt(ns, i, p)));
  }

  /** What the new list asks of the node before it. */
  lemma PutPredecessor(ns: seq<SkipNode>, p: nat, n: SkipNode, i: nat)
    requires 0 < p <= |ns| && i < ns[0].height && i < n.height
    ensures var b := BeforeAt(ns, i, p);
      && OnLayer(Put(ns, p, n), i, b)
      && LayerAt(Put(ns, p, n), i, b) == LayerAt(ns, i, b).(next := n, span := p - b)
  {
    hide Before, After, Put;
    HeightsPut(ns, p, n);
    var hs := Heights(ns);
    PutNew(hs, p, n.height, i);
    var b := BeforeAt(ns, i, p);
    NodePut(ns, p, n, 0);
    NodePut(ns, p, n, b);
    if b > 0 {
      PutBefore(hs, p, n.height, i, b);
      NodePut(ns, p, n, BeforeAt(ns, i, b));
    }
  }

  /** What the new list asks of the node after it. */
  lemma PutSuccessor(ns: seq<SkipNode>, p: nat, n: SkipNode, i: nat)
    requires 0 < p <= |ns| && i < ns[0].height && i < n.height
    requires AfterAt(ns, i, BeforeAt(ns, i, p)) < |ns|
    ensures var a := AfterAt(ns, i, BeforeAt(ns, i, p));
      && p <= a && OnLayer(ns, i, a) && OnLayer(Put(ns, p, n), i, a + 1)
      && LayerAt(Put(ns, p, n), i, a + 1) == LayerAt(ns, i, a).(prev := n)
  {
    hide Before, After, Put;
    HeightsPut(ns, p, n);
    var hs := Heights(ns);
    var a := AfterAt(ns, i, BeforeAt(ns, i, p));
    PutNew(hs, p, n.height, i);
    PutBeforeNext(hs, p, n.height, i);
    PutAfter(hs, p, n.height, i, a);
    NodePut(ns, p, n, 0);
    NodePut(ns, p, n, a);
    NodePut(ns, p, n, AfterAt(ns, i, a));
  }

  /** On the new node's layers everybody else keeps what it has. */
  lemma PutElsewhere(ns: seq<SkipNode>, p: nat, n: SkipNode, i: nat, k: nat)
    requires 0 < p <= |ns| && OnLayer(ns, i, k) && i < n.height
    requires k != BeforeAt(ns, i, p) && k != AfterAt(ns, i, BeforeAt(ns, i, p))
    ensures OnLayer(Put(ns, p, n), i, Shift(p, k))
    ensures LayerAt(Put(ns, p, n), i, Shift(p, k)) == LayerAt(ns, i, k)
  {
    hide Before, After, Put;
    HeightsPut(ns, p, n);
    var hs := Heights(ns);
    PutAfter(hs, p, n.height, i, k);
    NodePut(ns, p, n, 0);
    NodePut(ns, p, n, k);
    NodePut(ns, p, n, AfterAt(ns, i, k));
    if k > 0 {
      PutBefore(hs, p, n.height, i, k);
      NodePut(ns, p, n, BeforeAt(ns, i, k));
    }
  }

  /** Above the new node only the node before its position changes: its span grows by one. */
  lemma PutAbove(ns: seq<SkipNode>, p: nat, n: SkipNode, i: nat, k: nat)
    requires 0 < p <= |ns| && OnLayer(ns, i, k) && n.height <= i
    ensures OnLayer(Put(ns, p, n), i, Shift(p, k))
    ensures var l := LayerAt(ns, i, k);
      LayerAt(Put(ns, p, n), i, Shift(p, k)) ==
        if k == BeforeAt(ns, i, p) then l.(span := l.span + 1) else l
  {
    hide Before, After, Put;
    HeightsPut(ns, p, n);
    var hs := Heights(ns);
    if k == BeforeAt(ns, i, p) {
      PutAfterAcross(hs, p, n.height, i);
    } else {
      PutAfter(hs, p, n.height, i, k);
    }
    NodePut(ns, p, n, 0);
    NodePut(ns, p, n, k);
    NodePut(ns, p, n, AfterAt(ns, i, k));
    if k > 0 {
      PutBefore(hs, p, n.height, i, k);
      NodePut(ns, p, n, BeforeAt(ns, i, k));
    }
  }

  /** On a layer no listed node reaches, the head sees the end. */
  lemma EmptyLayer(ns: seq<SkipNode>, i: nat)
    requires |ns| > 0 && i < ns[0].height
    requires forall k | 1 <= k < |ns| :: ns[k].height <= i
    ensures LayerAt(ns, i, 0) == Layer(null, null, |ns| - 1)
    ensures forall k | 0 < k <= |ns| :: BeforeAt(ns, i, k) == 0
  {
    AfterIs(Heights(ns), i, 0, |ns|);
    forall k | 0 < k <= |ns|
      ensures BeforeAt(ns, i, k) == 0
    {
      BeforeIs(Heights(ns), i, k, 0);
    }
  }
}
