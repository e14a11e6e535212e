/** Linking a node into one layer of a skip list, and out of it. */
module SkipLinks {
  import opened Layers
  import opened Sequences
  import opened SkipNodes

  /** Apart from layer `i`, node `n` is as it was. */
  twostate predicate OnlyLayer(n: SkipNode, i: nat)
    reads n
  {
    |n.layers| == |old(n.layers)|
    && forall j | 0 <= j < |n.layers| && j != i :: n.layers[j] == old(n.layers[j])
  }

  /** Layer `i` right after the pointer surgery around position `p`, in terms of the list before it. */
  ghost predicate Spliced(ns: seq<SkipNode>, p: nat, node: SkipNode, i: nat)
    requires 0 < p <= |ns| && i < ns[0].height
    reads ns, node
  {
    var b := BeforeAt(ns, i, p);
    var a := AfterAt(ns, i, b);
    && i < |node.layers|
    && node.layers[i] == Layer(NodeAt(ns, a), ns[b], SpanTo(|ns|, b, a) - (p - 1 - b))
    && forall k | OnLayer(ns, i, k) ::
        i < |ns[k].layers| && ns[k].layers[i] ==
          (if k == b then LayerAt(ns, i, k).(next := node, span := p - b)
           else if k == a then LayerAt(ns, i, k).(prev := node)
           else LayerAt(ns, i, k))
  }

  lemma SplicedAt(ns: seq<SkipNode>, p: nat, node: SkipNode, i: nat, k: nat)
    requires 0 < p <= |ns| && i < ns[0].height && i < node.height
    requires OnLayer(ns, i, k) && Spliced(ns, p, node, i)
    ensures OnLayer(Put(ns, p, node), i, Shift(p, k))
    ensures i < |ns[k].layers| && ns[k].layers[i] == LayerAt(Put(ns, p, node), i, Shift(p, k))
  {
    hide Before, After, Put;
    var b := BeforeAt(ns, i, p);
    if k == b {
      PutPredecessor(ns, p, node, i);
    } else if k == AfterAt(ns, i, b) {
      PutSuccessor(ns, p, node, i);
    } else {
      PutElsewhere(ns, p, node, i, k);
    }
  }

  lemma SplicedSelf(ns: seq<SkipNode>, p: nat, node: SkipNode, i: nat)
    requires 0 < p <= |ns| && i < ns[0].height && i < node.height
    requires Spliced(ns, p, node, i)
    ensures OnLayer(Put(ns, p, node), i, p)
    ensures LayerAt(Put(ns, p, node), i, p) == node.layers[i]
  {
    PutSelf(ns, p, node, i);
  }

  lemma SplicedIsOk(ns: seq<SkipNode>, p: nat, node: SkipNode, i: nat)
    requires 0 < p <= |ns| && i < ns[0].height && i < node.height
    requires Spliced(ns, p, node, i)
    ensures LayerOk(Put(ns, p, node), i)
  {
    hide Put, AfterAt, BeforeAt, LayerAt;
    var m := Put(ns, p, node);
    forall k | OnLayer(m, i, k)
      ensures i < |m[k].layers| && m[k].layers[i] == LayerAt(m, i, k)
    {
      PutKeeps(ns, p, node, 0);
      if k == p {
        SplicedSelf(ns, p, node, i);
      } else {
        var o := if k < p then k else k - 1;
        PutKeeps(ns, p, node, o);
        SplicedAt(ns, p, node, i, o);
      }
    }
  }

  /** Apart from layer `i`, all of `ns` is as it was. */
  twostate predicate OnlyLayerOf(ns: seq<SkipNode>, i: nat)
    reads ns
  {
    forall n | n in ns :: OnlyLayer(n, i)
  }

  twostate lemma KeepsLayer(ns: seq<SkipNode>, new i: nat, new j: nat)
    requires OnlyLayerOf(ns, i) && i != j && old(LayerOk(ns, j))
    ensures LayerOk(ns, j)
  {
    hide AfterAt, BeforeAt, LayerAt;
    forall k | OnLayer(ns, j, k)
      ensures j < |ns[k].layers| && ns[k].layers[j] == LayerAt(ns, j, k)
    {
      assert OnlyLayer(ns[k], i);
    }
  }

  /** The pointer surgery of one layer: `node` goes between `before` and its successor. */
  method Relink(i: nat, before: SkipNode, node: SkipNode, next: SkipNode?, ahead: int)
    requires i < |before.layers| && i < |node.layers| && before != node && next != before && next != node
    requires next == before.layers[i].next && (next != null ==> i < |next.layers|)
    modifies before, node, next
    ensures node.layers == old(node.layers)[i := Layer(next, before, old(before.layers[i]).span - ahead)]
    ensures before.layers == old(before.layers)[i := old(before.layers[i]).(next := node, span := ahead + 1)]
    ensures next != null ==> next.layers == old(next.layers)[i := old(next.layers[i]).(prev := node)]
  {
    node.SetNext(i, next);
    node.SetPrev(i, before);
    if next != null {
      next.SetPrev(i, node);
    }
    before.SetNext(i, node);
    node.SetSpan(i, before.layers[i].span - ahead);
    before.SetSpan(i, ahead + 1);
  }

  lemma DistinctAt(ns: seq<SkipNode>, a: nat, k: nat)
    requires Distinct(ns) && a < |ns| && k < |ns|
    ensures ns[a] == ns[k] <==> a == k
  {
  }

  /** The successor of the node before position `p`, as the heap has it. */
  lemma NextAround(ns: seq<SkipNode>, p: nat, i: nat)
    requires 0 < p <= |ns| && Distinct(ns) && i < ns[0].height && LayerOk(ns, i)
    ensures var b := BeforeAt(ns, i, p); var a := AfterAt(ns, i, b);
      && OnLayer(ns, i, b) && i < |ns[b].layers|
      && ns[b].layers[i].next == NodeAt(ns, a) && ns[b].layers[i].span == SpanTo(|ns|, b, a)
      && NodeAt(ns, a) != ns[b]
      && (a < |ns| ==> OnLayer(ns, i, a) && i < |ns[a].layers|)
  {
    hide Before, After;
    var b := BeforeAt(ns, i, p);
    var a := AfterAt(ns, i, b);
    assert OnLayer(ns, i, b);
    if a < |ns| {
      DistinctAt(ns, a, b);
      assert OnLayer(ns, i, a);
    }
  }

  lemma RelinkSplices(ns: seq<SkipNode>, p: nat, i: nat, node: SkipNode)
    requires 0 < p <= |ns| && Distinct(ns) && i < ns[0].height && i < |node.layers|
    requires var b := BeforeAt(ns, i, p);
      var a := AfterAt(ns, i, b);
      && OnLayer(ns, i, b)
      && node.layers[i] == Layer(NodeAt(ns, a), ns[b], SpanTo(|ns|, b, a) - (p - 1 - b))
      && i < |ns[b].layers| && ns[b].layers[i] == LayerAt(ns, i, b).(next := node, span := p - b)
      && (a < |ns| ==>
            OnLayer(ns, i, a) && i < |ns[a].layers| && ns[a].layers[i] == LayerAt(ns, i, a).(prev := node))
      && forall k | OnLayer(ns, i, k) && ns[k] != ns[b] && ns[k] != NodeAt(ns, a) ::
          i < |ns[k].layers| && ns[k].layers[i] == LayerAt(ns, i, k)
    ensures Spliced(ns, p, node, i)
  {
    hide Before, After, Distinct;
    var b := BeforeAt(ns, i, p);
    var a := AfterAt(ns, i, b);
    forall k | OnLayer(ns, i, k)
      ensures i < |ns[k].layers| && ns[k].layers[i] ==
          (if k == b then LayerAt(ns, i, k).(next := node, span := p - b)
           else if k == a then LayerAt(ns, i, k).(prev := node)
           else LayerAt(ns, i, k))
    {
      DistinctAt(ns, b, k);
      if a < |ns| {
        DistinctAt(ns, a, k);
      }
    }
  }

  /** Links `node` into layer `i` between `before` and its successor. */
  method SpliceLayer(ghost ns: seq<SkipNode>, ghost p: nat, i: nat, before: SkipNode, node: SkipNode, ahead: int)
    requires 0 < p <= |ns| && Distinct(ns) && node !in ns
    requires i < node.height == |node.layers| && i < ns[0].height
    requires LayerOk(ns, i)
    requires before == ns[BeforeAt(ns, i, p)] && ahead == p - 1 - BeforeAt(ns, i, p)
    modifies ns, node
    ensures LayerOk(Put(ns, p, node), i)
    ensures OnlyLayer(node, i)
    ensures forall n | n in ns :: OnlyLayer(n, i)
  {
    hide Before, After, Put, Distinct, Spliced;
    NextAround(ns, p, i);
    var next := before.layers[i].next;
    Relink(i, before, node, next, ahead);
    RelinkSplices(ns, p, i, node);
    SplicedIsOk(ns, p, node, i);
  }

  /** What is left on layer `i` once the node at position `p` is bypassed. */
  lemma Bypassed(rest: seq<SkipNode>, p: nat, node: SkipNode, i: nat, k: nat)
    requires 0 < p <= |rest| && OnLayer(rest, i, k) && i < node.height
    ensures var m := Put(rest, p, node);
      var b := BeforeAt(rest, i, p);
      var a := AfterAt(rest, i, b);
      && OnLayer(m, i, p) && OnLayer(m, i, b) && OnLayer(m, i, Shift(p, k)) && OnLayer(rest, i, b)
      && LayerAt(m, i, p).prev == rest[b] && LayerAt(m, i, p).next == NodeAt(rest, a)
      && (a < |rest| ==> OnLayer(rest, i, a))
      && LayerAt(rest, i, k) ==
          (var l := LayerAt(m, i, Shift(p, k));
           if k == b then l.(next := LayerAt(m, i, p).next, span := l.span + LayerAt(m, i, p).span - 1)
           else if k == a then l.(prev := rest[b])
           else l)
  {
    hide Before, After, Put;
    var b := BeforeAt(rest, i, p);
    PutSelf(rest, p, node, i);
    PutPredecessor(rest, p, node, i);
    if AfterAt(rest, i, b) < |rest| {
      PutSuccessor(rest, p, node, i);
    }
    if k != b && k != AfterAt(rest, i, b) {
      PutElsewhere(rest, p, node, i, k);
    } else if k == AfterAt(rest, i, b) {
      AfterBefore(Heights(rest), i, b);
    }
  }

  /** The pointer surgery of one layer: `node`'s neighbours bypass it. */
  method Unlink(i: nat, node: SkipNode)
    requires i < |node.layers|
    requires var l := node.layers[i];
      && l.prev != node && l.next != node && (l.prev != null ==> l.prev != l.next && i < |l.prev.layers|)
      && (l.next != null ==> i < |l.next.layers|)
    modifies node.layers[i].prev, node.layers[i].next
    ensures var l := old(node.layers[i]);
      && (l.prev != null ==>
            l.prev.layers == old(l.prev.layers)[i :=
              old(l.prev.layers[i]).(next := l.next, span := old(l.prev.layers[i].span) + l.span - 1)])
      && (l.next != null ==>
            l.next.layers == old(l.next.layers)[i := old(l.next.layers[i]).(prev := l.prev)])
  {
    var l := node.layers[i];
    if l.prev != null {
      l.prev.SetNext(i, l.next);
      l.prev.SetSpan(i, l.prev.layers[i].span + (l.span - 1));
    }
    if l.next != null {
      l.next.SetPrev(i, l.prev);
    }
  }

  /** An old node reads the same through the list that has `node` in it. */
  lemma ThroughPut(rest: seq<SkipNode>, p: nat, node: SkipNode, i: nat, k: nat)
    requires 0 < p <= |rest| && OnLayer(rest, i, k) && LayerOk(Put(rest, p, node), i)
    ensures var m := Put(rest, p, node);
      OnLayer(m, i, Shift(p, k)) && i < |rest[k].layers| && rest[k].layers[i] == LayerAt(m, i, Shift(p, k))
  {
    PutKeeps(rest, p, node, 0);
    PutKeeps(rest, p, node, k);
    assert OnLayer(Put(rest, p, node), i, Shift(p, k));
  }

  lemma SelfThroughPut(rest: seq<SkipNode>, p: nat, node: SkipNode, i: nat)
    requires 0 < p <= |rest| && i < rest[0].height && i < node.height && LayerOk(Put(rest, p, node), i)
    ensures var m := Put(rest, p, node);
      OnLayer(m, i, p) && i < |node.layers| && node.layers[i] == LayerAt(m, i, p)
  {
    PutKeeps(rest, p, node, 0);
    assert OnLayer(Put(rest, p, node), i, p);
  }

  lemma UnlinkedIsOk(rest: seq<SkipNode>, p: nat, i: nat, node: SkipNode)
    requires 0 < p <= |rest| && Distinct(rest) && i < rest[0].height && i < node.height
    requires OnLayer(Put(rest, p, node), i, p)
    requires var m := Put(rest, p, node);
      var b := BeforeAt(rest, i, p);
      var a := AfterAt(rest, i, b);
      var self := LayerAt(m, i, p);
      && OnLayer(m, i, b) && i < |rest[b].layers|
      && rest[b].layers[i] == LayerAt(m, i, b).(next := self.next, span := LayerAt(m, i, b).span + self.span - 1)
      && (a < |rest| ==>
            OnLayer(m, i, a + 1) && i < |rest[a].layers| && rest[a].layers[i] == LayerAt(m, i, a + 1).(prev := rest[b]))
      && forall k | OnLayer(rest, i, k) && rest[k] != rest[b] && rest[k] != NodeAt(rest, a) ::
          OnLayer(m, i, Shift(p, k)) && i < |rest[k].layers| && rest[k].layers[i] == LayerAt(m, i, Shift(p, k))
    ensures LayerOk(rest, i)
  {
    hide Before, After, Put, Distinct;
    var b := BeforeAt(rest, i, p);
    var a := AfterAt(rest, i, b);
    forall k | OnLayer(rest, i, k)
      ensures i < |rest[k].layers| && rest[k].layers[i] == LayerAt(rest, i, k)
    {
      Bypassed(rest, p, node, i, k);
      PutNew(Heights(rest), p, node.height, i);
      DistinctAt(rest, b, k);
      if a < |rest| {
        DistinctAt(rest, a, k);
      }
    }
  }

  /** Takes `node` out of layer `i`. */
  method UnspliceLayer(ghost rest: seq<SkipNode>, ghost p: nat, i: nat, node: SkipNode)
    requires 0 < p <= |rest| && Distinct(rest) && node !in rest
    requires i < rest[0].height && i < node.height
    requires LayerOk(Put(rest, p, node), i)
    requires i < |node.layers|
    modifies rest
    ensures LayerOk(rest, i)
    ensures forall n | n in rest :: OnlyLayer(n, i)
  {
    hide Before, After, Put, Distinct, LayerAt;
    ghost var b := BeforeAt(rest, i, p);
    ghost var a := AfterAt(rest, i, b);
    SelfThroughPut(rest, p, node, i);
    assert OnLayer(rest, i, b);
    Bypassed(rest, p, node, i, b);
    ThroughPut(rest, p, node, i, b);
    PutNew(Heights(rest), p, node.height, i);
    if a < |rest| {
      ThroughPut(rest, p, node, i, a);
      DistinctAt(rest, a, b);
    }
    forall k | OnLayer(rest, i, k)
      ensures OnLayer(Put(rest, p, node), i, Shift(p, k))
      ensures i < |rest[k].layers| && rest[k].layers[i] == LayerAt(Put(rest, p, node), i, Shift(p, k))
    {
      ThroughPut(rest, p, node, i, k);
    }
    Unlink(i, node);
    UnlinkedIsOk(rest, p, i, node);
  }

  /** A node that does not reach layer `i` came in at position `p`: the node before it sees one more rank. */
  method WidenSpan(ghost ns: seq<SkipNode>, ghost p: nat, i: nat, before: SkipNode, ghost node: SkipNode)
    requires 0 < p <= |ns| && Distinct(ns) && i < ns[0].height && node.height <= i
    requires LayerOk(ns, i) && before == ns[BeforeAt(ns, i, p)]
    modifies before
    ensures LayerOk(Put(ns, p, node), i)
    ensures OnlyLayer(before, i)
  {
    hide Before, After, Put, Distinct, AfterAt;
    ghost var b := BeforeAt(ns, i, p);
    assert OnLayer(ns, i, b);
    before.SetSpan(i, before.layers[i].span + 1);
    ghost var m := Put(ns, p, node);
    forall k | OnLayer(m, i, k)
      ensures i < |m[k].layers| && m[k].layers[i] == LayerAt(m, i, k)
    {
      PutKeeps(ns, p, node, 0);
      var o := if k < p then k else k - 1;
      PutKeeps(ns, p, node, o);
      PutAbove(ns, p, node, i, o);
      DistinctAt(ns, b, o);
    }
  }

  /** A node that does not reach layer `i` went away: the node before it sees one rank less. */
  method NarrowSpan(ghost rest: seq<SkipNode>, ghost p: nat, i: nat, before: SkipNode, ghost node: SkipNode)
    requires 0 < p <= |rest| && Distinct(rest) && i < rest[0].height && node.height <= i
    requires LayerOk(Put(rest, p, node), i) && before == rest[BeforeAt(rest, i, p)]
    modifies before
    ensures LayerOk(rest, i)
    ensures OnlyLayer(before, i)
  {
    hide Before, After, Put, Distinct, AfterAt;
    ghost var b := BeforeAt(rest, i, p);
    assert OnLayer(rest, i, b);
    forall k | OnLayer(rest, i, k)
      ensures i < |rest[k].layers| && rest[k].layers[i] ==
        (var l := LayerAt(rest, i, k); if k == b then l.(span := l.span + 1) else l)
    {
      ThroughPut(rest, p, node, i, k);
      PutAbove(rest, p, node, i, k);
    }
    before.SetSpan(i, before.layers[i].span - 1);
    forall k | OnLayer(rest, i, k)
      ensures i < |rest[k].layers| && rest[k].layers[i] == LayerAt(rest, i, k)
    {
      DistinctAt(rest, b, k);
    }
  }
}
