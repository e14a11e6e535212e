/** The span-indexed skip list: a sorted sequence with rank queries that skip along spans. */
module SkipLists {
  import opened Layers
  import opened RankOrder
  import opened Sequences
  import opened SkipLinks
  import opened SkipLoops
  import opened SkipNodes

  /** The head carries no value, every listed node does. */
  ghost predicate Valued(ns: seq<SkipNode>) {
    |ns| > 0 && ns[0].value == null && forall k | 1 <= k < |ns| :: ns[k].value != null
  }

  ghost predicate HeightsWithin(ns: seq<SkipNode>, top: nat) {
    forall k | 1 <= k < |ns| :: 1 <= ns[k].height <= top
  }

  /** The nodes are linked as a skip list of at most `top` layers. */
  ghost predicate Linked(ns: seq<SkipNode>, top: nat)
    reads ns
  {
    && Valued(ns) && ns[0].height == MAX_LAYER && 1 <= top <= MAX_LAYER
    && Distinct(ns) && Shaped(ns) && HeightsWithin(ns, top)
    && LayersOk(ns, 0, top) && NilAbove(ns[0], top)
  }

  ghost function ItemsOf(ns: seq<SkipNode>): (its: seq<RankItem>)
    requires Valued(ns)
    ensures |its| == |ns| - 1
  {
    seq(|ns| - 1, k requires 0 <= k < |ns| - 1 => ns[k + 1].value)
  }

  /** The rows the items hold at the moment. */
  ghost function Rows(its: seq<RankItem>): (d: seq<RankData>)
    reads its
    ensures |d| == |its|
    ensures forall k | 0 <= k < |d| :: d[k] == its[k].data
  {
    seq(|its|, k requires 0 <= k < |its| reads its => its[k].data)
  }

  /** The listed nodes before position `p` are exactly those whose row ranks before `v`. */
  ghost predicate CutAt(ns: seq<SkipNode>, v: RankData, p: nat)
    requires Valued(ns)
    reads set k | 1 <= k < |ns| :: ns[k].value
  {
    0 < p <= |ns| && forall k | 1 <= k < |ns| :: Greater(ns[k].value.data, v) <==> k < p
  }

  lemma CutFromRows(ns: seq<SkipNode>, v: RankData, c: nat)
    requires Valued(ns) && IsCut(Rows(ItemsOf(ns)), v, c)
    ensures CutAt(ns, v, c + 1)
  {
    forall k | 1 <= k < |ns|
      ensures Greater(ns[k].value.data, v) <==> k < c + 1
    {
      assert Rows(ItemsOf(ns))[k - 1] == ns[k].value.data;
    }
  }

  /** With one row per key, what the rank search finds of a stored row is its place. */
  lemma RankOfStored(d: seq<RankData>, v: RankData, rank: nat)
    requires Descending(d) && DistinctIds(d)
    requires var c := Cut(d, v);
      if rank == 0 then c == |d| || !KeyEqual(d[c], v) else c < rank <= |d| && KeyEqual(d[rank - 1], v)
    ensures forall q | 0 <= q < |d| && d[q] == v :: rank == q + 1
  {
    forall q | 0 <= q < |d| && d[q] == v
      ensures rank == q + 1
    {
      CutOfStored(d, q);
      CutIsCut(d, v);
      CutUnique(d, v, q, Cut(d, v));
      assert forall k | 0 <= k < |d| && k != q :: !KeyEqual(d[k], d[q]);
    }
  }

  lemma RowsPut(its: seq<RankItem>, c: nat, v: RankItem)
    requires c <= |its|
    ensures Rows(Put(its, c, v)) == Put(Rows(its), c, v.data)
  {
    PutIndex(its, c, v);
  }

  lemma RowsTake(its: seq<RankItem>, c: nat)
    requires c < |its|
    ensures Rows(Take(its, c)) == Take(Rows(its), c)
  {
  }

  /** How many nodes after the head have height `h`. */
  ghost function Tally(ns: seq<SkipNode>, h: nat): nat
    requires |ns| > 0
  {
    multiset(Heights(ns)[1..])[h]
  }

  lemma TallyPut(ns: seq<SkipNode>, p: nat, n: SkipNode, h: nat)
    requires 0 < p <= |ns|
    ensures Tally(Put(ns, p, n), h) == Tally(ns, h) + if h == n.height then 1 else 0
  {
    HeightsPut(ns, p, n);
    var hs := Heights(ns);
    assert hs[1..] == hs[1..p] + hs[p..];
    assert Put(hs, p, n.height)[1..] == hs[1..p] + [n.height] + hs[p..];
  }

  /** What the heap shows at position `r` of a layer. */
  lemma AtNode(ns: seq<SkipNode>, top: nat, i: nat, r: nat)
    requires Linked(ns, top) && i < top && OnLayer(ns, i, r)
    ensures i < |ns[r].layers|
    ensures ns[r].layers[i].next == NodeAt(ns, AfterAt(ns, i, r))
    ensures ns[r].layers[i].span == SpanTo(|ns|, r, AfterAt(ns, i, r))
    ensures AfterAt(ns, i, r) < |ns| ==> OnLayer(ns, i, AfterAt(ns, i, r)) && ns[AfterAt(ns, i, r)].value != null
  {
    assert LayerOk(ns, i);
  }

  /** The walk stops right before position `p`. */
  lemma StopAt(ns: seq<SkipNode>, i: nat, r: nat, p: nat)
    requires r < p <= |ns| && OnLayer(ns, i, r) && p <= AfterAt(ns, i, r)
    ensures BeforeAt(ns, i, p) == r
  {
    StopsBefore(Heights(ns), i, r, p);
  }

  /** On the bottom layer everybody is adjacent. */
  lemma BottomLayer(ns: seq<SkipNode>, top: nat, p: nat)
    requires |ns| > 0 && ns[0].height == MAX_LAYER && HeightsWithin(ns, top) && 0 < p <= |ns|
    ensures BeforeAt(ns, 0, p) == p - 1
    ensures p < |ns| ==> AfterAt(ns, 0, p - 1) == p
    ensures p == |ns| ==> AfterAt(ns, 0, p - 1) == p
  {
    BeforeIs(Heights(ns), 0, p, p - 1);
    AfterIs(Heights(ns), 0, p - 1, p);
  }

  lemma EmptyList(ns: seq<SkipNode>)
    requires |ns| == 1 && ns[0].height == MAX_LAYER && ns[0].value == null
    requires ns[0].layers == seq(MAX_LAYER, _ => Layer(null, null, 0))
    ensures Linked(ns, 1)
  {
    EmptyLayer(ns, 0);
  }

  lemma PutDistinct(ns: seq<SkipNode>, p: nat, node: SkipNode)
    requires p <= |ns| && Distinct(ns) && node !in ns
    ensures Distinct(Put(ns, p, node))
  {
    hide Put;
    var m := Put(ns, p, node);
    forall a, b | 0 <= a < b < |m|
      ensures m[a] != m[b]
    {
      PutAt(ns, p, node, a);
      PutAt(ns, p, node, b);
    }
  }

  lemma PutItems(ns: seq<SkipNode>, p: nat, node: SkipNode, v: RankItem)
    requires Valued(ns) && 0 < p <= |ns| && node.value == v
    ensures Valued(Put(ns, p, node)) && Put(ns, p, node)[0] == ns[0]
    ensures ItemsOf(Put(ns, p, node)) == Put(ItemsOf(ns), p - 1, v)
  {
    hide Put;
    var m := Put(ns, p, node);
    forall a | 0 <= a < |m|
      ensures if a == 0 then m[a] == ns[0] else m[a].value != null && m[a].value == Put(ItemsOf(ns), p - 1, v)[a - 1]
    {
      PutAt(ns, p, node, a);
      if a > 0 {
        PutAt(ItemsOf(ns), p - 1, v, a - 1);
      }
    }
  }

  lemma PutStatics(ns: seq<SkipNode>, p: nat, node: SkipNode, v: RankItem, top: nat)
    requires Valued(ns) && 0 < p <= |ns| && Distinct(ns) && node !in ns && HeightsWithin(ns, top)
    requires 1 <= node.height <= top && node.value == v
    ensures var m := Put(ns, p, node);
      Valued(m) && Distinct(m) && HeightsWithin(m, top) && m[0] == ns[0]
    ensures ItemsOf(Put(ns, p, node)) == Put(ItemsOf(ns), p - 1, v)
  {
    PutDistinct(ns, p, node);
    PutItems(ns, p, node, v);
    hide Put, Distinct, Valued;
    var m := Put(ns, p, node);
    forall k | 1 <= k < |m|
      ensures 1 <= m[k].height <= top
    {
      PutAt(ns, p, node, k);
    }
  }

  /** The next node on the bottom layer is the next in the list. */
  lemma EndsAt(ns: seq<SkipNode>, top: nat, k: nat, node: SkipNode)
    requires Linked(ns, top) && 1 <= k < |ns| && ns[k] == node
    ensures 0 < |node.layers| && node.layers[0].next == NodeAt(ns, k + 1)
  {
    BottomLayer(ns, top, k + 1);
    AtNode(ns, top, 0, k);
  }

  /** Links a new node in at position `p` of a list of `top` layers. */
  method LinkIn(ghost ns: seq<SkipNode>, ghost p: nat, node: SkipNode, before: array<SkipNode?>, rank: array<int>, top: nat)
    requires Linked(ns, top) && node !in ns && 0 < p <= |ns|
    requires 1 <= node.height <= top && |node.layers| == node.height && node.value != null
    requires Path(ns, p, top, before[..]) && RankPath(ns, p, top, rank[..])
    modifies ns, node
    ensures Linked(Put(ns, p, node), top)
    ensures 0 < |node.layers| && node.layers[0].next == NodeAt(Put(ns, p, node), p + 1)
  {
    BottomLayer(ns, top, p);
    PutStatics(ns, p, node, node.value, top);
    assert rank[0] == rank[..][0] == p - 1;
    hide Before, After, BeforeAt, AfterAt, Distinct, LayerOk;
    SpliceAll(ns, p, node, before, rank, top);
    WidenAll(ns, p, node, before, top);
    assert forall n | n in Put(ns, p, node) :: n in ns || n == node;
    EndsAt(Put(ns, p, node), top, p, node);
  }

  lemma TakeStatics(ns: seq<SkipNode>, k: nat, node: SkipNode, top: nat)
    requires Valued(ns) && Distinct(ns) && HeightsWithin(ns, top) && 1 <= k < |ns| && ns[k] == node
    ensures var r := Take(ns, k);
      && Valued(r) && Distinct(r) && HeightsWithin(r, top) && r[0] == ns[0] && node !in r
      && Put(r, k, node) == ns && ItemsOf(r) == Take(ItemsOf(ns), k - 1)
      && forall n | n in r :: n in ns
  {
    TakePut(ns, k);
  }

  /** The path to a node is the same with or without the node. */
  lemma PathTake(ns: seq<SkipNode>, k: nat, j: nat)
    requires 1 <= k < |ns| && j < ns[0].height && Take(ns, k)[0] == ns[0]
    ensures BeforeAt(Take(ns, k), j, k) == BeforeAt(ns, j, k)
    ensures Take(ns, k)[BeforeAt(ns, j, k)] == ns[BeforeAt(ns, j, k)]
  {
    var r := Take(ns, k);
    TakePut(ns, k);
    HeightsPut(r, k, ns[k]);
    BeforePut(Heights(r), k, ns[k].height, j);
  }

  /** Unlinks the node at position `k` of a list of `top` layers. */
  method LinkOut(ghost ns: seq<SkipNode>, ghost k: nat, node: SkipNode, before: array<SkipNode?>, top: nat)
    requires Linked(ns, top) && 1 <= k < |ns| && ns[k] == node && top <= before.Length
    requires forall j | node.height <= j < top :: before[j] == ns[BeforeAt(ns, j, k)]
    modifies set n | n in ns && n != node
    ensures Linked(Take(ns, k), top)
    ensures 0 < |node.layers| && node.layers[0].prev == ns[k - 1]
  {
    TakeStatics(ns, k, node, top);
    ghost var rest := Take(ns, k);
    forall j | node.height <= j < top
      ensures before[j] == rest[BeforeAt(rest, j, k)]
    {
      PathTake(ns, k, j);
    }
    PrevOnBottom(ns, top, k);
    hide Before, After, BeforeAt, AfterAt, Distinct, LayerOk, Take;
    UnspliceAll(rest, k, node, before, top);
  }

  lemma PrevOnBottom(ns: seq<SkipNode>, top: nat, k: nat)
    requires Linked(ns, top) && 1 <= k < |ns|
    ensures 0 < |ns[k].layers| && ns[k].layers[0].prev == ns[k - 1]
  {
    BottomLayer(ns, top, k);
    assert OnLayer(ns, 0, k) && LayerOk(ns, 0);
  }

  /** A top layer the head sees nobody on can be dropped. */
  lemma DropTop(ns: seq<SkipNode>, top: nat)
    requires Linked(ns, top) && 1 < top
    ensures top <= |ns[0].layers|
    ensures ns[0].layers[top - 1].next == null ==> Linked(ns, top - 1)
    ensures ns[0].layers[top - 1].next == null <==> EmptyTop(ns, top)
  {
    hide LayerOk, Distinct, AfterAt, BeforeAt, LayerAt, Shaped, Valued;
    HeadAt(ns, top);
    if ns[0].layers[top - 1].next == null {
      NobodyThere(ns, top - 1);
    } else {
      SomebodyThere(ns, top - 1);
    }
  }

  /** No listed node reaches layer `top - 1`. */
  ghost predicate EmptyTop(ns: seq<SkipNode>, top: nat) {
    forall k | 1 <= k < |ns| :: ns[k].height < top
  }

  lemma SomebodyThere(ns: seq<SkipNode>, i: nat)
    requires |ns| > 0 && AfterAt(ns, i, 0) < |ns|
    ensures !EmptyTop(ns, i + 1)
  {
    hide After;
    AfterGap(Heights(ns), i, 0);
  }

  lemma HeadAt(ns: seq<SkipNode>, top: nat)
    requires Linked(ns, top)
    ensures top <= |ns[0].layers| && ns[0].layers[top - 1].prev == null
    ensures ns[0].layers[top - 1].next == NodeAt(ns, AfterAt(ns, top - 1, 0))
  {
    hide Before, After, Distinct;
    assert LayerOk(ns, top - 1) && OnLayer(ns, top - 1, 0);
  }

  lemma NobodyThere(ns: seq<SkipNode>, i: nat)
    requires |ns| > 0 && AfterAt(ns, i, 0) == |ns|
    ensures forall k | 1 <= k < |ns| :: ns[k].height <= i
  {
    hide After;
    AfterGap(Heights(ns), i, 0);
    forall k | 1 <= k < |ns|
      ensures ns[k].height <= i
    {
      assert Heights(ns)[k] <= i;
    }
  }

  /** The head starts an empty layer whose span counts the whole list. */
  method OpenLayer(ghost ns: seq<SkipNode>, top: nat, head: SkipNode, len: nat)
    requires Linked(ns, top) && top < MAX_LAYER && ns[0] == head && len == |ns| - 1
    modifies head
    ensures Linked(ns, top + 1)
  {
    hide Before, After, BeforeAt, AfterAt;
    assert ns[0] in ns;
    head.SetSpan(top, len);
    EmptyLayer(ns, top);
    assert LayerOk(ns, top) by {
      assert forall k | OnLayer(ns, top, k) :: k == 0;
    }
    forall j | 0 <= j < top
      ensures LayerOk(ns, j)
    {
      KeepsLayer(ns, top, j);
    }
  }

  /** The path and its ranks from layer `i` up. */
  ghost predicate Recorded(ns: seq<SkipNode>, p: nat, i: nat, top: nat, before: seq<SkipNode?>, rank: seq<int>) {
    && 0 < p <= |ns| && top <= ns[0].height && top <= |before| && top <= |rank|
    && forall j | i <= j < top :: before[j] == ns[BeforeAt(ns, j, p)] && rank[j] == BeforeAt(ns, j, p)
  }

  lemma RecordedMore(ns: seq<SkipNode>, p: nat, i: nat, top: nat, before: seq<SkipNode?>, rank: seq<int>)
    requires i < top && Recorded(ns, p, i + 1, top, before, rank)
    ensures i < ns[0].height && i < |before| && i < |rank|
    ensures var r := BeforeAt(ns, i, p); Recorded(ns, p, i, top, before[i := ns[r]], rank[i := r])
  {
  }

  lemma RecordedAll(ns: seq<SkipNode>, p: nat, top: nat, before: seq<SkipNode?>, rank: seq<int>)
    requires Recorded(ns, p, 0, top, before, rank)
    ensures Path(ns, p, top, before) && RankPath(ns, p, top, rank)
  {
  }

  /** One more node of height `h` in a count of heights. */
  ghost function OneMore(counts: seq<int>, h: nat): seq<int> {
    if 1 <= h <= |counts| then counts[h - 1 := counts[h - 1] + 1] else counts
  }

  class Skiplist {
    var currLayer: nat
    var currLength: nat
    const lengthsNum: array<int>
    const head: SkipNode
    var tail: SkipNode?
    const beforeNode: array<SkipNode?>
    const rank: array<int>

    /** The head and then the listed nodes, in list order. */
    ghost var nodes: seq<SkipNode>

    ghost predicate Structure()
      reads this, nodes
    {
      && Linked(nodes, currLayer) && nodes[0] == head
      && currLength == |nodes| - 1
      && lengthsNum.Length == beforeNode.Length == rank.Length == MAX_LAYER && lengthsNum != rank
    }

    constructor ()
      ensures Valid() && Items() == [] && currLayer == 1
      ensures fresh(lengthsNum) && fresh(beforeNode) && fresh(rank) && fresh(nodes)
    {
      currLayer := 1;
      currLength := 0;
      lengthsNum := new int[MAX_LAYER](_ => 0);
      var h := new SkipNode(MAX_LAYER, null);
      head := h;
      tail := null;
      beforeNode := new SkipNode?[MAX_LAYER](_ => null);
      rank := new int[MAX_LAYER](_ => 0);
      nodes := [h];
      new;
      EmptyList(nodes);
    }

    lemma AtHead()
      requires Structure()
      ensures OnLayer(nodes, currLayer - 1, 0) && 1 <= currLayer <= MAX_LAYER
    {
    }

    /** Walks along layer `i` past everything that ranks before `v`, adding up the spans. */
    method Walk(i: nat, v: RankItem, start: SkipNode, ghost s: nat, ghost p: nat) returns (node: SkipNode, passed: int, ghost r: nat)
      requires Structure() && CutAt(nodes, v.data, p)
      requires i < currLayer && s < p && OnLayer(nodes, i, s) && start == nodes[s]
      ensures s <= r < p && OnLayer(nodes, i, r) && r == BeforeAt(nodes, i, p)
      ensures node == nodes[BeforeAt(nodes, i, p)] && passed == BeforeAt(nodes, i, p) - s
    {
      hide Before, After, BeforeAt, AfterAt, Linked, Distinct, LayerAt;
      node, passed, r := start, 0, s;
      AtNode(nodes, currLayer, i, r);
      while node.layers[i].next != null && Greater(node.layers[i].next.value.data, v.data)
        invariant s <= r < p && OnLayer(nodes, i, r) && nodes[r] == node && passed == r - s
        invariant i < |node.layers| && node.layers[i].next == NodeAt(nodes, AfterAt(nodes, i, r))
        invariant AfterAt(nodes, i, r) < |nodes| ==> nodes[AfterAt(nodes, i, r)].value != null
        decreases |nodes| - r
      {
        AtNode(nodes, currLayer, i, r);
        passed := passed + node.layers[i].span;
        node := node.layers[i].next;
        r := AfterAt(nodes, i, r);
        AtNode(nodes, currLayer, i, r);
      }
      StopAt(nodes, i, r, p);
    }

    /** One layer of the descent: walks on and records where the walk stopped. */
    method RecordLayer(i: nat, v: RankItem, start: SkipNode, ghost s: nat, ghost p: nat) returns (node: SkipNode, ghost r: nat)
      requires Structure() && CutAt(nodes, v.data, p)
      requires i < currLayer && s < p && OnLayer(nodes, i, s) && start == nodes[s]
      requires i < beforeNode.Length && currLayer <= rank.Length
      requires if i + 1 == currLayer then s == 0 else rank[i + 1] == s
      modifies beforeNode, rank
      ensures r < p && OnLayer(nodes, i, r) && node == nodes[r]
      ensures r == BeforeAt(nodes, i, p)
      ensures beforeNode[..] == old(beforeNode[..])[i := node] && rank[..] == old(rank[..])[i := r]
    {
      hide Before, After, BeforeAt, AfterAt, Linked, Distinct, Structure, CutAt;
      if i == currLayer - 1 {
        rank[i] := 0;
      } else {
        rank[i] := rank[i + 1];
      }
      var passed;
      node, passed, r := Walk(i, v, start, s, p);
      rank[i] := rank[i] + passed;
      beforeNode[i] := node;
    }

    /** `tail` is the last listed node; of an empty list it is nil, or the head once it had nodes. */
    ghost predicate Ended()
      reads this`nodes, this`tail
    {
      |nodes| > 0 && if |nodes| > 1 then tail == nodes[|nodes| - 1] else tail == null || tail == head
    }

    /** `lengthsNum` counts the nodes of each height. */
    ghost predicate Tallied()
      reads this`nodes, lengthsNum
    {
      |nodes| > 0 && lengthsNum.Length == MAX_LAYER
      && forall h | 1 <= h <= MAX_LAYER :: lengthsNum[h - 1] == Tally(nodes, h)
    }

    /** Everything but the order of the rows. */
    ghost predicate Formed()
      reads this, nodes, lengthsNum
    {
      Structure() && Ended() && Tallied()
    }

    /** The stored items in list order. */
    ghost function Items(): seq<RankItem>
      reads this`nodes
    {
      if Valued(nodes) then ItemsOf(nodes) else []
    }

    ghost predicate Valid()
      reads this, nodes, lengthsNum, Items()
    {
      Formed() && Descending(Rows(Items()))
    }

    /** The path to the place of `v`, with ranks. */
    method FindPath(v: RankItem, ghost p: nat)
      requires Structure() && CutAt(nodes, v.data, p)
      modifies beforeNode, rank
      ensures Path(nodes, p, currLayer, beforeNode[..]) && RankPath(nodes, p, currLayer, rank[..])
    {
      AtHead();
      assert MAX_LAYER <= beforeNode.Length && MAX_LAYER <= rank.Length && nodes[0] == head;
      assert Recorded(nodes, p, currLayer, currLayer, beforeNode[..], rank[..]);
      hide Before, After, BeforeAt, AfterAt, Distinct, Structure, CutAt, LayerAt, OnLayer, Recorded;
      var node := head;
      ghost var r: nat := 0;
      var i := currLayer;
      while i > 0
        invariant 0 <= i <= currLayer && r < p <= |nodes| && nodes[r] == node
        invariant i > 0 ==> OnLayer(nodes, i - 1, r)
        invariant if i == currLayer then r == 0 else rank[i] == r
        invariant Recorded(nodes, p, i, currLayer, beforeNode[..], rank[..])
      {
        i := i - 1;
        RecordedMore(nodes, p, i, currLayer, beforeNode[..], rank[..]);
        node, r := RecordLayer(i, v, node, r, p);
      }
      RecordedAll(nodes, p, currLayer, beforeNode[..], rank[..]);
    }

    /** Opens the layers up to `newLayer`; on each of them the path starts and ends at the head. */
    method Raise(newLayer: nat, ghost p: nat)
      requires Structure() && newLayer <= MAX_LAYER && 0 < p <= |nodes|
      requires Path(nodes, p, currLayer, beforeNode[..]) && RankPath(nodes, p, currLayer, rank[..])
      modifies this`currLayer, beforeNode, rank, head
      ensures Structure() && nodes == old(nodes)
      ensures currLayer == if newLayer > old(currLayer) then newLayer else old(currLayer)
      ensures Path(nodes, p, currLayer, beforeNode[..]) && RankPath(nodes, p, currLayer, rank[..])
    {
      hide Before, After, BeforeAt, AfterAt, Distinct, LayerAt;
      while currLayer < newLayer
        invariant old(currLayer) <= currLayer
        invariant currLayer <= newLayer || currLayer == old(currLayer)
        invariant Structure()
        invariant Path(nodes, p, currLayer, beforeNode[..]) && RankPath(nodes, p, currLayer, rank[..])
      {
        RaiseOne(p);
      }
    }

    method RaiseOne(ghost p: nat)
      requires Structure() && currLayer < MAX_LAYER && 0 < p <= |nodes|
      requires Path(nodes, p, currLayer, beforeNode[..]) && RankPath(nodes, p, currLayer, rank[..])
      modifies this`currLayer, beforeNode, rank, head
      ensures Structure() && currLayer == old(currLayer) + 1
      ensures Path(nodes, p, currLayer, beforeNode[..]) && RankPath(nodes, p, currLayer, rank[..])
    {
      hide Before, After, BeforeAt, AfterAt, Distinct, Path, RankPath;
      PathUp(nodes, p, currLayer, beforeNode[..], rank[..]);
      hide Linked;
      rank[currLayer] := 0;
      beforeNode[currLayer] := head;
      OpenLayer(nodes, currLayer, head, currLength);
      currLayer := currLayer + 1;
    }

    /** The bookkeeping after node `node` was linked in at position `p`. */
    method NoteInserted(node: SkipNode, ghost p: nat)
      requires 0 < p <= |nodes| && 1 <= node.height <= MAX_LAYER && 0 < |node.layers|
      requires Ended() && Tallied() && currLength == |nodes| - 1
      requires node.layers[0].next == NodeAt(Put(nodes, p, node), p + 1)
      modifies this`tail, this`currLength, this`nodes, lengthsNum
      ensures nodes == Put(old(nodes), p, node)
      ensures Ended() && Tallied() && currLength == |nodes| - 1
      ensures lengthsNum[..] == OneMore(old(lengthsNum[..]), node.height)
    {
      hide Tally, Put, OneMore;
      ghost var after := Put(nodes, p, node);
      PutAt(nodes, p, node, |nodes|);
      if node.layers[0].next == null {
        tail := node;
      }
      CountUp(node, p);
      currLength := currLength + 1;
      nodes := after;
    }

    /** One more node of this height. */
    method CountUp(node: SkipNode, ghost p: nat)
      requires 0 < p <= |nodes| && 1 <= node.height <= MAX_LAYER && Tallied()
      modifies lengthsNum
      ensures forall h | 1 <= h <= MAX_LAYER :: lengthsNum[h - 1] == Tally(Put(nodes, p, node), h)
      ensures lengthsNum[..] == OneMore(old(lengthsNum[..]), node.height)
    {
      hide Tally, Put;
      forall h | 1 <= h <= MAX_LAYER
        ensures Tally(Put(nodes, p, node), h) == lengthsNum[h - 1] + if h == node.height then 1 else 0
      {
        TallyPut(nodes, p, node, h);
      }
      lengthsNum[node.height - 1] := lengthsNum[node.height - 1] + 1;
    }

    /** An insertion once the path to position `p` is known. */
    method InsertAt(v: RankItem, newLayer: nat, ghost p: nat)
      requires Formed() && 1 <= newLayer <= MAX_LAYER && 0 < p <= |nodes|
      requires Path(nodes, p, currLayer, beforeNode[..]) && RankPath(nodes, p, currLayer, rank[..])
      modifies this, lengthsNum, beforeNode, rank, nodes
      ensures Formed() && Items() == Put(old(Items()), p - 1, v)
      ensures p < |nodes| && fresh(nodes[p]) && nodes[p].height == newLayer && nodes[p].value == v
      ensures nodes == Put(old(nodes), p, nodes[p])
      ensures currLayer == if newLayer > old(currLayer) then newLayer else old(currLayer)
      ensures lengthsNum[..] == OneMore(old(lengthsNum[..]), newLayer)
      ensures forall n | n in nodes :: n in old(nodes) || fresh(n)
    {
      assert rank != lengthsNum;
      hide Before, After, BeforeAt, AfterAt, Linked, Distinct, Path, RankPath, Tally, Ended, Tallied, Put, LayerAt, NodeAt;
      hide OneMore;
      Raise(newLayer, p);
      var node := new SkipNode(newLayer, v);
      PutAt(nodes, p, node, p);
      PutMembers(nodes, p, node);
      Attach(node, p, v);
    }

    /** Links in a new node whose layers are all open. */
    method Attach(node: SkipNode, ghost p: nat, ghost v: RankItem)
      requires Formed() && 0 < p <= |nodes| && node !in nodes
      requires 1 <= node.height <= currLayer <= MAX_LAYER && |node.layers| == node.height && node.value == v
      requires Path(nodes, p, currLayer, beforeNode[..]) && RankPath(nodes, p, currLayer, rank[..])
      modifies this`tail, this`currLength, this`nodes, lengthsNum, nodes, node
      ensures Formed() && nodes == Put(old(nodes), p, node)
      ensures Items() == Put(old(Items()), p - 1, v)
      ensures lengthsNum[..] == OneMore(old(lengthsNum[..]), node.height)
    {
      hide Before, After, BeforeAt, AfterAt, Linked, Distinct, Path, RankPath, Tally, Ended, Tallied, Put, ItemsOf, LayerAt, NodeAt;
      hide OneMore;
      InsertStatics(node);
      PutStatics(nodes, p, node, v, currLayer);
      ghost var after: seq<SkipNode> := Put(nodes, p, node);
      LinkIn(nodes, p, node, beforeNode, rank, currLayer);
      assert Linked(after, currLayer);
      NoteInserted(node, p);
      assert nodes == after;
    }

    lemma InsertStatics(node: SkipNode)
      requires Structure()
      ensures Valued(nodes) && Distinct(nodes) && HeightsWithin(nodes, currLayer)
    {
    }

    /** Where `v` belongs, and that the rows stay in order with it. */
    lemma InsertPlan(v: RankItem) returns (c: nat)
      requires Valid()
      ensures Structure() && rank != lengthsNum && |nodes| == |Items()| + 1
      ensures c == Cut(Rows(Items()), v.data) && CutAt(nodes, v.data, c + 1)
      ensures Descending(Rows(Put(Items(), c, v)))
    {
      assert Valued(nodes);
      hide Before, After, BeforeAt, AfterAt, Linked, Distinct, Tallied, Ended, Tally;
      c := Cut(Rows(Items()), v.data);
      CutIsCut(Rows(Items()), v.data);
      CutFromRows(nodes, v.data, c);
      RowsPut(Items(), c, v);
      InsertAtCut(Rows(Items()), v.data, c);
    }

    /**
     Puts `v` after every item that ranks before it, on the `newLayer` lowest layers.  The source
     draws `newLayer` at random.
     */
    method Insert(v: RankItem, newLayer: nat) returns (layer: nat)
      requires Valid() && 1 <= newLayer <= MAX_LAYER
      modifies this, lengthsNum, beforeNode, rank, nodes
      ensures Valid() && layer == newLayer
      ensures Items() == Put(old(Items()), Cut(old(Rows(Items())), v.data), v)
      ensures var p := Cut(old(Rows(Items())), v.data) + 1;
        && p < |nodes| && p <= |old(nodes)| && nodes == Put(old(nodes), p, nodes[p])
        && fresh(nodes[p]) && nodes[p].height == newLayer && nodes[p].value == v
      ensures currLayer == if newLayer > old(currLayer) then newLayer else old(currLayer)
      ensures lengthsNum[..] == OneMore(old(lengthsNum[..]), newLayer)
      ensures forall n | n in nodes :: n in old(nodes) || fresh(n)
    {
      ghost var c := InsertPlan(v);
      hide Cut, CutAt, Put, OneMore, Rows, Descending, Formed, Path, RankPath, Items, Structure;
      ghost var inserted := Put(Items(), c, v);
      ghost var rows := Rows(inserted);
      FindPath(v, c + 1);
      InsertAt(v, newLayer, c + 1);
      assert Rows(inserted) == rows;
      return newLayer;
    }

    /** The node where `v` is, if the one at its place has its key; records the path there. */
    method GetNode(v: RankItem, ghost p: nat) returns (node: SkipNode?)
      requires Structure() && CutAt(nodes, v.data, p)
      modifies beforeNode
      ensures Path(nodes, p, currLayer, beforeNode[..])
      ensures node == if p < |nodes| && KeyEqual(nodes[p].value.data, v.data) then nodes[p] else null
    {
      AtHead();
      BottomLayer(nodes, currLayer, p);
      assert MAX_LAYER <= beforeNode.Length && nodes[0] == head && Valued(nodes);
      hide Before, After, BeforeAt, AfterAt, Distinct, Structure, CutAt, LayerAt;
      var n := head;
      ghost var r: nat := 0;
      var i := currLayer;
      while i > 0
        invariant 0 <= i <= currLayer && r < p <= |nodes| && nodes[r] == n
        invariant i > 0 ==> OnLayer(nodes, i - 1, r)
        invariant i == 0 ==> r == BeforeAt(nodes, 0, p)
        invariant forall j | i <= j < currLayer :: beforeNode[..][j] == nodes[BeforeAt(nodes, j, p)]
      {
        i := i - 1;
        n, r := MarkLayer(i, v, n, r, p);
      }
      NextOnBottom(p);
      node := null;
      if n.layers[0].next != null && KeyEqual(n.layers[0].next.value.data, v.data) {
        node := n.layers[0].next;
      }
    }

    method MarkLayer(i: nat, v: RankItem, start: SkipNode, ghost s: nat, ghost p: nat) returns (node: SkipNode, ghost r: nat)
      requires Structure() && CutAt(nodes, v.data, p)
      requires i < currLayer && s < p && OnLayer(nodes, i, s) && start == nodes[s]
      requires i < beforeNode.Length
      modifies beforeNode
      ensures r < p && OnLayer(nodes, i, r) && node == nodes[r]
      ensures r == BeforeAt(nodes, i, p)
      ensures beforeNode[..] == old(beforeNode[..])[i := node]
    {
      var passed;
      node, passed, r := Walk(i, v, start, s, p);
      beforeNode[i] := node;
    }

    lemma NextOnBottom(p: nat)
      requires Structure() && 0 < p <= |nodes|
      ensures 0 < |nodes[p - 1].layers| && nodes[p - 1].layers[0].next == NodeAt(nodes, p)
      ensures BeforeAt(nodes, 0, p) == p - 1
    {
      BottomLayer(nodes, currLayer, p);
      AtNode(nodes, currLayer, 0, p - 1);
    }

    /** Walks along layer `i` as long as that does not overshoot `rank`. */
    method WalkByRank(i: nat, rank: int, start: SkipNode, s: nat) returns (n: SkipNode, currRank: nat)
      requires Structure() && i < currLayer && OnLayer(nodes, i, s) && start == nodes[s]
      ensures OnLayer(nodes, i, currRank) && n == nodes[currRank]
      ensures currRank == s || currRank <= rank
      ensures rank < AfterAt(nodes, i, currRank) || AfterAt(nodes, i, currRank) == |nodes|
    {
      hide Before, After, BeforeAt, AfterAt, Linked, Distinct, LayerAt;
      n, currRank := start, s;
      AtNode(nodes, currLayer, i, currRank);
      while n.layers[i].next != null && currRank + n.layers[i].span <= rank
        invariant OnLayer(nodes, i, currRank) && n == nodes[currRank]
        invariant i < |n.layers| && n.layers[i].next == NodeAt(nodes, AfterAt(nodes, i, currRank))
        invariant n.layers[i].span == SpanTo(|nodes|, currRank, AfterAt(nodes, i, currRank))
        invariant currRank == s || currRank <= rank
        decreases |nodes| - currRank
      {
        AtNode(nodes, currLayer, i, currRank);
        ghost var a := AfterAt(nodes, i, currRank);
        currRank, n := currRank + n.layers[i].span, n.layers[i].next;
        AtNode(nodes, currLayer, i, a);
      }
    }

    /** The node `rank` places after the head (the head itself for 0), found by adding up spans. */
    method GetNodeByRank(rank: int) returns (node: SkipNode?)
      requires Structure()
      ensures node == if 0 <= rank < |nodes| then nodes[rank] else null
    {
      AtHead();
      hide Before, After, BeforeAt, AfterAt, Distinct, Linked, LayerAt;
      var n := head;
      var currRank: nat := 0;
      var i := currLayer;
      while i > 0
        invariant 0 <= i <= currLayer && currRank < |nodes| && n == nodes[currRank]
        invariant i > 0 ==> OnLayer(nodes, i - 1, currRank)
        invariant currRank == 0 || currRank <= rank
        invariant i < currLayer ==> currRank != rank
        invariant i == 0 ==> rank < AfterAt(nodes, 0, currRank) || AfterAt(nodes, 0, currRank) == |nodes|
      {
        i := i - 1;
        n, currRank := WalkByRank(i, rank, n, currRank);
        if currRank == rank {
          return n;
        }
      }
      BottomAfter(currRank);
      return null;
    }

    lemma BottomAfter(r: nat)
      requires Structure() && r < |nodes|
      ensures AfterAt(nodes, 0, r) == r + 1
    {
      BottomLayer(nodes, currLayer, r + 1);
    }

    /** The item of that rank; the head has none. */
    method GetByRank(rank: int) returns (v: RankItem?)
      requires Structure()
      ensures v == if 1 <= rank <= |Items()| then Items()[rank - 1] else null
      ensures |Items()| == currLength
    {
      assert Valued(nodes);
      var node := GetNodeByRank(rank);
      if node == null {
        return null;
      }
      return node.value;
    }

    /**
     The rank of `v`, counted from 1, or 0 if its key is not found.  The search may meet the key
     on an upper layer before it reaches the place of `v`.
     */
    method GetRank(v: RankItem) returns (rank: nat)
      requires Valid()
      ensures var c := Cut(Rows(Items()), v.data);
        if rank == 0 then c == |Items()| || !KeyEqual(Rows(Items())[c], v.data)
        else c < rank <= |Items()| && KeyEqual(Rows(Items())[rank - 1], v.data)
      ensures DistinctIds(Rows(Items())) ==>
        forall q | 0 <= q < |Items()| && Rows(Items())[q] == v.data :: rank == q + 1
    {
      ghost var d := Rows(Items());
      ghost var c := Cut(d, v.data);
      CutIsCut(d, v.data);
      CutFromRows(nodes, v.data, c);
      rank := RankFrom(v, c + 1);
      assert Rows(Items()) == d;
      if DistinctIds(d) {
        RankOfStored(d, v.data, rank);
      }
    }

    method RankFrom(v: RankItem, ghost p: nat) returns (rank: nat)
      requires Structure() && CutAt(nodes, v.data, p)
      ensures if rank == 0 then p == |nodes| || (p < |nodes| && nodes[p].value != null && !KeyEqual(nodes[p].value.data, v.data))
        else p <= rank < |nodes| && nodes[rank].value != null && KeyEqual(nodes[rank].value.data, v.data)
    {
      AtHead();
      assert nodes[0] == head;
      hide Before, After, BeforeAt, AfterAt, Distinct, Structure, CutAt, LayerAt;
      var node := head;
      ghost var r: nat := 0;
      rank := 0;
      var i := currLayer;
      while i > 0
        invariant 0 <= i <= currLayer && r < p <= |nodes| && nodes[r] == node && rank == r
        invariant i > 0 ==> OnLayer(nodes, i - 1, r)
        invariant i == 0 ==> p == |nodes| || (nodes[p].value != null && !KeyEqual(nodes[p].value.data, v.data))
      {
        i := i - 1;
        var passed, found;
        node, passed, found, r := RankLayer(i, v, node, r, p);
        rank := rank + passed;
        if found {
          return;
        }
      }
      return 0;
    }

    /** One layer of the rank search: walks on and looks whether the next item has the key. */
    method RankLayer(i: nat, v: RankItem, start: SkipNode, ghost s: nat, ghost p: nat)
      returns (node: SkipNode, passed: int, found: bool, ghost r: nat)
      requires Structure() && CutAt(nodes, v.data, p)
      requires i < currLayer && s < p <= |nodes| && OnLayer(nodes, i, s) && start == nodes[s]
      ensures s <= r < p && OnLayer(nodes, i, r) && node == nodes[r]
      ensures if found then p <= s + passed < |nodes| && nodes[s + passed].value != null
          && KeyEqual(nodes[s + passed].value.data, v.data)
        else passed == r - s
      ensures !found && i == 0 ==> p == |nodes| || (p < |nodes| && nodes[p].value != null && !KeyEqual(nodes[p].value.data, v.data))
    {
      hide Before, After, BeforeAt, AfterAt, Distinct, Structure, CutAt, LayerAt;
      node, passed, r := Walk(i, v, start, s, p);
      NextAfterWalk(i, r, p);
      found := node.layers[i].next != null && KeyEqual(node.layers[i].next.value.data, v.data);
      if found {
        passed := passed + node.layers[i].span;
      }
    }

    /** What follows the node where a walk on layer `i` stopped. */
    lemma NextAfterWalk(i: nat, r: nat, p: nat)
      requires Structure() && i < currLayer && r < p <= |nodes| && OnLayer(nodes, i, r) && r == BeforeAt(nodes, i, p)
      ensures i < |nodes[r].layers|
      ensures var a := AfterAt(nodes, i, r);
        && p <= a && nodes[r].layers[i].next == NodeAt(nodes, a)
        && (a < |nodes| ==> nodes[r].layers[i].span == a - r && nodes[a].value != null)
      ensures i == 0 && p < |nodes| ==> AfterAt(nodes, i, r) == p
    {
      AtNode(nodes, currLayer, i, r);
      BeforeGap(Heights(nodes), i, p);
      if i == 0 {
        BottomLayer(nodes, currLayer, p);
      }
    }

    lemma ItemsAre()
      requires Structure()
      ensures |Items()| == |nodes| - 1 == currLength
      ensures forall j | 1 <= j < |nodes| :: nodes[j].value == Items()[j - 1]
    {
    }

    /** Copies the items from rank `start` on into `values`, at most `num` of them. */
    method GetByRankRange(start: int, num: int, values: array<RankItem?>) returns (ok: bool)
      requires Structure()
      modifies values
      ensures ok <==> 0 <= start < |nodes| && 0 < num <= values.Length
      ensures forall j | 0 <= j < values.Length ::
        values[j] == if ok && j < num && start + j < |nodes| then nodes[start + j].value else old(values[j])
    {
      hide Before, After, BeforeAt, AfterAt, Distinct, Structure, LayerAt;
      var node := GetNodeByRank(start);
      if node == null || num <= 0 {
        return false;
      }
      if values.Length < num {
        return false;
      }
      assert nodes[start] == node;
      values[0] := node.value;
      var i := 1;
      while i < num
        invariant 1 <= i <= num && start + i <= |nodes| && node == nodes[start + i - 1]
        invariant forall j | 0 <= j < values.Length ::
          values[j] == if j < i then nodes[start + j].value else old(values[j])
      {
        NextOnBottom(start + i);
        if node.layers[0].next == null {
          break;
        }
        values[i] := node.layers[0].next.value;
        node := node.layers[0].next;
        i := i + 1;
      }
      return true;
    }

    lemma ItemsUpTo(r: nat)
      requires Structure() && r < |nodes|
      ensures |nodes| == |Items()| + 1 && Items()[..|nodes| - 1] == Items()
      ensures r + 1 < |nodes| ==> nodes[r + 1].value != null && Items()[..r + 1] == Items()[..r] + [nodes[r + 1].value]
    {
      ItemAt(r);
      hide *;
    }

    lemma ItemAt(r: nat)
      requires Structure() && r < |nodes|
      ensures |nodes| == |Items()| + 1 && (r + 1 < |nodes| ==> nodes[r + 1].value != null && Items()[r] == nodes[r + 1].value)
    {
      hide LayerOk, OnLayer, Distinct;
      assert Valued(nodes);
    }

    /** The whole list, read off the bottom layer. */
    method PullList() returns (list: seq<RankItem>)
      requires Formed()
      ensures list == Items()
    {
      assert Valued(nodes) && nodes[0] == head;
      hide Before, After, BeforeAt, AfterAt, Structure, Tallied, Ended, Items;
      var node := head;
      list := [];
      ghost var r: nat := 0;
      NextOnBottom(1);
      ItemsUpTo(0);
      while node.layers[0].next != null
        invariant r < |nodes| == |Items()| + 1 && node == nodes[r] && list == Items()[..r]
        invariant 0 < |node.layers| && node.layers[0].next == NodeAt(nodes, r + 1)
        decreases |nodes| - r
      {
        ItemsUpTo(r);
        list := list + [node.layers[0].next.value];
        node := node.layers[0].next;
        r := r + 1;
        NextOnBottom(r + 1);
      }
    }

    /** The bookkeeping after the node at position `k` was unlinked. */
    method NoteDeleted(node: SkipNode, ghost k: nat)
      requires 1 <= k < |nodes| && nodes[k] == node && 1 <= node.height <= MAX_LAYER && 0 < |node.layers|
      requires Distinct(nodes) && nodes[0] == head
      requires Ended() && Tallied() && currLength == |nodes| - 1
      requires node.layers[0].prev == nodes[k - 1]
      modifies this`tail, this`currLength, this`nodes, lengthsNum
      ensures nodes == Take(old(nodes), k)
      ensures Ended() && Tallied() && currLength == |nodes| - 1
    {
      ghost var rest := Take(nodes, k);
      TakePut(nodes, k);
      if tail == node {
        DistinctAt(nodes, |nodes| - 1, k);
        tail := node.layers[0].prev;
      }
      forall h | 1 <= h <= MAX_LAYER
        ensures lengthsNum[h - 1] == Tally(rest, h) + if h == node.height then 1 else 0
      {
        TallyPut(rest, k, node, h);
      }
      if lengthsNum[node.height - 1] > 0 {
        lengthsNum[node.height - 1] := lengthsNum[node.height - 1] - 1;
      }
      if currLength > 0 {
        currLength := currLength - 1;
      }
      nodes := rest;
    }

    /** Takes out the node at position `k`; above its height the recorded path must lead to it. */
    method DeleteNode(node: SkipNode, ghost k: nat)
      requires Formed() && 1 <= k < |nodes| && nodes[k] == node
      requires forall j | node.height <= j < currLayer :: beforeNode[j] == nodes[BeforeAt(nodes, j, k)]
      modifies this, lengthsNum, set n | n in nodes && n != node
      ensures Formed() && Items() == Take(old(Items()), k - 1) && nodes == Take(old(nodes), k)
      ensures currLayer == if old(currLayer) > 1 && EmptyTop(nodes, old(currLayer)) then old(currLayer) - 1 else old(currLayer)
    {
      hide *;
      Unhook(node, k);
      DropEmptyTop();
    }

    method Unhook(node: SkipNode, ghost k: nat)
      requires Formed() && 1 <= k < |nodes| && nodes[k] == node
      requires forall j | node.height <= j < currLayer :: beforeNode[j] == nodes[BeforeAt(nodes, j, k)]
      modifies this`tail, this`currLength, this`nodes, lengthsNum, set n | n in nodes && n != node
      ensures Formed() && Items() == Take(old(Items()), k - 1) && nodes == Take(old(nodes), k)
    {
      hide Before, After, BeforeAt, AfterAt, Linked, Distinct, Tally, Ended, Tallied, Take, ItemsOf;
      NodeStatics(node, k);
      TakeStatics(nodes, k, node, currLayer);
      ghost var rest: seq<SkipNode> := Take(nodes, k);
      LinkOut(nodes, k, node, beforeNode, currLayer);
      assert Linked(rest, currLayer);
      NoteDeleted(node, k);
      assert nodes == rest;
      assert Linked(rest, currLayer);
    }

    /** Closes the top layer if nobody is on it; lower empty layers stay open. */
    method DropEmptyTop()
      requires Formed()
      modifies this`currLayer
      ensures Formed() && Items() == old(Items())
      ensures currLayer == if old(currLayer) > 1 && EmptyTop(nodes, old(currLayer)) then old(currLayer) - 1 else old(currLayer)
    {
      hide Before, After, BeforeAt, AfterAt, Linked, Ended, Tallied, ItemsOf;
      if currLayer > 1 {
        DropTop(nodes, currLayer);
        if head.layers[currLayer - 1].next == null {
          currLayer := currLayer - 1;
        }
      }
    }

    lemma NodeStatics(node: SkipNode, k: nat)
      requires Structure() && 1 <= k < |nodes| && nodes[k] == node
      ensures Valued(nodes) && Distinct(nodes) && HeightsWithin(nodes, currLayer)
      ensures 1 <= node.height <= MAX_LAYER && currLayer <= MAX_LAYER
    {
    }

    lemma PathNodes(k: nat)
      requires Structure() && Path(nodes, k, currLayer, beforeNode[..])
      ensures forall j | 0 <= j < currLayer :: beforeNode[j] == nodes[BeforeAt(nodes, j, k)]
      ensures Valued(nodes) && |Items()| == |nodes| - 1
    {
      hide Before, After;
      assert forall j | 0 <= j < currLayer :: beforeNode[j] == beforeNode[..][j];
    }

    /** A deletion once the node at position `k` and the path to it are known. */
    method DeleteAt(node: SkipNode, ghost k: nat)
      requires Valid() && 1 <= k < |nodes| && nodes[k] == node
      requires Path(nodes, k, currLayer, beforeNode[..])
      modifies this, lengthsNum, nodes
      ensures Valid() && Items() == Take(old(Items()), k - 1) && nodes == Take(old(nodes), k)
      ensures forall n | n in nodes :: n in old(nodes)
      ensures currLayer == if old(currLayer) > 1 && EmptyTop(nodes, old(currLayer)) then old(currLayer) - 1 else old(currLayer)
    {
      PathNodes(k);
      hide Before, After, BeforeAt, AfterAt, Structure, Tallied, Ended, Path, Items;
      ghost var before := Items();
      RowsTake(before, k - 1);
      RemoveOne(Rows(before), k - 1);
      ghost var after := Take(before, k - 1);
      ghost var left := Rows(after);
      TakeMembers(nodes, k);
      hide Rows, Descending;
      DeleteNode(node, k);
      assert Rows(after) == left;
    }

    /** Where `v` would be, and whose row is there. */
    lemma DeletePlan(v: RankItem) returns (c: nat)
      requires Valid()
      ensures Structure() && |nodes| == |Items()| + 1 && Valued(nodes)
      ensures c == Cut(Rows(Items()), v.data) && CutAt(nodes, v.data, c + 1)
      ensures c < |Items()| ==> nodes[c + 1].value.data == Rows(Items())[c]
    {
      assert Valued(nodes);
      hide Before, After, BeforeAt, AfterAt, Linked, Distinct, Tallied, Ended, Tally;
      c := Cut(Rows(Items()), v.data);
      CutIsCut(Rows(Items()), v.data);
      CutFromRows(nodes, v.data, c);
      assert c < |Items()| ==> nodes[c + 1].value.data == Rows(Items())[c];
    }

    /** Removes the first item that does not rank before `v`, provided it has the key of `v`. */
    method Delete(v: RankItem) returns (ok: bool)
      requires Valid()
      modifies this, lengthsNum, beforeNode, nodes
      ensures Valid()
      ensures var c := Cut(old(Rows(Items())), v.data);
        && ok == (c < |old(Items())| && KeyEqual(old(Rows(Items())[c]), v.data))
        && Items() == (if ok then Take(old(Items()), c) else old(Items()))
        && (ok ==> c + 1 < |old(nodes)| && nodes == Take(old(nodes), c + 1)) && (!ok ==> nodes == old(nodes))
      ensures currLayer ==
        if ok && old(currLayer) > 1 && EmptyTop(nodes, old(currLayer)) then old(currLayer) - 1 else old(currLayer)
      ensures forall n | n in nodes :: n in old(nodes)
    {
      if currLength == 0 {
        return false;
      }
      ghost var c := DeletePlan(v);
      hide Before, After, BeforeAt, AfterAt, Structure, Tallied, Ended, Rows, Cut, CutAt, Path, EmptyTop, Items;
      hide Take, Descending;
      var node := GetNode(v, c + 1);
      if node == null {
        return false;
      }
      DeleteAt(node, c + 1);
      return true;
    }
  }
}
