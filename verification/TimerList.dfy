/** The doubly linked list of connection timers that fills one slot of the timer wheel. */
module TimerLists {
  import opened Sequences

  /** The sequence without the first occurrence of `x`. */
  ghost function Without<T>(s: seq<T>, x: T): seq<T> {
    if s == [] then [] else if s[0] == x then s[1..] else [s[0]] + Without(s[1..], x)
  }

  lemma {:induction false} WithoutMembers<T>(s: seq<T>, x: T)
    ensures forall y | y in Without(s, x) :: y in s
    ensures forall y | y in s && y != x :: y in Without(s, x)
  {
    if s != [] && s[0] != x {
      WithoutMembers(s[1..], x);
    }
  }

  lemma {:induction false} WithoutAt<T>(s: seq<T>, k: nat)
    requires k < |s| && forall j | 0 <= j < k :: s[j] != s[k]
    ensures Without(s, s[k]) == Take(s, k)
  {
    if k > 0 {
      WithoutAt(s[1..], k - 1);
      assert s[1..][..k - 1] == s[1..k];
    }
  }

  ghost function At(nodes: seq<ConnTimer>, i: int): ConnTimer? {
    if 0 <= i < |nodes| then nodes[i] else null
  }

  /** Every node points to its neighbours. */
  ghost predicate Linked(nodes: seq<ConnTimer>)
    reads nodes
  {
    forall i {:trigger nodes[i].prev} {:trigger nodes[i].next} | 0 <= i < |nodes| ::
      nodes[i].prev == At(nodes, i - 1) && nodes[i].next == At(nodes, i + 1)
  }

  class ConnTimer {
    const playerId: int
    var next: ConnTimer?
    var prev: ConnTimer?

    /** The one list this timer is ever part of. */
    ghost const home: ConnTimerList

    constructor (playerId: int, ghost home: ConnTimerList)
      ensures this.playerId == playerId && this.home == home && next == null && prev == null
    {
      this.playerId := playerId;
      this.home := home;
      next := null;
      prev := null;
    }
  }

  class ConnTimerList {
    var head: ConnTimer?
    var tail: ConnTimer?

    /** The timers in list order. */
    ghost var nodes: seq<ConnTimer>

    ghost predicate Valid()
      reads this, nodes
    {
      && (forall i | 0 <= i < |nodes| :: nodes[i].home == this)
      && Linked(nodes) && Distinct(nodes)
      && head == At(nodes, 0) && tail == At(nodes, |nodes| - 1)
    }

    constructor ()
      ensures Valid() && nodes == []
    {
      head := null;
      tail := null;
      nodes := [];
    }

    /** Appends a timer for the player. */
    method Add(playerId: int) returns (node: ConnTimer)
      requires Valid()
      modifies this, nodes
      ensures Valid() && fresh(node) && node.playerId == playerId && node.home == this
      ensures nodes == old(nodes) + [node]
    {
      node := new ConnTimer(playerId, this);
      Append(nodes, node, tail);
      if head == null {
        head := node;
      }
      tail := node;
      nodes := nodes + [node];
    }

    /** Unlinks a timer of this list; the timer itself still points to its old successor. */
    method Remove(timer: ConnTimer)
      requires Valid() && timer in nodes
      modifies this, set n | n in nodes && n != timer
      ensures Valid() && nodes == Without(old(nodes), timer)
    {
      ghost var k :| 0 <= k < |nodes| && nodes[k] == timer;
      WithoutMember(nodes, k);
      RemoveAt(timer, k);
    }

    method RemoveAt(timer: ConnTimer, ghost k: nat)
      requires Valid() && k < |nodes| && nodes[k] == timer
      modifies this, set n | n in nodes && n != timer
      ensures Valid() && nodes == Take(old(nodes), k)
    {
      assert timer.prev == At(nodes, k - 1) && timer.next == At(nodes, k + 1);
      RestOf(nodes, k);
      hide Linked, Distinct, At, Take;
      Bypass(timer, nodes, k);
      if timer == head {
        head := timer.next;
      }
      if timer == tail {
        tail := timer.prev;
      }
      nodes := Take(nodes, k);
    }
  }

  /** Links a new node behind the last one. */
  method Append(ghost nodes: seq<ConnTimer>, node: ConnTimer, tail: ConnTimer?)
    requires Linked(nodes) && Distinct(nodes) && node !in nodes && tail == At(nodes, |nodes| - 1)
    requires node.next == null && node.prev == null
    modifies nodes, node
    ensures Linked(nodes + [node]) && Distinct(nodes + [node])
  {
    if tail != null {
      node.prev := tail;
      tail.next := node;
    }
    ghost var longer := nodes + [node];
    forall i | 0 <= i < |longer|
      ensures longer[i].prev == At(longer, i - 1) && longer[i].next == At(longer, i + 1)
    {
      assert i < |nodes| - 1 ==> nodes[i] != nodes[|nodes| - 1];
    }
  }

  lemma WithoutGone(nodes: seq<ConnTimer>, x: ConnTimer)
    requires Distinct(nodes)
    ensures x !in Without(nodes, x)
  {
    if x in nodes {
      var k :| 0 <= k < |nodes| && nodes[k] == x;
      WithoutMember(nodes, k);
    } else {
      WithoutMembers(nodes, x);
    }
  }

  lemma WithoutMember(nodes: seq<ConnTimer>, k: nat)
    requires Distinct(nodes) && k < |nodes|
    ensures Without(nodes, nodes[k]) == Take(nodes, k)
  {
    WithoutAt(nodes, k);
  }

  lemma RestOf(nodes: seq<ConnTimer>, k: nat)
    requires Distinct(nodes) && k < |nodes|
    ensures var rest := Take(nodes, k);
      && Distinct(rest) && (forall n | n in rest :: n in nodes)
      && At(rest, 0) == (if nodes[k] == At(nodes, 0) then At(nodes, k + 1) else At(nodes, 0))
      && At(rest, |rest| - 1) == (if nodes[k] == At(nodes, |nodes| - 1) then At(nodes, k - 1) else At(nodes, |nodes| - 1))
  {
  }

  /** The neighbours of a node point past it. */
  method Bypass(timer: ConnTimer, ghost nodes: seq<ConnTimer>, ghost k: nat)
    requires Linked(nodes) && Distinct(nodes) && k < |nodes| && nodes[k] == timer
    modifies set n | n in nodes && n != timer
    ensures Linked(Take(nodes, k))
  {
    assert timer.prev == At(nodes, k - 1) && timer.next == At(nodes, k + 1);
    if timer.prev != null {
      timer.prev.next := timer.next;
    }
    if timer.next != null {
      timer.next.prev := timer.prev;
    }
    ghost var rest := Take(nodes, k);
    forall i | 0 <= i < |rest|
      ensures rest[i].prev == At(rest, i - 1) && rest[i].next == At(rest, i + 1)
    {
      var o := if i < k then i else i + 1;
      assert rest[i] == nodes[o];
      assert o < k - 1 ==> nodes[o] != nodes[k - 1];
      assert o > k + 1 ==> nodes[o] != nodes[k + 1];
    }
  }
}
