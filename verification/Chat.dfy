/** The chat log of a channel: a linked list of messages, oldest first, over a fixed pool of items. */
module Chats {
  import opened ItemPools
  import opened Sequences

  datatype ChatMsg = ChatMsg(playerId: int, playerName: string, playerLevel: int, playerHead: int,
    content: seq<int>, extraValue: int)

  datatype Entry = Entry(msg: ChatMsg, sendTime: int)

  /** The entries that have not yet existed for `exist` seconds. */
  ghost function Kept(log: seq<Entry>, exist: int, now: int): (r: seq<Entry>)
    ensures |r| <= |log|
  {
    if log == [] then [] else
      (if now - log[0].sendTime < exist then [log[0]] else []) + Kept(log[1..], exist, now)
  }

  ghost predicate LastExpired(log: seq<Entry>, exist: int, now: int) {
    log != [] && now - log[|log| - 1].sendTime >= exist
  }

  /** The log after a message: the expired entries go, then the oldest if there is still no room. */
  ghost function Pushed(log: seq<Entry>, exist: int, cap: nat, now: int, e: Entry): seq<Entry> {
    var kept := Kept(log, exist, now);
    (if |kept| >= cap && |kept| > 0 then kept[1..] else kept) + [e]
  }

  /**
   When a push does that: there is more than one item and the last message has not expired, or nothing is kept
   anyway.  Otherwise the code loses the end of the list, or links its only item to itself.
   */
  ghost predicate Fits(log: seq<Entry>, exist: int, cap: nat, now: int) {
    Kept(log, exist, now) == [] || (2 <= cap && !LastExpired(log, exist, now))
  }

  /** What a push leaves when the last message has expired and others have not is not what it should leave. */
  lemma KeptIsNotPushed(log: seq<Entry>, exist: int, cap: nat, now: int, e: Entry)
    requires LastExpired(log, exist, now) && |log| <= cap
    ensures Kept(log, exist, now) != Pushed(log, exist, cap, now, e)
  {
    KeptLess(log, exist, now);
  }

  lemma Regroup(a: seq<Entry>, e: Entry, b: seq<Entry>)
    ensures a + ([e] + b) == a + [e] + b
  {
  }

  lemma KeptCons(e: Entry, es: seq<Entry>, exist: int, now: int)
    ensures Kept([e] + es, exist, now) ==
      if now - e.sendTime < exist then [e] + Kept(es, exist, now) else Kept(es, exist, now)
  {
    assert ([e] + es)[1..] == es;
  }

  lemma {:induction false} KeptLess(log: seq<Entry>, exist: int, now: int)
    ensures LastExpired(log, exist, now) ==> |Kept(log, exist, now)| < |log|
  {
    if |log| > 1 {
      KeptLess(log[1..], exist, now);
    }
  }

  class ChatItem {
    var msg: ChatMsg
    var sendTime: int
    var prev: ChatItem?
    var next: ChatItem?

    constructor ()
      ensures prev == null && next == null
    {
      prev, next := null, null;
    }
  }

  /** The items of `s` are linked in both directions. */
  ghost predicate Links(s: seq<ChatItem>)
    reads s`prev, s`next
  {
    forall i {:trigger s[i].next} {:trigger s[i].prev} | 0 <= i < |s| ::
      && s[i].next == (if i + 1 < |s| then s[i + 1] else null)
      && s[i].prev == (if i > 0 then s[i - 1] else null)
  }

  ghost function Entries(s: seq<ChatItem>): (r: seq<Entry>)
    reads s`msg, s`sendTime
    ensures |r| == |s|
  {
    if s == [] then [] else [Entry(s[0].msg, s[0].sendTime)] + Entries(s[1..])
  }

  lemma {:induction false} EntriesMore(s: seq<ChatItem>, it: ChatItem)
    ensures Entries(s + [it]) == Entries(s) + [Entry(it.msg, it.sendTime)]
  {
    if s == [] {
      assert s + [it] == [it] && [it][1..] == [];
    } else {
      assert (s + [it])[1..] == s[1..] + [it];
      EntriesMore(s[1..], it);
    }
  }

  lemma EntriesCons(s: seq<ChatItem>)
    requires s != []
    ensures Entries(s) == [Entry(s[0].msg, s[0].sendTime)] + Entries(s[1..])
  {
  }

  ghost function First(s: seq<ChatItem>): ChatItem? {
    if s == [] then null else s[0]
  }

  ghost function Last(s: seq<ChatItem>): ChatItem? {
    if s == [] then null else s[|s| - 1]
  }

  /** `s` and `t` together hold every object once. */
  ghost predicate Partition<T>(s: seq<T>, t: seq<T>, objects: set<T>) {
    multiset(s) + multiset(t) == multiset(objects)
  }

  lemma NoTwice<T>(s: seq<T>, t: seq<T>, objects: set<T>)
    requires Partition(s, t, objects)
    ensures Distinct(s)
    ensures forall i | 0 <= i < |s| :: s[i] !in t && s[i] in objects
    ensures forall i | 0 <= i < |t| :: t[i] in objects
    ensures |s| + |t| == |objects|
  {
    forall i, j | 0 <= i < j < |s|
      ensures s[i] != s[j]
    {
      assert s == s[..i] + [s[i]] + s[i + 1..j] + [s[j]] + s[j + 1..];
      assert s[i] == s[j] ==> multiset(s)[s[i]] >= 2;
      assert multiset(objects)[s[i]] <= 1;
    }
    forall i | 0 <= i < |s|
      ensures s[i] !in t && s[i] in objects
    {
      assert multiset(s)[s[i]] >= 1;
      assert (multiset(s) + multiset(t))[s[i]] == multiset(s)[s[i]] + multiset(t)[s[i]];
      assert multiset(objects)[s[i]] <= 1;
      assert s[i] in multiset(objects);
    }
    forall i | 0 <= i < |t|
      ensures t[i] in objects
    {
      assert t[i] in multiset(t);
      assert t[i] in multiset(objects);
    }
    assert |multiset(s)| == |s| && |multiset(t)| == |t| && |multiset(objects)| == |objects|;
  }

  /** Giving an item back moves it to the other side. */
  lemma GivenBack<T>(s: seq<T>, k: nat, t: seq<T>, objects: set<T>)
    requires k < |s| && Partition(s, t, objects)
    ensures Partition(Take(s, k), [s[k]] + t, objects)
  {
    assert s == s[..k] + [s[k]] + s[k + 1..];
  }

  lemma Taken<T>(s: seq<T>, t: seq<T>, objects: set<T>)
    requires t != [] && Partition(s, t, objects)
    ensures Partition(s + [t[0]], t[1..], objects)
  {
    assert t == [t[0]] + t[1..];
  }

  lemma FirstOfTake(s: seq<ChatItem>, k: nat)
    requires k < |s| && Links(s) && Distinct(s)
    ensures First(Take(s, k)) == if s[k] == First(s) then s[k].next else First(s)
  {
  }

  /** The next item loses its link back. */
  method Behead(msg: ChatItem, ghost s: seq<ChatItem>, ghost rest: seq<ChatItem>, ghost objects: set<ChatItem>)
      returns (n: ChatItem?)
    requires s != [] && msg == s[0] && rest == s[1..] && Links(s) && Distinct(s)
    requires msg.next == null || msg.next in objects
    modifies objects`prev
    ensures Links(rest) && n == old(msg.next)
  {
    n := msg.next;
    if n != null {
      n.prev := null;
    }
  }

  /** Where the tail is when a message is linked: at the last item, nowhere, or at the very item that gets the message. */
  datatype TailState = AtLast | Nowhere | AtNew

  /** Fills an item and links it to what is taken for the last one. */
  method Attach(item: ChatItem, tail: ChatItem?, ghost s: seq<ChatItem>, msg: ChatMsg, sent: int, ghost at: TailState)
    requires Links(s) && Distinct(s) && item !in s
    requires tail == match at case AtLast => Last(s) case Nowhere => null case AtNew => item
    modifies item, s`next
    ensures at.AtLast? ==> Links(s + [item]) && Entries(s + [item]) == old(Entries(s)) + [Entry(msg, sent)]
    ensures at.Nowhere? ==> Links(s) && Entries(s) == old(Entries(s))
    ensures at.AtNew? ==> item.next == item == item.prev
  {
    item.msg := msg;
    item.sendTime := sent;
    item.prev := tail;
    item.next := null;
    assert Entries(s) == old(Entries(s)) by {
      hide Entries, Links;
    }
    EntriesMore(s, item);
    hide Entries;
    if tail != null {
      tail.next := item;
    }
  }

  /** Links the neighbours of the item at position `k` to each other. */
  method Bypass(msg: ChatItem, ghost s: seq<ChatItem>, ghost k: nat)
    requires k < |s| && s[k] == msg && Links(s)
    requires Distinct(s)
    modifies s`prev, s`next
    ensures Links(Take(s, k)) && msg.next == old(msg.next)
  {
    if msg.prev != null {
      msg.prev.next := msg.next;
    }
    if msg.next != null {
      msg.next.prev := msg.prev;
    }
  }

  class ChatMgr {
    const existTime: int
    var msgNum: int
    var head: ChatItem?
    var tail: ChatItem?
    const pool: SimpleItemPool<ChatItem>
    ghost const objects: set<ChatItem>
    ghost var live: seq<ChatItem>

    /** The list is well formed, and list and free part of the pool share out the objects. */
    ghost predicate Linked()
      reads this, pool, pool.items, live
    {
      && pool.Valid() && pool.items.Length == |objects|
      && Partition(live, pool.Free(), objects)
      && Links(live) && head == First(live)
    }

    ghost predicate Valid()
      reads this, pool, pool.items, live
    {
      Linked() && tail == Last(live) && 1 <= |objects|
    }

    /** The messages in the log, oldest first. */
    ghost function Log(): seq<Entry>
      reads this`live, live`msg, live`sendTime
    {
      Entries(live)
    }

    constructor (existTime: int, made: seq<ChatItem>)
      requires 1 <= |made| && Distinct(made)
      ensures Valid() && Log() == [] && this.existTime == existTime && |objects| == |made|
      ensures fresh(pool) && fresh(pool.items)
    {
      this.existTime := existTime;
      msgNum, head, tail := 0, null, null;
      pool := new SimpleItemPool.Init(made);
      objects := set x | x in made;
      live := [];
      AllOnce(made);
    }

    /** Moves head and tail off the item at position `k` and gives it back to the pool. */
    method GiveBack(msg: ChatItem, ghost k: nat)
      requires Linked() && k < |live| && msg == live[k]
      modifies this`head, this`tail, pool`canUseStart, pool.items
      ensures head == First(Take(live, k)) && tail == if old(tail) == msg then null else old(tail)
      ensures pool.Valid() && Partition(Take(live, k), pool.Free(), objects)
    {
      NoTwice(live, pool.Free(), objects);
      GivenBack(live, k, pool.Free(), objects);
      FirstOfTake(live, k);
      hide Partition, Take, Links, First;
      if msg == head {
        head := msg.next;
      }
      if msg == tail {
        tail := null;
      }
      var _ := pool.Recycle(msg);
    }

    /** Takes the item at position `k` out of the list and gives it back to the pool. */
    method Unlink(msg: ChatItem, ghost k: nat)
      requires Linked() && k < |live| && msg == live[k]
      modifies this`head, this`tail, this`live, pool`canUseStart, pool.items, objects`prev, objects`next
      ensures Linked() && live == Take(old(live), k)
      ensures tail == if old(tail) == msg then null else old(tail)
      ensures msg.next == old(msg.next)
    {
      assert Distinct(live) && forall i | 0 <= i < |live| :: live[i] in objects by {
        NoTwice(live, pool.Free(), objects);
      }
      hide Partition, Take, Links, First, Distinct;
      GiveBack(msg, k);
      Bypass(msg, live, k);
      live := Take(live, k);
    }

    /**
     Where the walk over the list is: `kept` was visited and stays, `rest` is to come.  In the end `goal`
     will be left; `gone` says that the last item will not be.
     */
    ghost predicate Walked(kept: seq<ChatItem>, rest: seq<ChatItem>, goal: seq<Entry>, gone: bool, now: int)
      reads this, pool, pool.items, live, kept, rest
    {
      && Joins(live, kept, rest) && Linked() && Leads(kept, rest, goal, now)
      && TailIs(kept, rest, gone, now)
    }

    static ghost predicate Joins(s: seq<ChatItem>, kept: seq<ChatItem>, rest: seq<ChatItem>) {
      s == kept + rest
    }

    /** `goal` is what will be left of the log. */
    ghost predicate Leads(kept: seq<ChatItem>, rest: seq<ChatItem>, goal: seq<Entry>, now: int)
      reads kept`msg, kept`sendTime, rest`msg, rest`sendTime
    {
      goal == Entries(kept) + Kept(Entries(rest), existTime, now)
    }

    /** The tail is the last item, until that goes. */
    ghost predicate TailIs(kept: seq<ChatItem>, rest: seq<ChatItem>, gone: bool, now: int)
      reads this`tail, rest`msg, rest`sendTime
    {
      if rest == [] then tail == if gone then null else Last(kept)
      else tail == Last(rest) && gone == LastExpired(Entries(rest), existTime, now)
    }

    /** The next item of the walk, and what is left after it. */
    lemma AtItem(kept: seq<ChatItem>, rest: seq<ChatItem>)
      requires Linked() && Joins(live, kept, rest) && rest != []
      ensures |kept| < |live| && live[|kept|] == rest[0] && Joins(Take(live, |kept|), kept, rest[1..])
      ensures Joins(live, kept + [rest[0]], rest[1..]) && rest[0].next == First(rest[1..])
      ensures Last(rest) == rest[0] <==> rest[1..] == []
    {
      NoTwice(live, pool.Free(), objects);
      assert live[|kept|] == rest[0] && live[|live| - 1] == rest[|rest| - 1];
      if |rest| > 1 {
        assert live[|kept| + 1] == rest[1];
      }
    }

    /** What the next item means for the goal. */
    lemma GoalAt(kept: seq<ChatItem>, rest: seq<ChatItem>, goal: seq<Entry>, now: int)
      requires rest != [] && Leads(kept, rest, goal, now)
      ensures now - rest[0].sendTime < existTime ==> Leads(kept + [rest[0]], rest[1..], goal, now)
      ensures now - rest[0].sendTime >= existTime ==> Leads(kept, rest[1..], goal, now)
    {
      EntriesMore(kept, rest[0]);
      EntriesCons(rest);
      hide Entries, Kept;
      KeptCons(Entry(rest[0].msg, rest[0].sendTime), Entries(rest[1..]), existTime, now);
      Regroup(Entries(kept), Entry(rest[0].msg, rest[0].sendTime), Kept(Entries(rest[1..]), existTime, now));
    }

    /** An item that stays leaves the tail where it is. */
    lemma TailStays(kept: seq<ChatItem>, rest: seq<ChatItem>, gone: bool, now: int)
      requires rest != [] && TailIs(kept, rest, gone, now) && now - rest[0].sendTime < existTime
      ensures TailIs(kept + [rest[0]], rest[1..], gone, now)
    {
      EntriesCons(rest);
    }

    /** The end of the walk, when its next item is about to go. */
    ghost predicate Ending(tail0: ChatItem?, rest: seq<ChatItem>, gone: bool, now: int)
      reads rest`msg, rest`sendTime
    {
      && rest != [] && tail0 == Last(rest) && gone == LastExpired(Entries(rest), existTime, now)
      && (Last(rest) == rest[0] <==> rest[1..] == []) && now - rest[0].sendTime >= existTime
    }

    lemma Dropping(kept: seq<ChatItem>, rest: seq<ChatItem>, goal: seq<Entry>, gone: bool, now: int)
      requires Walked(kept, rest, goal, gone, now) && rest != [] && now - rest[0].sendTime >= existTime
      ensures Linked() && |kept| < |live| && live[|kept|] == rest[0] && Joins(Take(live, |kept|), kept, rest[1..])
      ensures Leads(kept, rest[1..], goal, now) && Ending(tail, rest, gone, now)
    {
      AtItem(kept, rest);
      GoalAt(kept, rest, goal, now);
    }

    /** An item that went takes the tail with it if it was the last. */
    lemma Dropped(tail0: ChatItem?, kept: seq<ChatItem>, rest: seq<ChatItem>, goal: seq<Entry>, gone: bool, now: int)
      requires Ending(tail0, rest, gone, now) && tail == if tail0 == rest[0] then null else tail0
      requires Linked() && Joins(live, kept, rest[1..]) && Leads(kept, rest[1..], goal, now)
      ensures Walked(kept, rest[1..], goal, gone, now)
    {
      EntriesCons(rest);
    }

    /** An item that has expired goes back to the pool. */
    method DropItem(msg: ChatItem, now: int, ghost kept: seq<ChatItem>, ghost rest: seq<ChatItem>, ghost goal: seq<Entry>, ghost gone: bool)
      requires Walked(kept, rest, goal, gone, now) && rest != [] && msg == rest[0] && now - msg.sendTime >= existTime
      modifies this`head, this`tail, this`live, pool`canUseStart, pool.items, objects`prev, objects`next
      ensures Walked(kept, rest[1..], goal, gone, now) && msg.next == old(msg.next)
    {
      hide Walked, Ending, Linked, Take, Joins, Leads, TailIs;
      Dropping(kept, rest, goal, gone, now);
      Unlink(msg, |kept|);
      Dropped(old(tail), kept, rest, goal, gone, now);
    }

    /** An item that has not stays. */
    lemma KeepItem(now: int, kept: seq<ChatItem>, rest: seq<ChatItem>, goal: seq<Entry>, gone: bool)
      requires Walked(kept, rest, goal, gone, now) && rest != [] && now - rest[0].sendTime < existTime
      ensures Walked(kept + [rest[0]], rest[1..], goal, gone, now)
    {
      AtItem(kept, rest);
      GoalAt(kept, rest, goal, now);
      TailStays(kept, rest, gone, now);
      hide Linked, Partition, Take, First, Last, Links, Entries, Kept, LastExpired, Joins, Leads, TailIs;
    }

    /** Looks at one item. */
    method Visit(msg: ChatItem, now: int, ghost kept: seq<ChatItem>, ghost rest: seq<ChatItem>, ghost goal: seq<Entry>, ghost gone: bool)
        returns (next: ChatItem?, ghost kept': seq<ChatItem>)
      requires Walked(kept, rest, goal, gone, now) && rest != [] && msg == rest[0]
      modifies this`head, this`tail, this`live, pool`canUseStart, pool.items, objects`prev, objects`next
      ensures Walked(kept', rest[1..], goal, gone, now) && next == First(rest[1..])
    {
      AtItem(kept, rest);
      if now - msg.sendTime < existTime {
        KeepItem(now, kept, rest, goal, gone);
      }
      hide Walked, Linked, First, Last, Joins;
      kept' := kept;
      if now - msg.sendTime >= existTime {
        DropItem(msg, now, kept, rest, goal, gone);
      } else {
        kept' := kept + [msg];
      }
      next := msg.next;
    }

    /** Gives back the items of the messages that have existed too long, wherever they are. */
    method RecycleOld(now: int)
      requires Valid()
      modifies this`head, this`tail, this`live, pool`canUseStart, pool.items, objects`prev, objects`next
      ensures Linked() && Log() == Kept(old(Log()), existTime, now)
      ensures tail == if LastExpired(old(Log()), existTime, now) then null else Last(live)
    {
      ghost var kept: seq<ChatItem>, rest: seq<ChatItem> := [], live;
      ghost var goal, gone := Kept(Log(), existTime, now), LastExpired(Log(), existTime, now);
      assert kept + rest == rest && Entries(kept) + goal == goal;
      assert Walked(kept, rest, goal, gone, now);
      var msg := head;
      hide Walked, Linked, Kept, Last, Links, LastExpired;
      while msg != null
        invariant Walked(kept, rest, goal, gone, now) && msg == First(rest)
        decreases |rest|
      {
        msg, kept := Visit(msg, now, kept, rest, goal, gone);
        rest := rest[1..];
      }
      WalkEnds(kept, rest, goal, gone, now);
    }

    lemma WalkEnds(kept: seq<ChatItem>, rest: seq<ChatItem>, goal: seq<Entry>, gone: bool, now: int)
      requires Walked(kept, rest, goal, gone, now) && First(rest) == null
      ensures Linked() && Log() == goal && tail == if gone then null else Last(live)
    {
      assert rest == [] && kept + rest == kept && Entries(kept) + [] == Entries(kept);
    }

    /** Gives back the oldest item of a full list; `rest` are the others. */
    method DropOldest(ghost rest: seq<ChatItem>) returns (ok: bool)
      requires Linked() && pool.Free() == [] && 1 <= |objects| && (live != [] ==> rest == live[1..])
      modifies this`head, this`live, pool`canUseStart, pool.items, objects`prev
      ensures ok && Linked() && old(head) != null && pool.Free() != [] && pool.Free()[0] == old(head)
      ensures live == rest && Log() == old(Entries(rest))
    {
      OldestGone(rest);
      hide Linked, Partition, Links, First, Last, Distinct, SimpleItemPool.Free;
      ok := pool.Recycle(head);
      if !ok {
        return;
      }
      head := Behead(head, live, rest, objects);
      live := rest;
      Relink();
    }

    lemma OldestGone(rest: seq<ChatItem>)
      requires Linked() && pool.Free() == [] && 1 <= |objects| && (live != [] ==> rest == live[1..])
      ensures pool.Valid() && pool.items.Length == |objects| == |live|
      ensures head == live[0] && Links(live) && Distinct(live) && rest == live[1..]
      ensures First(rest) == head.next && Partition(rest, [live[0]] + pool.Free(), objects)
      ensures head.next == null || head.next in objects
    {
      NoTwice(live, pool.Free(), objects);
      GivenBack(live, 0, pool.Free(), objects);
      assert Take(live, 0) == live[1..];
    }

    lemma Relink()
      requires pool.Valid() && pool.items.Length == |objects|
      requires Links(live) && head == First(live) && Partition(live, pool.Free(), objects)
      ensures Linked()
    {
    }

    /** What linking leads to. */
    ghost predicate Outcome(at: TailState, log: seq<Entry>)
      reads this, live, head
    {
      match at
      case AtLast => Links(live) && head == First(live) && tail == Last(live) && Log() == log
      case Nowhere => Links(live) && head == First(live) && Log() == log
      case AtNew => head != null && head == head.next == head.prev
    }

    /** Where the tail is when the free item `item` is about to be linked. */
    ghost predicate Poised(at: TailState, item: ChatItem)
      reads this`tail, this`live
    {
      match at
      case AtLast => tail == Last(live)
      case Nowhere => tail == null && live != []
      case AtNew => tail == item && live == []
    }

    /** Fills an item taken from the pool and puts it behind what `tail` says is the last one. */
    method LinkNew(item: ChatItem, msg: ChatMsg, sent: int, ghost at: TailState)
      requires Links(live) && head == First(live) && Distinct(live) && item !in live
      requires Poised(at, item)
      modifies this`head, this`tail, this`msgNum, this`live, item, live`next
      ensures Outcome(at, if at.AtLast? then old(Log()) + [Entry(msg, sent)] else old(Log()))
      ensures at.AtLast? ==> live == old(live) + [item]
    {
      ghost var more := if at.AtLast? then live + [item] else live;
      Linking(item, at);
      hide Links, First, Last, Entries, Distinct, Poised;
      Attach(item, tail, live, msg, sent, at);
      if head == null {
        head := item;
      }
      tail := item;
      msgNum := msgNum + 1;
      live := more;
    }

    lemma Linking(item: ChatItem, at: TailState)
      requires head == First(live) && Poised(at, item)
      ensures tail == match at case AtLast => Last(live) case Nowhere => null case AtNew => item
      ensures at.AtLast? ==> First(live + [item]) == (if head == null then item else head) && Last(live + [item]) == item
      ensures head == null <==> live == []
      ensures at.Nowhere? ==> live != []
      ensures at.AtNew? ==> live == []
    {
    }

    /** Takes a free item for a new message and links it. */
    method Append(msg: ChatMsg, sent: int, ghost at: TailState) returns (ok: bool)
      requires Linked() && pool.Free() != [] && 1 <= |objects|
      requires Poised(at, pool.Free()[0])
      modifies this`head, this`tail, this`msgNum, this`live, pool`canUseStart, objects
      ensures ok && (at.AtLast? ==> Valid())
      ensures Outcome(at, if at.AtLast? then old(Log()) + [Entry(msg, sent)] else old(Log()))
    {
      NextFree();
      hide Linked, Partition, Links, First, Last, Entries, Distinct, SimpleItemPool.Free;
      var it := pool.GetFree();
      if it.None? {
        return false;
      }
      LinkNew(it.value, msg, sent, at);
      if at.AtLast? {
        Relink();
      }
      return true;
    }

    lemma NextFree()
      requires Linked() && pool.Free() != []
      ensures pool.Valid() && pool.items.Length == |objects| && Links(live) && head == First(live) && Distinct(live)
      ensures pool.Free()[0] !in live && pool.Free()[0] in objects
      ensures Partition(live + [pool.Free()[0]], pool.Free()[1..], objects)
      ensures (forall i | 0 <= i < |live| :: live[i] in objects) && (live == [] ==> Last(live) == null)
    {
      NoTwice(live, pool.Free(), objects);
      Taken(live, pool.Free(), objects);
    }

    /** Whether the pool still has items: exactly while the list is not full. */
    lemma FreeMeansRoom()
      requires Linked()
      ensures |Log()| <= |objects| && (pool.Free() != [] <==> |Log()| < |objects|)
      ensures forall i | 0 <= i < |live| :: live[i] in objects
    {
      NoTwice(live, pool.Free(), objects);
    }

    /** The items that stay if there is no free one. */
    static ghost function Remaining(s: seq<ChatItem>, cap: nat): seq<ChatItem> {
      if |s| >= cap && s != [] then s[1..] else s
    }

    /** Where the tail of a list is, after recycling, once there is room. */
    ghost function TailAfter(log: seq<Entry>, gone: bool): TailState {
      if log == [] then AtLast else if gone then Nowhere else if 2 <= |objects| then AtLast else AtNew
    }

    lemma WhatRemains(gone: bool)
      requires Linked() && 1 <= |objects| && tail == (if gone then null else Last(live))
      requires gone ==> |Log()| < |objects|
      ensures var next, at := Remaining(live, |objects|), TailAfter(Log(), gone);
        && Entries(next) == (if |Log()| >= |objects| && |Log()| > 0 then Log()[1..] else Log())
        && Ready(at, next) && (at.Nowhere? ==> |Log()| < |objects|)
    {
      FreeMeansRoom();
      if live != [] {
        EntriesCons(live);
      }
    }

    /** The tail for a message that is linked behind `next`, once there is room. */
    ghost predicate Ready(at: TailState, next: seq<ChatItem>)
      reads this`head, this`tail, this`live
    {
      match at
      case AtLast => tail == Last(next)
      case Nowhere => tail == null && next == live != []
      case AtNew => tail == head != null && next == [] != live
    }

    /** Gives back the oldest item if no item is free, which leaves `next`. */
    method MakeRoom(ghost next: seq<ChatItem>, ghost at: TailState) returns (ok: bool)
      requires Linked() && 1 <= |objects| && next == Remaining(live, |objects|) && Ready(at, next)
      modifies this`head, this`live, pool`canUseStart, pool.items, objects`prev
      ensures ok && Linked() && pool.Free() != [] && live == next
      ensures Poised(at, pool.Free()[0]) && Log() == old(Entries(next))
    {
      FreeMeansRoom();
      hide Partition, Linked, Links, First, Last, Distinct, SimpleItemPool.Free;
      var free := pool.HasFree();
      if !free {
        ok := DropOldest(next);
        return;
      }
      return true;
    }

    /** Makes room if there is none and adds a message behind what stays, `next`. */
    method AddTo(msg: ChatMsg, sent: int, ghost next: seq<ChatItem>, ghost at: TailState) returns (ok: bool)
      requires Linked() && 1 <= |objects| && next == Remaining(live, |objects|) && Ready(at, next)
      modifies this`head, this`tail, this`msgNum, this`live, pool`canUseStart, pool.items, objects
      ensures ok && (at.AtLast? ==> Valid())
      ensures Outcome(at, if at.AtLast? then old(Entries(next)) + [Entry(msg, sent)] else old(Entries(next)))
    {
      hide Partition, Linked, Links, First, Entries, Distinct, SimpleItemPool.Free, Last, Remaining, Ready, Poised, Outcome;
      ok := MakeRoom(next, at);
      if ok {
        ok := Append(msg, sent, at);
      }
    }

    /**
     Adds a message; `now` is the clock when expired messages are looked for, `sent` when the message
     is stamped.  It always reports success, but does what it should exactly if the log `Fits`.  If the last message
     expired before another, the new one is not linked to the list; if the only item is in use, it ends up linked to itself.
     */
    method PushChatMsg(msg: ChatMsg, now: int, sent: int) returns (ok: bool)
      requires Valid()
      modifies this`head, this`tail, this`msgNum, this`live, pool`canUseStart, pool.items, objects
      ensures ok
      ensures Fits(old(Log()), existTime, |objects|, now) ==>
        Valid() && Log() == Pushed(old(Log()), existTime, |objects|, now, Entry(msg, sent))
      ensures !Fits(old(Log()), existTime, |objects|, now) && LastExpired(old(Log()), existTime, now) ==>
        Links(live) && head == First(live) && Log() == Kept(old(Log()), existTime, now)
      ensures !Fits(old(Log()), existTime, |objects|, now) && !LastExpired(old(Log()), existTime, now) ==>
        head != null && head == head.next == head.prev
    {
      FreeMeansRoom();
      KeptLess(Log(), existTime, now);
      ghost var gone := LastExpired(Log(), existTime, now);
      hide Partition, Linked, Links, First, Entries, Distinct, SimpleItemPool.Free, Kept, Last, LastExpired, Ready;
      RecycleOld(now);
      ghost var next, at := Remaining(live, |objects|), TailAfter(Log(), gone);
      WhatRemains(gone);
      ok := AddTo(msg, sent, next, at);
    }
  }

  lemma AllOnce<T>(s: seq<T>)
    requires Distinct(s)
    ensures var all := set x | x in s; multiset(s) == multiset(all) && |all| == |s|
  {
    if s != [] {
      var n := |s| - 1;
      AllOnce(s[..n]);
      assert s == s[..n] + [s[n]];
      assert (set x | x in s) == (set x | x in s[..n]) + {s[n]};
    }
  }
}
