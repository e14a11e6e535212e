/** The connection between servers: messages are grouped, packed into frames, and split again on arrival. */
module ServerConns {
  import opened Options
  import opened Wires

  const MSG_HEAD_LEN := 4
  const SEND_LEN := 8192
  const COMPRESS_OVER := 2048

  /** What the sender lets into its queue. */
  predicate Sendable(m: Message) {
    m.typeId < 0x10000 && |m.body| + MSG_HEAD_LEN <= SEND_LEN - 4
  }

  /** One message in a package: type and length, both big-endian, then the body. */
  function Encoded(m: Message): (r: seq<byte>)
    ensures |r| == MSG_HEAD_LEN + |m.body|
  {
    [m.typeId / 0x100 % 0x100, m.typeId % 0x100, |m.body| / 0x100 % 0x100, |m.body| % 0x100] + m.body
  }

  ghost function EncodedAll(ms: seq<Message>): seq<byte> {
    if ms == [] then [] else Encoded(ms[0]) + EncodedAll(ms[1..])
  }

  /** The four header bytes of a message: its type, then the length of its body, high bytes first. */
  lemma MessageLayout(m: Message)
    requires Sendable(m)
    ensures var e := Encoded(m);
      && (e[0] as int) * 0x100 + e[1] == m.typeId && (e[2] as int) * 0x100 + e[3] == |m.body|
      && e[4..] == m.body
  {
  }

  lemma {:induction false} EncodedMore(ms: seq<Message>, m: Message)
    ensures EncodedAll(ms + [m]) == EncodedAll(ms) + Encoded(m)
  {
    if ms == [] {
      assert ms + [m] == [m] && [m][1..] == [];
      assert EncodedAll([m]) == Encoded(m) + [];
    } else {
      assert (ms + [m])[1..] == ms[1..] + [m];
      EncodedMore(ms[1..], m);
    }
  }

  lemma EncodedCons(m: Message, rest: seq<Message>)
    ensures EncodedAll([m] + rest) == Encoded(m) + EncodedAll(rest)
  {
    assert ([m] + rest)[1..] == rest;
  }

  /** Writes the messages of a group; a group without messages is an error. */
  method WriteMsgs(items: seq<Message>) returns (ok: bool, w: seq<byte>)
    ensures ok <==> items != []
    ensures w == EncodedAll(items)
  {
    w := [];
    var i := 0;
    while i < |items|
      invariant 0 <= i <= |items| && w == EncodedAll(items[..i])
    {
      var m := items[i];
      w := w + [m.typeId / 0x100 % 0x100, m.typeId % 0x100, |m.body| / 0x100 % 0x100, |m.body| % 0x100];
      w := w + m.body;
      EncodedMore(items[..i], m);
      assert items[..i + 1] == items[..i] + [m];
      i := i + 1;
    }
    assert items[..i] == items;
    ok := items != [];
  }

  /** Messages that travel in one package. */
  datatype Group = Group(length: nat, items: seq<Message>)

  ghost predicate Packed(g: Group) {
    && g.items != [] && g.length == |EncodedAll(g.items)| <= SEND_LEN
    && forall i | 0 <= i < |g.items| :: Sendable(g.items[i])
  }

  /** The package of a group: a control byte that says whether the messages are compressed, then the messages. */
  ghost function Package(deflate: seq<byte> -> seq<byte>, g: Group): seq<byte> {
    if g.length > COMPRESS_OVER then [1] + deflate(EncodedAll(g.items)) else [0] + EncodedAll(g.items)
  }

  /** Writes one group to the connection. */
  method SendGroup(deflate: seq<byte> -> seq<byte>, g: Group) returns (w: seq<byte>)
    requires Packed(g)
    ensures w == Framed(ServerWire, Package(deflate, g))
    ensures |w| >= 3 && w[2] == (if g.length > 2048 then 1 else 0)
    ensures |w| < 0x10002 ==> (w[0] as int) * 0x100 + w[1] == |w| - 2
  {
    if g.length > COMPRESS_OVER {
      var ok, data := WriteMsgs(g.items);
      data := deflate(data);
      var length := |data| + 1;
      w := [length / 0x100 % 0x100, length % 0x100, 1];
      w := w + data;
    } else {
      var length := g.length + 1;
      w := [length / 0x100 % 0x100, length % 0x100, 0];
      var ok, data := WriteMsgs(g.items);
      w := w + data;
    }
  }

  ghost function Flat(gs: seq<Group>): seq<Message> {
    if gs == [] then [] else Flat(gs[..|gs| - 1]) + gs[|gs| - 1].items
  }

  lemma FlatMore(gs: seq<Group>, g: Group)
    ensures Flat(gs + [g]) == Flat(gs) + g.items
  {
    assert (gs + [g])[..|gs|] == gs;
  }

  lemma PackedMore(g: Group, m: Message)
    requires Packed(g) && Sendable(m) && g.length + |Encoded(m)| <= SEND_LEN
    ensures Packed(Group(g.length + |Encoded(m)|, g.items + [m]))
  {
    EncodedMore(g.items, m);
  }

  lemma PackedOne(m: Message)
    requires Sendable(m)
    ensures Packed(Group(|Encoded(m)|, [m]))
  {
    assert [m][1..] == [];
    assert EncodedAll([m]) == Encoded(m) + [];
  }

  /** The sending half: a queue of groups, and the group being filled while a message is handled. */
  class ServerConn {
    var handing: bool
    var closing: bool
    var sendGroup: Option<Group>
    var sendChan: seq<Group>

    ghost predicate Valid()
      reads this
    {
      && (forall i | 0 <= i < |sendChan| :: Packed(sendChan[i]))
      && (sendGroup.Some? ==> Packed(sendGroup.value))
    }

    /** Every message accepted and not yet written, in order. */
    ghost function Queue(): seq<Message>
      reads this
    {
      Flat(sendChan) + if sendGroup.Some? then sendGroup.value.items else []
    }

    constructor ()
      ensures Valid() && Queue() == [] && sendGroup.None? && !closing
    {
      handing, closing, sendGroup, sendChan := false, false, None, [];
    }

    method EventSend(g: Group)
      requires Valid() && Packed(g) && !closing
      modifies this`sendChan
      ensures Valid() && sendChan == old(sendChan) + [g] && Flat(sendChan) == Flat(old(sendChan)) + g.items
    {
      FlatMore(sendChan, g);
      sendChan := sendChan + [g];
    }

    /** Queues a message of an acceptable size, behind everything queued before it, and leaves no group half filled. */
    method SendData(m: Message, immediate: bool)
      requires Valid() && m.typeId < 0x10000
      modifies this`sendGroup, this`sendChan
      ensures Valid()
      ensures !closing && Sendable(m) ==> Queue() == old(Queue()) + [m] && sendGroup.None?
      ensures !closing && Sendable(m) && old(sendGroup).None? ==>
        sendChan == old(sendChan) + [Group(|Encoded(m)|, [m])]
      ensures closing || !Sendable(m) ==> sendGroup == old(sendGroup) && sendChan == old(sendChan)
    {
      if closing {
        return;
      }
      var length := |m.body| + MSG_HEAD_LEN;
      if length > SEND_LEN - 4 {
        return;
      }
      hide Packed, Encoded;
      if !immediate && handing {
        Fill(m, length);
        SendFlush();
      } else {
        SendFlush();
        SendAlone(m, length);
      }
    }

    method SendAlone(m: Message, length: nat)
      requires Valid() && !closing && Sendable(m) && length == |Encoded(m)| && sendGroup.None?
      modifies this`sendChan
      ensures Valid() && sendChan == old(sendChan) + [Group(length, [m])] && Queue() == old(Queue()) + [m]
    {
      PackedOne(m);
      hide Packed, Encoded;
      EventSend(Group(length, [m]));
    }

    /** Adds a message to the group being filled; a group that would get too long is sent first. */
    method Fill(m: Message, length: nat)
      requires Valid() && !closing && Sendable(m) && length == |Encoded(m)|
      modifies this`sendGroup, this`sendChan
      ensures Valid() && sendGroup.Some? && Queue() == old(Queue()) + [m]
      ensures old(sendGroup).None? ==> sendChan == old(sendChan) && sendGroup == Some(Group(length, [m]))
    {
      PackedOne(m);
      hide Packed, Encoded;
      if sendGroup.None? {
        sendGroup := Some(Group(length, [m]));
      } else if sendGroup.value.length + length > SEND_LEN {
        EventSend(sendGroup.value);
        sendGroup := Some(Group(length, [m]));
      } else {
        PackedMore(sendGroup.value, m);
        sendGroup := Some(Group(sendGroup.value.length + length, sendGroup.value.items + [m]));
      }
    }

    /** Sends the group being filled. */
    method SendFlush()
      requires Valid()
      modifies this`sendGroup, this`sendChan
      ensures Valid() && Queue() == old(Queue()) && (!closing ==> sendGroup.None?)
      ensures sendChan ==
        if !closing && old(sendGroup).Some? then old(sendChan) + [old(sendGroup).value] else old(sendChan)
    {
      hide Packed;
      if closing {
        return;
      }
      if sendGroup.Some? {
        EventSend(sendGroup.value);
        sendGroup := None;
      }
    }
  }

  /** The receive loop: the length read last, the unread bytes, and the frames handed on. */
  class ServerReceiver {
    var l: nat
    var mb: seq<byte>
    var frames: seq<seq<byte>>
    var dropped: bool

    ghost function State(): Stream
      reads this
    {
      if dropped then Dropped(frames) else Open(l, mb, frames)
    }

    constructor ()
      ensures State() == FRESH
    {
      l, mb, frames, dropped := 0, [], [], false;
    }

    /** Takes in what one read returned. */
    method OnRead(rb: seq<byte>)
      requires !dropped
      modifies this
      ensures State() == Feed(ServerWire, old(State()), rb)
    {
      mb := mb + rb;
      ghost var goal := Drain(ServerWire, l, mb, frames);
      while true
        invariant !dropped && Drain(ServerWire, l, mb, frames) == goal
        decreases |mb|
      {
        if l == 0 && |mb| >= 2 {
          l := mb[0];
          l := l * 0x100;
          l := l + mb[1];
          mb := mb[2..];
          if l > RECV_LEN {
            dropped := true;
            return;
          }
        }
        if l > 0 && |mb| >= l {
          frames := frames + [mb[..l]];
          mb := mb[l..];
          l := 0;
        } else {
          break;
        }
      }
    }
  }

  datatype Outcome = Handled | Malformed | Panicked

  datatype Split = Split(handled: seq<Message>, outcome: Outcome)

  function HeadType(data: seq<byte>): (t: nat)
    requires MSG_HEAD_LEN <= |data|
    ensures t < 0x10000
  {
    (data[0] as int) * 0x100 + data[1]
  }

  function HeadLength(data: seq<byte>): (n: nat)
    requires MSG_HEAD_LEN <= |data|
    ensures n < 0x10000
  {
    (data[2] as int) * 0x100 + data[3]
  }

  /**
   Splits a package's data.  The end of a message is computed in 16 bits: a body too long for that
   makes the slice taken for its handler fail.
   */
  ghost function Splitting(node: Node, data: seq<byte>): Split
    decreases |data|
  {
    if |data| < MSG_HEAD_LEN then Split([], Malformed) else
    var ml := HeadLength(data);
    if |data| < MSG_HEAD_LEN + ml || !node.known(HeadType(data)) then Split([], Malformed)
    else if 0x10000 <= MSG_HEAD_LEN + ml then Split([], Panicked)
    else
      var m := Message(HeadType(data), data[MSG_HEAD_LEN..MSG_HEAD_LEN + ml]);
      if !node.Accepts(m) then Split([], Malformed)
      else if MSG_HEAD_LEN + ml == |data| then Split([m], Handled)
      else var r := Splitting(node, data[MSG_HEAD_LEN + ml..]); Split([m] + r.handled, r.outcome)
  }

  /** What arrives for a frame: its control byte says whether the rest is compressed. */
  ghost function Arriving(inflate: seq<byte> -> Option<seq<byte>>, node: Node, d: seq<byte>): Split {
    if |d| < 2 then Split([], Malformed)
    else if d[0] % 2 == 1 then
      match inflate(d[1..])
      case None => Split([], Malformed)
      case Some(data) => Splitting(node, data)
    else Splitting(node, d[1..])
  }

  /** Where a message ends, in 16-bit arithmetic. */
  function EndOf(ml: nat): (e: nat)
    requires ml < 0x10000
    ensures e == if MSG_HEAD_LEN + ml < 0x10000 then MSG_HEAD_LEN + ml else MSG_HEAD_LEN + ml - 0x10000
  {
    (MSG_HEAD_LEN + ml) % 0x10000
  }

  /** What one round of the splitting loop does. */
  lemma SplittingOnce(node: Node, data: seq<byte>)
    requires MSG_HEAD_LEN <= |data| && MSG_HEAD_LEN + HeadLength(data) <= |data| && node.known(HeadType(data))
    ensures var ml := HeadLength(data);
      if EndOf(ml) < MSG_HEAD_LEN then Splitting(node, data) == Split([], Panicked) else
        var m := Message(HeadType(data), data[MSG_HEAD_LEN..EndOf(ml)]);
        Splitting(node, data) ==
          if !node.parses(m) then Split([], Malformed)
          else if MSG_HEAD_LEN + ml == |data| then Split([m], Handled)
          else var r := Splitting(node, data[EndOf(ml)..]); Split([m] + r.handled, r.outcome)
  {
  }

  lemma SplittingStops(node: Node, data: seq<byte>)
    requires |data| < MSG_HEAD_LEN || |data| < MSG_HEAD_LEN + HeadLength(data) || !node.known(HeadType(data))
    ensures Splitting(node, data) == Split([], Malformed)
  {
  }

  /** Hands the messages of a package to their handlers, one after the other. */
  method HandleMsgs(node: Node, package: seq<byte>) returns (handled: seq<Message>, outcome: Outcome)
    ensures Split(handled, outcome) == Splitting(node, package)
  {
    hide HeadType, HeadLength, Splitting, EndOf;
    handled := [];
    var data := package;
    ghost var goal := Splitting(node, data);
    while true
      invariant var r := Splitting(node, data); goal == Split(handled + r.handled, r.outcome)
      decreases |data|
    {
      if |data| < MSG_HEAD_LEN || |data| < MSG_HEAD_LEN + HeadLength(data) || !node.known(HeadType(data)) {
        SplittingStops(node, data);
        return handled, Malformed;
      }
      SplittingOnce(node, data);
      var ml := HeadLength(data);
      var end := EndOf(ml);
      if end < MSG_HEAD_LEN {
        return handled, Panicked;
      }
      var m := Message(HeadType(data), data[MSG_HEAD_LEN..end]);
      if !node.parses(m) {
        return handled, Malformed;
      }
      handled := handled + [m];
      if MSG_HEAD_LEN + ml == |data| {
        break;
      }
      data := data[end..];
    }
    outcome := Handled;
  }

  method OnRecv(inflate: seq<byte> -> Option<seq<byte>>, node: Node, d: seq<byte>)
      returns (handled: seq<Message>, outcome: Outcome)
    ensures Split(handled, outcome) == Arriving(inflate, node, d)
  {
    if |d| < 2 {
      return [], Malformed;
    }
    if d[0] % 2 == 1 {
      var b := inflate(d[1..]);
      if b.None? {
        return [], Malformed;
      }
      handled, outcome := HandleMsgs(node, b.value);
    } else {
      handled, outcome := HandleMsgs(node, d[1..]);
    }
  }

  lemma HeadOfEncoded(m: Message, rest: seq<byte>)
    requires Sendable(m)
    ensures var data := Encoded(m) + rest;
      && HeadType(data) == m.typeId && HeadLength(data) == |m.body|
      && data[MSG_HEAD_LEN..MSG_HEAD_LEN + |m.body|] == m.body
      && data[MSG_HEAD_LEN + |m.body|..] == rest
  {
    assert (Encoded(m) + rest)[..MSG_HEAD_LEN + |m.body|] == Encoded(m);
  }

  /** Messages a node accepts come out of a package as they were written into it. */
  lemma {:induction false} SplitWritten(node: Node, ms: seq<Message>)
    requires ms != [] && forall i | 0 <= i < |ms| :: Sendable(ms[i]) && node.Accepts(ms[i])
    ensures Splitting(node, EncodedAll(ms)) == Split(ms, Handled) && EncodedAll(ms) != []
    decreases |ms|
  {
    var m, rest := ms[0], ms[1..];
    assert Sendable(ms[0]) && node.Accepts(ms[0]);
    HeadOfEncoded(m, EncodedAll(rest));
    hide Encoded, HeadType, HeadLength;
    if rest == [] {
      assert ms == [m];
    } else {
      assert forall i | 0 <= i < |rest| :: rest[i] == ms[i + 1];
      SplitWritten(node, rest);
      assert EncodedAll(rest) == Encoded(rest[0]) + EncodedAll(rest[1..]);
      assert [m] + rest == ms;
    }
  }

  lemma HeadEncodes(data: seq<byte>)
    requires MSG_HEAD_LEN <= |data| && MSG_HEAD_LEN + HeadLength(data) <= |data|
    ensures var end := MSG_HEAD_LEN + HeadLength(data);
      Encoded(Message(HeadType(data), data[MSG_HEAD_LEN..end])) == data[..end]
  {
  }

  /** Only what some messages were written as is handled to the end, and it is these messages that are handled. */
  lemma {:induction false} HandledWasWritten(node: Node, data: seq<byte>)
    requires Splitting(node, data).outcome == Handled
    ensures var ms := Splitting(node, data).handled;
      ms != [] && EncodedAll(ms) == data && forall i | 0 <= i < |ms| :: node.Accepts(ms[i])
    decreases |data|
  {
    var end := MSG_HEAD_LEN + HeadLength(data);
    var m := Message(HeadType(data), data[MSG_HEAD_LEN..end]);
    HeadEncodes(data);
    assert data == data[..end] + data[end..];
    if end == |data| {
      EncodedCons(m, []);
      assert [m] + [] == [m];
    } else {
      HandledWasWritten(node, data[end..]);
      EncodedCons(m, Splitting(node, data[end..]).handled);
      hide Encoded, EncodedAll, HeadLength, HeadType;
    }
  }

  /** A package is taken in whole exactly if it is what accepted messages are written as. */
  lemma HandledExactly(node: Node, ms: seq<Message>, data: seq<byte>)
    requires forall i | 0 <= i < |ms| :: Sendable(ms[i])
    ensures Splitting(node, data) == Split(ms, Handled) <==>
      ms != [] && data == EncodedAll(ms) && forall i | 0 <= i < |ms| :: node.Accepts(ms[i])
  {
    if Splitting(node, data) == Split(ms, Handled) {
      HandledWasWritten(node, data);
    }
    if ms != [] && forall i | 0 <= i < |ms| :: node.Accepts(ms[i]) {
      SplitWritten(node, ms);
    }
  }

  lemma PackageArrives(deflate: seq<byte> -> seq<byte>, inflate: seq<byte> -> Option<seq<byte>>, node: Node, g: Group)
    requires forall x :: inflate(deflate(x)) == Some(x)
    requires forall x :: deflate(x) != []
    requires Packed(g) && forall i | 0 <= i < |g.items| :: node.Accepts(g.items[i])
    ensures Arriving(inflate, node, Package(deflate, g)) == Split(g.items, Handled)
  {
    hide Splitting;
    SplitWritten(node, g.items);
    hide EncodedAll;
    var x := EncodedAll(g.items);
    var d := Package(deflate, g);
    if g.length > COMPRESS_OVER {
      assert d[1..] == deflate(x);
    } else {
      assert d[1..] == x;
    }
  }

  ghost function Packages(deflate: seq<byte> -> seq<byte>, gs: seq<Group>): (r: seq<seq<byte>>)
    ensures |r| == |gs| && forall i | 0 <= i < |gs| :: r[i] == Package(deflate, gs[i])
  {
    seq(|gs|, i requires 0 <= i < |gs| => Package(deflate, gs[i]))
  }

  /** The messages handled for the frames that arrived, up to the first that is not in order. */
  ghost function ArrivingAll(inflate: seq<byte> -> Option<seq<byte>>, node: Node, ds: seq<seq<byte>>): Split {
    if ds == [] then Split([], Handled) else
      var n := |ds| - 1;
      var r := ArrivingAll(inflate, node, ds[..n]);
      if r.outcome != Handled then r else
        var s := Arriving(inflate, node, ds[n]);
        Split(r.handled + s.handled, s.outcome)
  }

  lemma {:induction false} PackagesArrive(deflate: seq<byte> -> seq<byte>, inflate: seq<byte> -> Option<seq<byte>>,
      node: Node, gs: seq<Group>)
    requires forall x :: inflate(deflate(x)) == Some(x)
    requires forall x :: deflate(x) != []
    requires forall i | 0 <= i < |gs| :: Packed(gs[i])
    requires forall i, k | 0 <= i < |gs| && 0 <= k < |gs[i].items| :: node.Accepts(gs[i].items[k])
    ensures ArrivingAll(inflate, node, Packages(deflate, gs)) == Split(Flat(gs), Handled)
    decreases |gs|
  {
    if gs != [] {
      var n := |gs| - 1;
      PackagesArrive(deflate, inflate, node, gs[..n]);
      assert Packages(deflate, gs)[..n] == Packages(deflate, gs[..n]);
      PackageArrives(deflate, inflate, node, gs[n]);
    }
  }

  /**
   End to end: groups whose packages fit the receive limit reach the handlers as exactly the messages
   queued, in order, however the network cuts the bytes.
   */
  lemma MessagesArrive(deflate: seq<byte> -> seq<byte>, inflate: seq<byte> -> Option<seq<byte>>, node: Node,
      gs: seq<Group>, chunks: seq<seq<byte>>)
    requires forall x :: inflate(deflate(x)) == Some(x)
    requires forall x :: deflate(x) != []
    requires forall i | 0 <= i < |gs| :: Packed(gs[i]) && |Package(deflate, gs[i])| <= RECV_LEN
    requires forall i, k | 0 <= i < |gs| && 0 <= k < |gs[i].items| :: node.Accepts(gs[i].items[k])
    requires Concat(chunks) == FramedAll(ServerWire, Packages(deflate, gs))
    ensures var s := FeedAll(ServerWire, FRESH, chunks);
      && s == Open(0, [], Packages(deflate, gs))
      && ArrivingAll(inflate, node, s.frames) == Split(Flat(gs), Handled)
  {
    FramesArrive(ServerWire, Packages(deflate, gs), chunks);
    PackagesArrive(deflate, inflate, node, gs);
  }

  /** A package that is not compressed always fits; a compressed one may not, and then ends the connection. */
  lemma PackageFits(deflate: seq<byte> -> seq<byte>, g: Group, rest: seq<byte>)
    requires Packed(g) && |deflate(EncodedAll(g.items))| + 1 < 0x10000
    ensures var p := Package(deflate, g);
      && ServerWire.Fits(p) == (g.length <= COMPRESS_OVER || |deflate(EncodedAll(g.items))| < RECV_LEN)
      && (!ServerWire.Fits(p) ==> Feed(ServerWire, FRESH, Framed(ServerWire, p) + rest) == Dropped([]))
  {
    var p := Package(deflate, g);
    if !ServerWire.Fits(p) {
      TooLongDrops(ServerWire, p, rest, []);
      assert [] + (Framed(ServerWire, p) + rest) == Framed(ServerWire, p) + rest;
    }
  }
}
