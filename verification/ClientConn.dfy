/** The connection to a game client: every message is a frame of its own. */
module ClientConns {
  import opened Options
  import opened Wires

  const SEND_LEN := 32768
  const SUB_HEAD_LEN := 3
  const TAIL_LEN := 2

  /** What the sender takes. */
  predicate Sendable(m: Message) {
    m.typeId < 0x10000 && |m.body| + 7 <= SEND_LEN - 4
  }

  /** A frame: a control byte, the type in little-endian order, the body. */
  ghost function Frame(m: Message): seq<byte> {
    [0, m.typeId % 0x100, m.typeId / 0x100 % 0x100] + m.body
  }

  /** Writes a message to the connection. */
  method SendItem(m: Message) returns (w: seq<byte>)
    requires Sendable(m)
    ensures w == Framed(ClientWire, Frame(m))
    ensures |w| == |m.body| + 6 && w[6..] == m.body && w[3] == 0
    ensures (w[0] as int) + (w[1] as int) * 0x100 + (w[2] as int) * 0x10000 == |m.body| + 2
    ensures (w[4] as int) + (w[5] as int) * 0x100 == m.typeId
  {
    var length := |m.body| + TAIL_LEN;
    w := [length % 0x100, length / 0x100 % 0x100, length / 0x10000 % 0x100];
    w := w + [0, m.typeId % 0x100, m.typeId / 0x100 % 0x100];
    w := w + m.body;
  }

  /** The receive loop: the length read last, the unread bytes, and the frames handed on. */
  class ClientReceiver {
    var l: nat
    var mb: seq<byte>
    var frames: seq<seq<byte>>
    var dropped: bool

    ghost function State(): Stream
      reads this
    {
      if dropped then Dropped(frames) else Open(l, mb, frames)
    }

    /** A pending length is never below the least legal one. */
    ghost predicate Valid()
      reads this
    {
      l == 0 || ClientWire.Legal(l)
    }

    constructor ()
      ensures State() == FRESH && Valid()
    {
      l, mb, frames, dropped := 0, [], [], false;
    }

    /** Takes in what one read returned; the outer guard never leaves a complete frame behind. */
    method OnRead(rb: seq<byte>)
      requires !dropped && Valid()
      modifies this
      ensures Valid() && State() == Feed(ClientWire, old(State()), rb)
    {
      mb := mb + rb;
      ghost var goal := Drain(ClientWire, l, mb, frames);
      while |mb| >= 3
        invariant !dropped && Valid() && Drain(ClientWire, l, mb, frames) == goal
        decreases |mb|
      {
        if l == 0 && |mb| >= 3 {
          l := l + mb[0];
          l := l + (mb[1] as int) * 0x100;
          l := l + (mb[2] as int) * 0x10000;
          mb := mb[3..];
          if l > RECV_LEN || l < 2 {
            dropped := true;
            l := 0;
            return;
          }
        }
        if l > 0 && |mb| >= l + SUB_HEAD_LEN - TAIL_LEN {
          frames := frames + [mb[..l + SUB_HEAD_LEN - TAIL_LEN]];
          mb := mb[l + SUB_HEAD_LEN - TAIL_LEN..];
          l := 0;
        } else {
          break;
        }
      }
    }
  }

  datatype Outcome = Handled(message: Message) | Malformed

  /** Hands the message of a frame to its handler. */
  method OnRecv(inflate: seq<byte> -> Option<seq<byte>>, node: Node, d: seq<byte>) returns (outcome: Outcome)
    ensures outcome == Arriving(inflate, node, d)
  {
    if |d| < SUB_HEAD_LEN {
      return Malformed;
    }
    var typeId: nat := 0;
    typeId := typeId + d[1] + (d[2] as int) * 0x100;
    var data := d[SUB_HEAD_LEN..];
    if d[0] % 2 == 1 {
      var b := inflate(data);
      if b.None? {
        return Malformed;
      }
      data := b.value;
    }
    if !node.known(typeId) || !node.parses(Message(typeId, data)) {
      return Malformed;
    }
    return Handled(Message(typeId, data));
  }

  /** What arrives for a frame. */
  ghost function Arriving(inflate: seq<byte> -> Option<seq<byte>>, node: Node, d: seq<byte>): Outcome {
    if |d| < SUB_HEAD_LEN then Malformed else
      var typeId := (d[1] as int) + (d[2] as int) * 0x100;
      var data := if d[0] % 2 == 1 then inflate(d[SUB_HEAD_LEN..]) else Some(d[SUB_HEAD_LEN..]);
      if data.None? || !node.known(typeId) || !node.parses(Message(typeId, data.value)) then Malformed
      else Handled(Message(typeId, data.value))
  }

  /**
   A frame with the low control bit set hands on the inflated body, one without it the body as it is; a body that
   cannot be inflated or parsed, or a type nobody knows, is malformed.
   */
  lemma ArrivesExactly(inflate: seq<byte> -> Option<seq<byte>>, node: Node, control: byte, typeId: nat, data: seq<byte>)
    requires typeId < 0x10000
    ensures var arrived := Arriving(inflate, node, [control, typeId % 0x100, typeId / 0x100] + data);
      var body := if control % 2 == 1 then inflate(data) else Some(data);
      arrived == if node.known(typeId) && body.Some? && node.parses(Message(typeId, body.value))
                 then Handled(Message(typeId, body.value)) else Malformed
  {
    assert ([control, typeId % 0x100, typeId / 0x100] + data)[SUB_HEAD_LEN..] == data;
  }

  ghost function Frames(ms: seq<Message>): (r: seq<seq<byte>>)
    ensures |r| == |ms| && forall i | 0 <= i < |ms| :: r[i] == Frame(ms[i])
  {
    seq(|ms|, i requires 0 <= i < |ms| => Frame(ms[i]))
  }

  /** A message reaches its handler as it was sent; the codec loses nothing. */
  lemma FrameArrives(inflate: seq<byte> -> Option<seq<byte>>, node: Node, m: Message)
    requires Sendable(m) && node.known(m.typeId) && node.parses(m)
    ensures Arriving(inflate, node, Frame(m)) == Handled(m)
  {
    assert Frame(m)[SUB_HEAD_LEN..] == m.body;
  }

  /**
   What the sender takes and the receiver lets through differ: bodies up to 8190 bytes always arrive,
   anything longer that the sender still takes ends the connection.
   */
  lemma BodyLimit(m: Message, rest: seq<byte>)
    requires Sendable(m)
    ensures ClientWire.Fits(Frame(m)) <==> |m.body| <= 8190
    ensures Feed(ClientWire, FRESH, Framed(ClientWire, Frame(m)) + rest) == Dropped([]) <== |m.body| > 8190
  {
    var w := Framed(ClientWire, Frame(m));
    if |m.body| > 8190 {
      TooLongDrops(ClientWire, Frame(m), rest, []);
      assert [] + (w + rest) == w + rest;
    }
  }

  /** End to end, for every list of messages and every way the network cuts the bytes. */
  lemma MessagesArrive(inflate: seq<byte> -> Option<seq<byte>>, node: Node, ms: seq<Message>, chunks: seq<seq<byte>>)
    requires forall i | 0 <= i < |ms| ::
      Sendable(ms[i]) && |ms[i].body| <= 8190 && node.known(ms[i].typeId) && node.parses(ms[i])
    requires Concat(chunks) == FramedAll(ClientWire, Frames(ms))
    ensures var s := FeedAll(ClientWire, FRESH, chunks);
      && s == Open(0, [], Frames(ms))
      && forall i | 0 <= i < |ms| :: Arriving(inflate, node, s.frames[i]) == Handled(ms[i])
  {
    forall i | 0 <= i < |ms|
      ensures ClientWire.Fits(Frames(ms)[i])
      ensures Arriving(inflate, node, Frames(ms)[i]) == Handled(ms[i])
    {
      FrameArrives(inflate, node, ms[i]);
    }
    FramesArrive(ClientWire, Frames(ms), chunks);
  }

  /** Any bytes at all, however cut, leave the receiver in the same state. */
  lemma CutsNeverMatter(mb: seq<byte>, chunks: seq<seq<byte>>)
    requires Concat(chunks) == mb
    ensures FeedAll(ClientWire, FRESH, chunks) == FeedAll(ClientWire, FRESH, [mb])
  {
    ClientsAreClean(0, mb);
    ClientsAreClean(0, [] + mb);
    var whole := [mb];
    assert whole[1..] == [];
    assert Concat(whole) == mb + [] == mb;
    ChunksDoNotMatter(ClientWire, FRESH, chunks);
    ChunksDoNotMatter(ClientWire, FRESH, whole);
  }
}
