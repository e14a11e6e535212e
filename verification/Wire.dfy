/**
 Cutting a byte stream into frames.

 Two connections share this scheme.  Between servers a frame is a two-byte big-endian length and
 as many bytes; a length may not exceed the limit.  Towards clients the length has three bytes,
 little-endian, must be at least 2, and counts all but the first byte of what follows.
 */
module Wires {
  type byte = x: int | 0 <= x < 0x100

  const RECV_LEN := 8192

  datatype Message = Message(typeId: nat, body: seq<byte>)

  /** What a node knows of message types: which have a handler, and which bodies parse. */
  datatype Node = Node(known: nat -> bool, parses: Message -> bool) {
    predicate Accepts(m: Message) {
      known(m.typeId) && parses(m)
    }
  }

  datatype Wire = ServerWire | ClientWire {
    function Head(): (n: nat)
      ensures n > 0
    {
      if ServerWire? then 2 else 3
    }

    function Extra(): nat {
      if ServerWire? then 0 else 1
    }

    function Least(): nat {
      if ServerWire? then 0 else 2
    }

    /** The length in the first bytes of a stream. */
    function LengthOf(mb: seq<byte>): nat
      requires Head() <= |mb|
    {
      if ServerWire? then (mb[0] as int) * 0x100 + mb[1]
      else (mb[0] as int) + (mb[1] as int) * 0x100 + (mb[2] as int) * 0x10000
    }

    /** The bytes a sender writes for a length; what does not fit is cut off. */
    function Header(n: nat): (h: seq<byte>)
      ensures |h| == Head()
    {
      if ServerWire? then [n / 0x100 % 0x100, n % 0x100] else [n % 0x100, n / 0x100 % 0x100, n / 0x10000 % 0x100]
    }

    function Legal(n: nat): bool {
      Least() <= n <= RECV_LEN
    }

    /** The length a sender puts before a frame. */
    function FrameLength(frame: seq<byte>): nat {
      if |frame| < Extra() then 0 else |frame| - Extra()
    }

    /** A frame that a receiver lets through. */
    predicate Fits(frame: seq<byte>) {
      0 < FrameLength(frame) && Legal(FrameLength(frame))
    }
  }

  /** A receiver: the frames handed on, and, while the connection is up, the pending length and unread bytes. */
  datatype Stream =
    | Open(pending: nat, unread: seq<byte>, frames: seq<seq<byte>>)
    | Dropped(frames: seq<seq<byte>>)

  /** Hands on every frame that the unread bytes complete. */
  ghost function Drain(w: Wire, l: nat, mb: seq<byte>, out: seq<seq<byte>>): Stream
    decreases |mb|
  {
    if l == 0 then
      if |mb| < w.Head() then Open(0, mb, out)
      else
        var n := w.LengthOf(mb);
        if !w.Legal(n) then Dropped(out)
        else if n == 0 then Open(0, mb[w.Head()..], out)
        else Drain(w, n, mb[w.Head()..], out)
    else if |mb| < l + w.Extra() then Open(l, mb, out)
    else Drain(w, 0, mb[l + w.Extra()..], out + [mb[..l + w.Extra()]])
  }

  /** The receiver after one read. */
  ghost function Feed(w: Wire, s: Stream, chunk: seq<byte>): Stream {
    match s
    case Dropped(_) => s
    case Open(l, mb, out) => Drain(w, l, mb + chunk, out)
  }

  ghost function FeedAll(w: Wire, s: Stream, chunks: seq<seq<byte>>): Stream
    decreases |chunks|
  {
    if chunks == [] then s else FeedAll(w, Feed(w, s, chunks[0]), chunks[1..])
  }

  ghost function Concat(chunks: seq<seq<byte>>): seq<byte> {
    if chunks == [] then [] else chunks[0] + Concat(chunks[1..])
  }

  /**
   No length is zero, except where so little follows that reading stops anyway.  A zero length ends
   the work of a read even if more frames wait.
   */
  ghost predicate Clean(w: Wire, l: nat, mb: seq<byte>)
    decreases |mb|
  {
    if l == 0 then
      if |mb| < w.Head() then true
      else
        var n := w.LengthOf(mb);
        if !w.Legal(n) then true
        else if n == 0 then |mb| < 2 * w.Head()
        else Clean(w, n, mb[w.Head()..])
    else if |mb| < l + w.Extra() then true
    else Clean(w, 0, mb[l + w.Extra()..])
  }

  lemma LengthPrefix(w: Wire, a: seq<byte>, b: seq<byte>)
    requires w.Head() <= |a|
    ensures w.LengthOf(a + b) == w.LengthOf(a) && (a + b)[w.Head()..] == a[w.Head()..] + b
  {
  }

  /** Draining in two goes is draining at once, and what is left stays clean. */
  lemma {:induction false} DrainTwice(w: Wire, l: nat, a: seq<byte>, b: seq<byte>, out: seq<seq<byte>>)
    requires Clean(w, l, a + b)
    ensures Feed(w, Drain(w, l, a, out), b) == Drain(w, l, a + b, out)
    ensures var s := Drain(w, l, a, out); s.Open? ==> Clean(w, s.pending, s.unread + b)
    decreases |a|
  {
    hide Wire.LengthOf, Wire.Legal;
    if l == 0 {
      if w.Head() <= |a| {
        LengthPrefix(w, a, b);
        var n := w.LengthOf(a);
        if w.Legal(n) && n > 0 {
          DrainTwice(w, n, a[w.Head()..], b, out);
        }
      }
    } else {
      var n := l + w.Extra();
      if n <= |a| {
        assert (a + b)[n..] == a[n..] + b && (a + b)[..n] == a[..n];
        DrainTwice(w, 0, a[n..], b, out + [a[..n]]);
      }
    }
  }

  /** The result depends on the bytes alone, not on how reads cut them. */
  lemma {:induction false} ChunksDoNotMatter(w: Wire, s: Stream, chunks: seq<seq<byte>>)
    requires s.Open? ==> Clean(w, s.pending, s.unread + Concat(chunks))
    requires s.Open? ==> Drain(w, s.pending, s.unread, s.frames) == s
    ensures FeedAll(w, s, chunks) == Feed(w, s, Concat(chunks))
    decreases |chunks|
  {
    if chunks == [] {
      if s.Open? {
        assert s.unread + [] == s.unread;
      }
    } else if s.Open? {
      var c, rest := chunks[0], Concat(chunks[1..]);
      assert s.unread + Concat(chunks) == (s.unread + c) + rest;
      DrainTwice(w, s.pending, s.unread + c, rest, s.frames);
      DrainSettles(w, s.pending, s.unread + c, s.frames, rest);
      ChunksDoNotMatter(w, Feed(w, s, c), chunks[1..]);
    } else {
      ChunksDoNotMatter(w, s, chunks[1..]);
    }
  }

  /** Nothing is left to do for unread bytes that a clean stream leaves. */
  lemma {:induction false} DrainSettles(w: Wire, l: nat, a: seq<byte>, out: seq<seq<byte>>, b: seq<byte>)
    requires Clean(w, l, a + b)
    ensures var s := Drain(w, l, a, out); s.Open? ==> Drain(w, s.pending, s.unread, s.frames) == s
    decreases |a|
  {
    hide Wire.LengthOf, Wire.Legal;
    if l == 0 {
      if w.Head() <= |a| {
        LengthPrefix(w, a, b);
        var n := w.LengthOf(a);
        if w.Legal(n) && n > 0 {
          DrainSettles(w, n, a[w.Head()..], out, b);
        }
      }
    } else {
      var n := l + w.Extra();
      if n <= |a| {
        assert (a + b)[n..] == a[n..] + b;
        DrainSettles(w, 0, a[n..], out + [a[..n]], b);
      }
    }
  }

  lemma {:induction false} DrainShrinks(w: Wire, l: nat, mb: seq<byte>, out: seq<seq<byte>>)
    ensures var s := Drain(w, l, mb, out); s.Open? ==> |s.unread| <= |mb|
    ensures var s := Drain(w, l, mb, out); s.Open? && l == 0 && w.Head() <= |mb| ==> |s.unread| < |mb|
    decreases |mb|
  {
    if l == 0 {
      if w.Head() <= |mb| && w.Legal(w.LengthOf(mb)) && w.LengthOf(mb) > 0 {
        DrainShrinks(w, w.LengthOf(mb), mb[w.Head()..], out);
      }
    } else if l + w.Extra() <= |mb| {
      DrainShrinks(w, 0, mb[l + w.Extra()..], out + [mb[..l + w.Extra()]]);
    }
  }

  /** A cut behind a length or a frame only matters for what comes after it. */
  lemma CutBehind(w: Wire, l: nat, mb: seq<byte>, out: seq<seq<byte>>, k: nat)
    requires k <= |mb|
    requires var n := if l == 0 then w.Head() else l + w.Extra();
      n <= k && (l == 0 ==> w.Legal(w.LengthOf(mb)) && 0 < w.LengthOf(mb))
    ensures Drain(w, l, mb[..k], out) ==
      if l == 0 then Drain(w, w.LengthOf(mb), mb[w.Head()..][..k - w.Head()], out)
      else Drain(w, 0, mb[l + w.Extra()..][..k - l - w.Extra()], out + [mb[..l + w.Extra()]])
  {
    var n := if l == 0 then w.Head() else l + w.Extra();
    assert mb[..k][n..] == mb[n..][..k - n] && mb[..k][..n] == mb[..n];
    if l == 0 {
      LengthPrefix(w, mb[..k], mb[k..]);
      assert mb[..k] + mb[k..] == mb;
    }
  }

  lemma StallHere(w: Wire, mb: seq<byte>, out: seq<seq<byte>>)
    requires 2 * w.Head() <= |mb| && w.LengthOf(mb) == 0 && w.Legal(0)
    ensures Feed(w, Drain(w, 0, mb[..w.Head()], out), mb[w.Head()..]) != Drain(w, 0, mb, out)
  {
    var h := w.Head();
    LengthPrefix(w, mb[..h], mb[h..]);
    assert mb[..h] + mb[h..] == mb;
    assert mb[..h][h..] == [];
    DrainShrinks(w, 0, mb[h..], out);
    assert [] + mb[h..] == mb[h..];
  }

  /** Where a stream is not clean, one cut right after the zero length changes the result. */
  lemma {:induction false} ZeroLengthStalls(w: Wire, l: nat, mb: seq<byte>, out: seq<seq<byte>>) returns (k: nat)
    requires !Clean(w, l, mb)
    ensures k <= |mb|
    ensures Feed(w, Drain(w, l, mb[..k], out), mb[k..]) != Drain(w, l, mb, out)
    decreases |mb|
  {
    hide Wire.LengthOf;
    if l == 0 && w.LengthOf(mb) == 0 {
      StallHere(w, mb, out);
      k := w.Head();
    } else {
      var n := if l == 0 then w.Head() else l + w.Extra();
      var m := if l == 0 then w.LengthOf(mb) else 0;
      var t := if l == 0 then out else out + [mb[..n]];
      var rest := mb[n..];
      var j := ZeroLengthStalls(w, m, rest, t);
      k := n + j;
      CutBehind(w, l, mb, out, k);
      assert rest[j..] == mb[k..];
      assert Drain(w, l, mb, out) == Drain(w, m, rest, t);
      assert Drain(w, l, mb[..k], out) == Drain(w, m, rest[..j], t);
    }
  }

  const FRESH: Stream := Open(0, [], [])

  lemma BadCut(w: Wire, mb: seq<byte>) returns (chunks: seq<seq<byte>>)
    requires !Clean(w, 0, mb)
    ensures Concat(chunks) == mb && FeedAll(w, FRESH, chunks) != Feed(w, FRESH, mb)
  {
    var k := ZeroLengthStalls(w, 0, mb, []);
    hide Drain, Clean;
    chunks := [mb[..k], mb[k..]];
    assert [] + mb[..k] == mb[..k] && [] + mb == mb;
    TwoChunks(w, FRESH, mb[..k], mb[k..]);
  }

  lemma TwoChunks(w: Wire, s: Stream, a: seq<byte>, b: seq<byte>)
    ensures Concat([a, b]) == a + b
    ensures FeedAll(w, s, [a, b]) == Feed(w, Feed(w, s, a), b)
  {
    hide Feed;
    var last: seq<seq<byte>> := [b];
    assert [a, b][1..] == last && last[1..] == [];
    assert Concat(last) == b + [] == b;
    assert FeedAll(w, Feed(w, s, a), last) == FeedAll(w, Feed(w, Feed(w, s, a), b), []);
  }

  /** A stream gives the same result however it is cut exactly if it is clean. */
  lemma ChunkIndependence(w: Wire, mb: seq<byte>)
    ensures Clean(w, 0, mb) <==>
      forall chunks: seq<seq<byte>> | Concat(chunks) == mb :: FeedAll(w, FRESH, chunks) == Feed(w, FRESH, mb)
  {
    if Clean(w, 0, mb) {
      assert [] + mb == mb;
      forall chunks: seq<seq<byte>> | Concat(chunks) == mb
        ensures FeedAll(w, FRESH, chunks) == Feed(w, FRESH, mb)
      {
        ChunksDoNotMatter(w, FRESH, chunks);
      }
    } else {
      var chunks := BadCut(w, mb);
    }
  }

  /** Client streams are always clean: a length below 2 drops the connection. */
  lemma {:induction false} ClientsAreClean(l: nat, mb: seq<byte>)
    ensures Clean(ClientWire, l, mb)
    decreases |mb|
  {
    if l == 0 {
      if 3 <= |mb| && ClientWire.Legal(ClientWire.LengthOf(mb)) {
        ClientsAreClean(ClientWire.LengthOf(mb), mb[3..]);
      }
    } else if l + 1 <= |mb| {
      ClientsAreClean(0, mb[l + 1..]);
    }
  }

  /** What a sender writes for a frame. */
  ghost function Framed(w: Wire, frame: seq<byte>): seq<byte> {
    w.Header(w.FrameLength(frame)) + frame
  }

  ghost function FramedAll(w: Wire, frames: seq<seq<byte>>): seq<byte> {
    if frames == [] then [] else Framed(w, frames[0]) + FramedAll(w, frames[1..])
  }

  lemma HeaderReads(w: Wire, n: nat, rest: seq<byte>)
    requires n < if w.ServerWire? then 0x10000 else 0x1000000
    ensures w.LengthOf(w.Header(n) + rest) == n
  {
    if w.ClientWire? {
      assert n % 0x100 + n / 0x100 % 0x100 * 0x100 + n / 0x10000 % 0x100 * 0x10000 == n;
    }
  }

  /** A frame that fits is handed on as it was sent, and the receiver is ready for what follows. */
  lemma OneFrame(w: Wire, frame: seq<byte>, rest: seq<byte>, out: seq<seq<byte>>)
    requires w.Fits(frame)
    ensures Drain(w, 0, Framed(w, frame) + rest, out) == Drain(w, 0, rest, out + [frame])
    ensures Clean(w, 0, Framed(w, frame) + rest) <==> Clean(w, 0, rest)
  {
    var n := w.FrameLength(frame);
    var mb := Framed(w, frame) + rest;
    assert mb == w.Header(n) + (frame + rest);
    HeaderReads(w, n, frame + rest);
    assert mb[w.Head()..] == frame + rest;
    assert (frame + rest)[..|frame|] == frame && (frame + rest)[|frame|..] == rest;
  }

  /** A frame that does not fit, but whose length the header can hold, ends the connection. */
  lemma TooLongDrops(w: Wire, frame: seq<byte>, rest: seq<byte>, out: seq<seq<byte>>)
    requires RECV_LEN < w.FrameLength(frame) < 0x10000
    ensures Drain(w, 0, Framed(w, frame) + rest, out) == Dropped(out)
  {
    assert Framed(w, frame) + rest == w.Header(w.FrameLength(frame)) + (frame + rest);
    HeaderReads(w, w.FrameLength(frame), frame + rest);
  }

  lemma {:induction false} ManyFrames(w: Wire, frames: seq<seq<byte>>, out: seq<seq<byte>>)
    requires forall i | 0 <= i < |frames| :: w.Fits(frames[i])
    ensures Clean(w, 0, FramedAll(w, frames))
    ensures Drain(w, 0, FramedAll(w, frames), out) == Open(0, [], out + frames)
    decreases |frames|
  {
    hide Framed, Wire.Header, Wire.LengthOf;
    if frames == [] {
      assert out + frames == out;
    } else {
      ManyFrames(w, frames[1..], out + [frames[0]]);
      OneFrame(w, frames[0], FramedAll(w, frames[1..]), out);
      assert out + [frames[0]] + frames[1..] == out + frames;
    }
  }

  /** Frames that fit arrive complete, in order and with nothing left over, however reads cut the bytes. */
  lemma FramesArrive(w: Wire, frames: seq<seq<byte>>, chunks: seq<seq<byte>>)
    requires forall i | 0 <= i < |frames| :: w.Fits(frames[i])
    requires Concat(chunks) == FramedAll(w, frames)
    ensures FeedAll(w, FRESH, chunks) == Open(0, [], frames)
  {
    ManyFrames(w, frames, []);
    assert [] + Concat(chunks) == Concat(chunks) && [] + frames == frames;
    ChunksDoNotMatter(w, FRESH, chunks);
  }
}
