/**
 The reverse tunnel (server/pkg/relay/relay.go, server/pkg/origin/agent.go): one relay
 session and the origin agent at its other end, as a step system. Goroutines are the
 events; between two events anything else may happen.
 */
module ReverseTunnel {
  import opened Wrappers
  import opened Words

  type Bytes = seq<byte>

  const ID_SPACE: nat := 0x1_0000_0000
  const READ_BUFFER: nat := 16 * 1024

  datatype Side = Relay | Origin {
    function Capacity(): nat {
      if Relay? then 32 else 64
    }
  }

  datatype Message =
    | Ping
    | Pong
    | Open(id: word32)
    | Data(id: word32, payload: Bytes)
    | Close(id: word32)
    | Reset(id: word32)
  {
    predicate For(i: word32) {
      !Ping? && !Pong? && id == i
    }

    /** Payloads come out of one read buffer. */
    predicate Small() {
      Data? ==> |payload| <= READ_BUFFER
    }
  }

  /** Starting: Open not yet sent (relay), or still dialling (origin). Refused: the dial failed. */
  datatype Phase = Starting | Running | Ended | Refused

  /** The goroutine from dataCh to the socket. */
  datatype Writer = Idle | Writing(data: Bytes) | Stopped

  /** One end of one stream. taken, written, sent and read only record what has happened. */
  datatype Stream = Stream(
    phase: Phase,
    registered: bool,
    closed: bool,
    queue: seq<Bytes>,
    writer: Writer,
    unsent: Option<Bytes>,
    taken: seq<Bytes>,
    written: Bytes,
    sent: seq<Bytes>,
    read: Bytes)

  const FRESH := Stream(Starting, true, false, [], Idle, None, [], [], [], [])

  /** pending is the payload the frame loop has looked a stream up for and is handing over. */
  datatype End = End(streams: map<word32, Stream>, pending: Option<(word32, Bytes)>)

  /** elsewhere: the ids the relay's counter has given to streams of other sessions. */
  datatype Tunnel = Tunnel(
    relay: End,
    origin: End,
    toRelay: seq<Message>,
    toOrigin: seq<Message>,
    up: bool,
    accepted: nat,
    elsewhere: set<word32>)
  {
    function At(side: Side): End {
      if side.Relay? then relay else origin
    }

    function Towards(side: Side): seq<Message> {
      if side.Relay? then toRelay else toOrigin
    }

    function WithEnd(side: Side, e: End): Tunnel {
      if side.Relay? then this.(relay := e) else this.(origin := e)
    }

    function WithStream(side: Side, id: word32, s: Stream): Tunnel {
      WithEnd(side, At(side).(streams := At(side).streams[id := s]))
    }

    function WithWire(side: Side, w: seq<Message>): Tunnel {
      if side.Relay? then this.(toRelay := w) else this.(toOrigin := w)
    }

    /** What is sent after the connection broke is lost. */
    function Transmit(side: Side, m: Message): Tunnel {
      if up then WithWire(side, Towards(side) + [m]) else this
    }

    /** atomic.AddUint32 on the counter. */
    function NextId(): word32 {
      (accepted + 1) % ID_SPACE
    }
  }

  const START := Tunnel(End(map[], None), End(map[], None), [], [], true, 0, {})

  function Other(side: Side): Side {
    if side.Relay? then Origin else Relay
  }

  /** Steps of one end of one stream that touch neither the wire nor the frame loop. */
  datatype Action =
    | Read(bytes: Bytes)
    | ReadEnds
    | Take
    | Write
    | WriteFails(n: nat)
    | WriterQuits
    | Unregister

  function Act(s: Stream, a: Action, up: bool): Option<Stream> {
    match a
    case Read(bytes) =>
      if s.phase == Running && s.unsent == None && 0 < |bytes| <= READ_BUFFER
      then Some(s.(read := s.read + bytes, unsent := Some(bytes))) else None
    case ReadEnds =>
      if s.phase == Running && (s.unsent == None || !up)
      then Some(s.(phase := Ended, closed := true, unsent := None)) else None
    case Take =>
      if s.phase in {Running, Ended} && s.writer == Idle && s.queue != []
      then Some(s.(queue := s.queue[1..], taken := s.taken + [s.queue[0]],
                   writer := if s.queue[0] == [] then Stopped else Writing(s.queue[0]))) else None
    case Write =>
      if s.writer.Writing? then Some(s.(writer := Idle, written := s.written + s.writer.data)) else None
    case WriteFails(n) =>
      if s.writer.Writing? && n <= |s.writer.data|
      then Some(s.(writer := Stopped, written := s.written + s.writer.data[..n])) else None
    case WriterQuits =>
      if s.writer == Idle && (s.closed || !up) then Some(s.(writer := Stopped)) else None
    case Unregister =>
      if s.phase == Ended && s.writer == Stopped then Some(s.(registered := false, closed := true)) else None
  }

  /** Break cuts both wires after whole messages: a torn frame reads as an error, and is none. */
  datatype Event =
    | Accept
    | AcceptElsewhere
    | Stale(m: Message)
    | SendOpen(id: word32)
    | Dial(id: word32, ok: bool)
    | Local(side: Side, id: word32, action: Action)
    | Send(side: Side, id: word32)
    | Receive(side: Side)
    | Push(side: Side)
    | Discard(side: Side)
    | SendClose(side: Side, id: word32)
    | Heartbeat
    | Break(i: nat, j: nat)
    | CloseAll(side: Side)

  /** The frame loop on one message. */
  function Dispatch(t: Tunnel, side: Side, m: Message): Tunnel {
    var streams := t.At(side).streams;
    match m
    case Ping => if side == Relay then t.Transmit(Origin, Pong) else t
    case Pong => t
    case Open(id) => if side == Origin then t.WithStream(Origin, id, FRESH) else t
    case Data(id, payload) =>
      if id in streams && streams[id].registered
      then t.WithEnd(side, t.At(side).(pending := Some((id, payload)))) else t
    case Close(id) => Shut(t, side, id)
    case Reset(id) => Shut(t, side, id)
  }

  function Shut(t: Tunnel, side: Side, id: word32): Tunnel {
    var streams := t.At(side).streams;
    if id in streams && streams[id].registered
    then t.WithStream(side, id, Closed(streams[id])) else t
  }

  function Closed(s: Stream): Stream {
    if s.registered then s.(registered := false, closed := true) else s
  }

  /** One event; None when it is not enabled. */
  function Next(t: Tunnel, e: Event): Option<Tunnel> {
    match e
    case Accept =>
      Some(t.WithStream(Relay, t.NextId(), FRESH).(accepted := t.accepted + 1))
    case AcceptElsewhere =>
      Some(t.(accepted := t.accepted + 1, elsewhere := t.elsewhere + {t.NextId()}))
    case Stale(m) =>
      if m.Small() && exists id <- t.elsewhere :: m.For(id) then Some(t.Transmit(Relay, m)) else None
    case SendOpen(id) =>
      if id in t.relay.streams && t.relay.streams[id].phase == Starting then
        var s := t.relay.streams[id];
        if t.up then Some(t.WithStream(Relay, id, s.(phase := Running)).Transmit(Origin, Open(id)))
        else Some(t.WithStream(Relay, id, s.(phase := Ended, closed := true)))
      else None
    case Dial(id, ok) =>
      if id in t.origin.streams && t.origin.streams[id].phase == Starting then
        var s := t.origin.streams[id];
        Some(t.WithStream(Origin, id,
          if ok then s.(phase := Running) else s.(phase := Refused, registered := false, closed := true)))
      else None
    case Local(side, id, action) =>
      if id in t.At(side).streams then
        match Act(t.At(side).streams[id], action, t.up)
        case None => None
        case Some(s) => Some(t.WithStream(side, id, s))
      else None
    case Send(side, id) =>
      if id in t.At(side).streams && t.At(side).streams[id].unsent.Some? then
        var s := t.At(side).streams[id];
        Some(t.WithStream(side, id, s.(unsent := None, sent := s.sent + [s.unsent.value]))
              .Transmit(Other(side), Data(id, s.unsent.value)))
      else None
    case Receive(side) =>
      var wire := t.Towards(side);
      if wire != [] && t.At(side).pending == None
      then Some(Dispatch(t.WithWire(side, wire[1..]), side, wire[0])) else None
    case Push(side) =>
      var end := t.At(side);
      if end.pending.Some? && end.pending.value.0 in end.streams
         && |end.streams[end.pending.value.0].queue| < side.Capacity() then
        var (id, payload) := end.pending.value;
        var s := end.streams[id];
        Some(t.WithEnd(side, End(end.streams[id := s.(queue := s.queue + [payload])], None)))
      else None
    case Discard(side) =>
      var end := t.At(side);
      if end.pending.Some? && end.pending.value.0 in end.streams
         && (end.streams[end.pending.value.0].closed || (side == Relay && !t.up))
      then Some(t.WithEnd(side, end.(pending := None))) else None
    case SendClose(side, id) =>
      if id in t.At(side).streams && t.At(side).streams[id].closed && !t.At(side).streams[id].registered then
        var m := if t.At(side).streams[id].phase == Refused then Reset(id) else Close(id);
        Some(t.Transmit(Other(side), m))
      else None
    case Heartbeat =>
      Some(t.Transmit(Relay, Ping))
    case Break(i, j) =>
      if i <= |t.toRelay| && j <= |t.toOrigin|
      then Some(t.(up := false, toRelay := t.toRelay[..i], toOrigin := t.toOrigin[..j])) else None
    case CloseAll(side) =>
      var streams := t.At(side).streams;
      if t.up then None
      else Some(t.WithEnd(side, t.At(side).(streams := map id | id in streams :: Closed(streams[id]))))
  }

  /** The state a run ends in; None when one of its events was not enabled. */
  function After(es: seq<Event>): Option<Tunnel> {
    if es == [] then Some(START)
    else match After(es[..|es| - 1])
      case None => None
      case Some(t) => Next(t, es[|es| - 1])
  }

  // ---------------------------------------------------------------- lists

  function Concat(xs: seq<Bytes>): Bytes {
    if xs == [] then [] else xs[0] + Concat(xs[1..])
  }

  lemma {:induction false} ConcatAppend(xs: seq<Bytes>, ys: seq<Bytes>)
    ensures Concat(xs + ys) == Concat(xs) + Concat(ys)
  {
    if xs == [] {
      assert xs + ys == ys;
    } else {
      ConcatAppend(xs[1..], ys);
      assert (xs + ys)[1..] == xs[1..] + ys && (xs + ys)[0] == xs[0];
      var a, b, c := xs[0], Concat(xs[1..]), Concat(ys);
      assert a + (b + c) == (a + b) + c;
    }
  }

  lemma ConcatSnoc(xs: seq<Bytes>, y: Bytes)
    ensures Concat(xs + [y]) == Concat(xs) + y
  {
    ConcatAppend(xs, [y]);
    assert [y][1..] == [];
    assert Concat([y]) == y;
  }

  /** xs is ys with some elements left out. */
  ghost predicate Subsequence<T>(xs: seq<T>, ys: seq<T>) {
    xs == [] || (ys != [] && ((xs[0] == ys[0] && Subsequence(xs[1..], ys[1..])) || Subsequence(xs, ys[1..])))
  }

  lemma {:induction false} SubsequenceTail<T>(xs: seq<T>, ys: seq<T>)
    requires xs != [] && Subsequence(xs, ys)
    ensures Subsequence(xs[1..], ys)
  {
    if Subsequence(xs, ys[1..]) {
      SubsequenceTail(xs, ys[1..]);
    }
  }

  /** Leaving out a middle piece. */
  lemma {:induction false} SubsequenceDrop<T>(a: seq<T>, m: seq<T>, b: seq<T>, ys: seq<T>)
    requires Subsequence(a + m + b, ys)
    ensures Subsequence(a + b, ys)
    decreases |ys|, |m|
  {
    var xs := a + m + b;
    if a == [] {
      assert a + b == b;
      if m == [] {
        assert xs == b;
      } else {
        SubsequenceTail(xs, ys);
        assert xs[1..] == a + m[1..] + b;
        SubsequenceDrop(a, m[1..], b, ys);
      }
    } else if Subsequence(xs, ys[1..]) {
      SubsequenceDrop(a, m, b, ys[1..]);
    } else {
      assert xs[1..] == a[1..] + m + b;
      SubsequenceDrop(a[1..], m, b, ys[1..]);
      assert (a + b)[1..] == a[1..] + b;
    }
  }

  lemma {:induction false} SubsequenceExtend<T>(xs: seq<T>, ys: seq<T>, z: T)
    requires Subsequence(xs, ys)
    ensures Subsequence(xs, ys + [z]) && Subsequence(xs + [z], ys + [z])
  {
    if ys == [] {
      assert xs == [];
      assert [z][1..] == [];
    } else {
      assert (ys + [z])[1..] == ys[1..] + [z];
      if xs == [] {
        SubsequenceExtend(xs, ys[1..], z);
      } else if Subsequence(xs, ys[1..]) {
        SubsequenceExtend(xs, ys[1..], z);
      } else {
        SubsequenceExtend(xs[1..], ys[1..], z);
        assert (xs + [z])[1..] == xs[1..] + [z];
      }
    }
  }

  /** The messages of one stream. */
  function Only(w: seq<Message>, id: word32): seq<Message> {
    if w == [] then [] else (if w[0].For(id) then [w[0]] else []) + Only(w[1..], id)
  }

  lemma {:induction false} OnlyAppend(w: seq<Message>, m: Message, id: word32)
    ensures Only(w + [m], id) == if m.For(id) then Only(w, id) + [m] else Only(w, id)
  {
    if w == [] {
      assert [m][1..] == [];
    } else {
      OnlyAppend(w[1..], m, id);
      assert (w + [m])[1..] == w[1..] + [m];
    }
  }

  lemma {:induction false} OnlyPrefix(w: seq<Message>, n: nat, id: word32)
    requires n <= |w|
    ensures Only(w[..n], id) <= Only(w, id)
  {
    if n > 0 {
      OnlyPrefix(w[1..], n - 1, id);
      assert w[..n][1..] == w[1..][..n - 1];
    }
  }

  function Payloads(w: seq<Message>): seq<Bytes> {
    if w == [] then [] else (if w[0].Data? then [w[0].payload] else []) + Payloads(w[1..])
  }

  lemma {:induction false} PayloadsAppend(v: seq<Message>, w: seq<Message>)
    ensures Payloads(v + w) == Payloads(v) + Payloads(w)
  {
    if v == [] {
      assert v + w == w;
    } else {
      PayloadsAppend(v[1..], w);
      assert (v + w)[1..] == v[1..] + w;
    }
  }

  function Opens(w: seq<Message>): nat {
    if w == [] then 0 else (if w[0].Open? then 1 else 0) + Opens(w[1..])
  }

  lemma {:induction false} OpensAppend(v: seq<Message>, w: seq<Message>)
    ensures Opens(v + w) == Opens(v) + Opens(w)
  {
    if v == [] {
      assert v + w == w;
    } else {
      OpensAppend(v[1..], w);
      assert (v + w)[1..] == v[1..] + w;
    }
  }
}
