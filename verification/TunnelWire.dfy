/** The messages of the reverse tunnel as frames on a byte stream. */
module TunnelWire {
  import opened Wrappers
  import opened Words
  import opened LittleEndian
  import opened Frames
  import opened ReverseTunnel

  function FrameOf(m: Message): Frame {
    match m
    case Ping => Frame(PING, 0, 0, [])
    case Pong => Frame(PONG, 0, 0, [])
    case Open(id) => Frame(STREAM_OPEN, 0, id, [])
    case Data(id, payload) => Frame(STREAM_DATA, 0, id, payload)
    case Close(id) => Frame(STREAM_CLOSE, 0, id, [])
    case Reset(id) => Frame(STREAM_RESET, 0, id, [])
  }

  /** What the frame loops make of a frame; they pass over every other type. */
  function MessageOf(f: Frame): Option<Message> {
    if f.kind == PING then Some(Ping)
    else if f.kind == PONG then Some(Pong)
    else if f.kind == STREAM_OPEN then Some(Open(f.streamId))
    else if f.kind == STREAM_DATA then Some(Data(f.streamId, f.payload))
    else if f.kind == STREAM_CLOSE then Some(Close(f.streamId))
    else if f.kind == STREAM_RESET then Some(Reset(f.streamId))
    else None
  }

  function FramesOf(w: seq<Message>): (fs: seq<Frame>)
    ensures |fs| == |w|
    ensures forall i :: 0 <= i < |w| ==> fs[i] == FrameOf(w[i])
  {
    if w == [] then [] else [FrameOf(w[0])] + FramesOf(w[1..])
  }

  function MessagesOf(fs: seq<Frame>): seq<Message> {
    if fs == [] then []
    else (match MessageOf(fs[0]) case Some(m) => [m] case None => []) + MessagesOf(fs[1..])
  }

  lemma {:induction false} MessagesBack(w: seq<Message>)
    ensures MessagesOf(FramesOf(w)) == w
  {
    if w != [] {
      MessagesBack(w[1..]);
      assert FramesOf(w)[1..] == FramesOf(w[1..]);
      assert MessageOf(FrameOf(w[0])) == Some(w[0]);
    }
  }

  ghost predicate AllSmall(w: seq<Message>) {
    forall i :: 0 <= i < |w| ==> w[i].Small()
  }

  lemma SmallSendable(w: seq<Message>)
    requires AllSmall(w)
    ensures Sendable(FramesOf(w))
  {
    hide FramesOf;
  }

  /** Messages sent as frames are read back as the same messages, whatever bytes follow. */
  lemma WireRoundTrip(w: seq<Message>, rest: Bytes)
    requires AllSmall(w)
    ensures DecodeMany(EncodeAll(FramesOf(w)) + rest, |w|) == Ok((FramesOf(w), rest))
    ensures MessagesOf(FramesOf(w)) == w
  {
    hide EncodeAll, DecodeMany, FramesOf, MessagesOf;
    MessagesBack(w);
    SmallSendable(w);
    DecodeManyEncodeAll(FramesOf(w), rest);
  }

  /** The type byte of each message. */
  function TypeOf(m: Message): byte {
    match m
    case Ping => 3
    case Pong => 4
    case Open(_) => 5
    case Data(_, _) => 6
    case Close(_) => 7
    case Reset(_) => 8
  }

  /** The bytes of a message, with the stream id and the length of the payload in network order. */
  lemma WireBytes(m: Message)
    requires m.Small()
    ensures var id, payload := if m.Ping? || m.Pong? then 0 else m.id, if m.Data? then m.payload else [];
      && Encode(FrameOf(m)) == [0x57, 0x47, 0x52, 0x4C, 1, TypeOf(m)] + ToBigEndian(0, 2) + ToBigEndian(id, 4)
                               + ToBigEndian(|payload|, 4) + payload
      && |payload| <= 16384 < MAX_PAYLOAD == 65536
  {
    hide ToBigEndian;
    MagicBytes();
  }

  // ---------------------------------------------------------------- payloads over runs

  ghost predicate SmallEnd(e: End) {
    forall id <- e.streams :: e.streams[id].unsent.Some? ==> |e.streams[id].unsent.value| <= READ_BUFFER
  }

  ghost predicate SmallTunnel(t: Tunnel) {
    SmallEnd(t.relay) && SmallEnd(t.origin) && AllSmall(t.toRelay) && AllSmall(t.toOrigin)
  }

  lemma SmallStream(t: Tunnel, side: Side, id: word32, s: Stream)
    requires SmallTunnel(t) && (s.unsent.Some? ==> |s.unsent.value| <= READ_BUFFER)
    ensures SmallTunnel(t.WithStream(side, id, s))
  {
  }

  lemma SmallTransmit(t: Tunnel, side: Side, m: Message)
    requires SmallTunnel(t) && m.Small()
    ensures SmallTunnel(t.Transmit(side, m))
  {
  }

  lemma SmallAct(s: Stream, a: Action, up: bool)
    requires s.unsent.Some? ==> |s.unsent.value| <= READ_BUFFER
    ensures var r := Act(s, a, up); r.Some? && r.value.unsent.Some? ==> |r.value.unsent.value| <= READ_BUFFER
  {
  }

  lemma SmallDispatch(t: Tunnel, side: Side, m: Message)
    requires SmallTunnel(t)
    ensures SmallTunnel(Dispatch(t, side, m))
  {
    hide SmallTunnel;
    match m
    case Ping => SmallTransmit(t, Origin, Pong);
    case Pong =>
    case Open(id) => SmallStream(t, Origin, id, FRESH);
    case Data(id, payload) => SmallPending(t, side, Some((id, payload)));
    case Close(id) => SmallShut(t, side, id);
    case Reset(id) => SmallShut(t, side, id);
  }

  lemma SmallPending(t: Tunnel, side: Side, pending: Option<(word32, Bytes)>)
    requires SmallTunnel(t)
    ensures SmallTunnel(t.WithEnd(side, t.At(side).(pending := pending)))
  {
  }

  lemma SmallShut(t: Tunnel, side: Side, id: word32)
    requires SmallTunnel(t)
    ensures SmallTunnel(Shut(t, side, id))
  {
    if id in t.At(side).streams {
      SmallStream(t, side, id, Closed(t.At(side).streams[id]));
    }
  }

  lemma SmallUnsent(t: Tunnel, side: Side, id: word32)
    requires SmallTunnel(t) && id in t.At(side).streams
    ensures var s := t.At(side).streams[id]; s.unsent.Some? ==> |s.unsent.value| <= READ_BUFFER
  {
  }

  lemma SmallWire(t: Tunnel, side: Side)
    requires SmallTunnel(t) && t.Towards(side) != []
    ensures SmallTunnel(t.WithWire(side, t.Towards(side)[1..]))
  {
  }

  /** Steps that put nothing new into a stream's hands or on a wire. */
  lemma SmallQuiet(t: Tunnel, e: Event, t': Tunnel)
    requires SmallTunnel(t) && Next(t, e) == Some(t')
    requires e.AcceptElsewhere? || e.Push? || e.Discard? || e.Break? || e.CloseAll?
    ensures SmallTunnel(t')
  {
    hide Act, Dispatch;
  }

  lemma SmallStep(t: Tunnel, e: Event, t': Tunnel)
    requires SmallTunnel(t) && Next(t, e) == Some(t')
    ensures SmallTunnel(t')
  {
    hide Act, Dispatch, SmallTunnel;
    match e
    case Accept =>
      SmallStream(t, Relay, t.NextId(), FRESH);
      SmallCount(t.WithStream(Relay, t.NextId(), FRESH), t.accepted + 1);
    case Stale(m) => SmallTransmit(t, Relay, m);
    case SendOpen(id) =>
      SmallUnsent(t, Relay, id);
      var s := t.relay.streams[id];
      SmallStream(t, Relay, id, s.(phase := Running));
      SmallStream(t, Relay, id, s.(phase := Ended, closed := true));
      SmallTransmit(t.WithStream(Relay, id, s.(phase := Running)), Origin, Open(id));
    case Dial(id, ok) =>
      SmallUnsent(t, Origin, id);
      var s := t.origin.streams[id];
      SmallStream(t, Origin, id, s.(phase := Running));
      SmallStream(t, Origin, id, s.(phase := Refused, registered := false, closed := true));
    case Local(side, id, a) =>
      SmallUnsent(t, side, id);
      SmallAct(t.At(side).streams[id], a, t.up);
      SmallStream(t, side, id, Act(t.At(side).streams[id], a, t.up).value);
    case Send(side, id) =>
      SmallUnsent(t, side, id);
      var s := t.At(side).streams[id];
      var s' := s.(unsent := None, sent := s.sent + [s.unsent.value]);
      SmallStream(t, side, id, s');
      SmallTransmit(t.WithStream(side, id, s'), Other(side), Data(id, s.unsent.value));
    case Receive(side) =>
      SmallWire(t, side);
      SmallDispatch(t.WithWire(side, t.Towards(side)[1..]), side, t.Towards(side)[0]);
    case SendClose(side, id) =>
      SmallTransmit(t, Other(side), Reset(id));
      SmallTransmit(t, Other(side), Close(id));
    case Heartbeat => SmallTransmit(t, Relay, Ping);
    case _ => SmallQuiet(t, e, t');
  }

  lemma SmallCount(t: Tunnel, n: nat)
    requires SmallTunnel(t)
    ensures SmallTunnel(t.(accepted := n))
  {
  }

  /** Over every run, what is on either wire fits the frame codec. */
  lemma {:induction false} RunSmall(es: seq<Event>, t: Tunnel)
    requires After(es) == Some(t)
    ensures SmallTunnel(t)
  {
    hide SmallTunnel, Next;
    if es == [] {
      assert SmallTunnel(START) by { SmallStart(); }
    } else {
      var s := After(es[..|es| - 1]).value;
      RunSmall(es[..|es| - 1], s);
      SmallStep(s, es[|es| - 1], t);
    }
  }

  lemma SmallStart()
    ensures SmallTunnel(START)
  {
  }

  /** In every run, the frames of either wire are read back as the messages the step system moves. */
  lemma WireOfRun(es: seq<Event>, t: Tunnel, side: Side, rest: Bytes)
    requires After(es) == Some(t)
    ensures var w := t.Towards(side);
      && DecodeMany(EncodeAll(FramesOf(w)) + rest, |w|) == Ok((FramesOf(w), rest))
      && MessagesOf(FramesOf(w)) == w
  {
    hide After, EncodeAll, DecodeMany, MessagesOf;
    RunSmall(es, t);
    WireRoundTrip(t.Towards(side), rest);
  }
}
