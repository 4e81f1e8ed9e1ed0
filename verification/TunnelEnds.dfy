/**
 What holds at each end of a stream of the reverse tunnel, and of its heartbeats, in every run
 (server/pkg/relay/relay.go:263-417, server/pkg/origin/agent.go:240-410).
 */
module TunnelEnds {
  import opened Wrappers
  import opened Words
  import opened ReverseTunnel
  import opened TunnelSafety
  import opened TunnelDelivery
  import opened TunnelClosing

  // ---------------------------------------------------------------- what one end keeps

  /** With the session up, what was read from the socket is what was sent, and what is about to be. */
  ghost predicate Forwards(s: Stream) {
    s.read == Concat(s.sent) + Held(s)
  }

  /** A stream that has no socket yet, or got none, has moved nothing. */
  predicate Idles(s: Stream) {
    s.phase in {Starting, Refused} ==>
      s.taken == [] && s.written == [] && s.sent == [] && s.read == [] && s.unsent == None && !s.writer.Writing?
  }

  ghost predicate Steadfast(s: Stream, up: bool) {
    Idles(s) && (up ==> Forwards(s)) && (s.phase in {Ended, Refused} ==> s.unsent == None)
  }

  lemma ActSteadfast(s: Stream, a: Action, up: bool, s': Stream)
    requires Act(s, a, up) == Some(s') && Steadfast(s, up)
    ensures Steadfast(s', up)
  {
    hide Concat;
  }

  lemma ChangesSteadfast(s: Stream, s': Stream, up: bool, e: Event, side: Side, id: word32)
    requires Changes(s, s', up, e, side, id) && Steadfast(s, up)
    ensures Steadfast(s', up)
  {
    hide Act, Concat;
    if e.Local? && Act(s, e.action, up) == Some(s') {
      ActSteadfast(s, e.action, up, s');
    } else if s.unsent.Some? {
      ConcatSnoc(s.sent, s.unsent.value);
    }
  }

  lemma FreshSteadfast(up: bool)
    ensures Steadfast(FRESH, up)
  {
  }

  lemma DownSteadfast(s: Stream, up: bool)
    requires Steadfast(s, up)
    ensures Steadfast(s, false)
  {
  }

  lemma StepSteadfast(t: Tunnel, e: Event, t': Tunnel, side: Side, id: word32)
    requires Next(t, e) == Some(t') && (id in t.At(side).streams ==> Steadfast(t.At(side).streams[id], t.up))
    requires id in t'.At(side).streams
    ensures Steadfast(t'.At(side).streams[id], t'.up)
  {
    hide Next, Changes, Steadfast;
    StepEvolves(t, e, t', side, id);
    FreshSteadfast(t'.up);
    if id in t.At(side).streams {
      var s, s' := t.At(side).streams[id], t'.At(side).streams[id];
      if Changes(s, s', t.up, e, side, id) {
        ChangesSteadfast(s, s', t.up, e, side, id);
      }
      if !t'.up {
        DownSteadfast(s, t.up);
        if Steadfast(s', t.up) {
          DownSteadfast(s', t.up);
        }
      } else {
        UpBefore(t, e, t');
      }
    }
  }

  /**
   In every run, whatever ids come again: a stream without a socket has moved nothing, and while the session
   stands every byte read from a socket has been sent or is about to be, the reader's end included.
   */
  lemma {:induction false} RunSteadfast(es: seq<Event>, t: Tunnel, side: Side, id: word32)
    requires After(es) == Some(t) && id in t.At(side).streams
    ensures Steadfast(t.At(side).streams[id], t.up)
  {
    hide Next, Steadfast;
    if es != [] {
      var last := |es| - 1;
      var s := After(es[..last]).value;
      if id in s.At(side).streams {
        RunSteadfast(es[..last], s, side, id);
      }
      StepSteadfast(s, es[last], t, side, id);
    }
  }

  /** No queue ever holds more than 32 payloads at the relay or 64 at the origin. */
  lemma QueueBounds(es: seq<Event>, t: Tunnel, id: word32)
    requires After(es) == Some(t)
    ensures id in t.relay.streams ==> |t.relay.streams[id].queue| <= 32
    ensures id in t.origin.streams ==> |t.origin.streams[id].queue| <= 64
  {
    hide After;
    RunGood(es, t);
    assert SoundSlot(Slot(t.At(Relay), id), 32) && SoundSlot(Slot(t.At(Origin), id), 64);
  }

  /** The frame loop hands a payload over exactly while there is room for it. */
  lemma PushesExactly(es: seq<Event>, t: Tunnel, side: Side)
    requires After(es) == Some(t) && t.At(side).pending.Some?
    ensures t.At(side).pending.value.0 in t.At(side).streams
    ensures Next(t, Push(side)).Some? <==>
            |t.At(side).streams[t.At(side).pending.value.0].queue| < if side == Relay then 32 else 64
  {
    hide After, AllSound;
    RunGood(es, t);
  }

  // ---------------------------------------------------------------- who leaves last

  /** An end that the frame loop no longer knows has stopped writing, had no socket, or the other end has closed. */
  ghost predicate LeavesLast(v: View, side: Side) {
    v.At(side).Some? && !v.At(side).value.registered ==>
      v.At(side).value.writer == Stopped || v.At(side).value.phase == Refused || ClosedAt(v, Other(side))
  }

  /** Gone of itself: its writer has stopped, or it never had a socket. */
  predicate Done(s: Stream) {
    s.writer == Stopped || s.phase == Refused
  }

  lemma ActLast(s: Stream, a: Action, up: bool)
    requires Act(s, a, up).Some?
    ensures var s' := Act(s, a, up).value; (Done(s) ==> Done(s')) && (!s'.registered ==> Done(s') || !s.registered)
  {
  }

  lemma ChangesLast(s: Stream, s': Stream, up: bool, e: Event, side: Side, id: word32)
    requires Changes(s, s', up, e, side, id)
    ensures Done(s) ==> Done(s')
    ensures !s'.registered ==> Done(s') || !s.registered || e == Receive(side) || e == CloseAll(side)
  {
    hide Act;
    if e.Local? && Act(s, e.action, up) == Some(s') {
      ActLast(s, e.action, up);
    }
  }

  lemma KeptLast(s: Option<Stream>, s': Option<Stream>, up: bool, e: Event, side: Side, id: word32)
    requires Kept(s, s', up, e, side, id)
    ensures Done(s.value) ==> Done(s'.value)
    ensures !s'.value.registered ==> Done(s'.value) || !s.value.registered || e == Receive(side) || e == CloseAll(side)
  {
    hide Changes, Done;
    if s' != s {
      ChangesLast(s.value, s'.value, up, e, side, id);
    }
  }

  /** Only a close taken off the wire makes the frame loop forget a stream that is not done. */
  lemma ReceiveForgets(t: Tunnel, side: Side, t': Tunnel, id: word32)
    requires Next(t, Receive(side)) == Some(t') && id in t.At(side).streams && t.At(side).streams[id].registered
    requires id in t'.At(side).streams && !t'.At(side).streams[id].registered
    ensures Closes(ViewOf(t, id).Towards(side))
  {
    hide Dispatch;
    var m := t.Towards(side)[0];
    DispatchForgets(t.WithWire(side, t.Towards(side)[1..]), side, m, id);
    ViewTail(t, side, id);
    assert m in ViewOf(t, id).Towards(side);
  }

  lemma DispatchForgets(t: Tunnel, side: Side, m: Message, id: word32)
    requires id in t.At(side).streams && t.At(side).streams[id].registered
    requires id in Dispatch(t, side, m).At(side).streams && !Dispatch(t, side, m).At(side).streams[id].registered
    ensures (m.Close? || m.Reset?) && m.id == id
  {
  }

  lemma StepLast(t: Tunnel, e: Event, t': Tunnel, id: word32, side: Side)
    requires IdsUsed(t) && ViewInv(ViewOf(t, id)) && Next(t, e) == Some(t') && t'.accepted <= ID_SPACE && t'.up
    requires Answered(ViewOf(t, id), side) && LeavesLast(ViewOf(t, id), side)
    ensures LeavesLast(ViewOf(t', id), side)
  {
    hide Next, Closes, Kept, Only, ViewInv, IdsUsed;
    StaysClosed(t, e, t', id, Other(side));
    UpBefore(t, e, t');
    if id in t.At(side).streams {
      SlotKept(t, e, t', side, id);
      SlotSome(t, e, t', side, id);
      KeptLast(Slot(t.At(side), id), Slot(t'.At(side), id), t.up, e, side, id);
      if e == Receive(side) && t.At(side).streams[id].registered && !t'.At(side).streams[id].registered {
        ReceiveForgets(t, side, t', id);
      }
    } else if id in t'.At(side).streams {
      NewRegistered(t, e, t', side, id);
    }
  }

  lemma NewRegistered(t: Tunnel, e: Event, t': Tunnel, side: Side, id: word32)
    requires Next(t, e) == Some(t') && id !in t.At(side).streams && id in t'.At(side).streams
    ensures t'.At(side).streams[id].registered
  {
    hide Next, Changes;
    StepEvolves(t, e, t', side, id);
  }

  /** Over every run with the session up: nothing is still being written at an end that is gone of itself. */
  lemma {:induction false} RunLast(es: seq<Event>, t: Tunnel, id: word32, side: Side)
    requires After(es) == Some(t) && t.accepted <= ID_SPACE && id !in t.elsewhere && t.up
    ensures LeavesLast(ViewOf(t, id), side)
  {
    hide Inv, Next, Answered, IdsUsed, ViewInv, LeavesLast, ViewOf;
    if es == [] {
      StartLast(id, side);
    } else {
      var last := |es| - 1;
      var s, e := After(es[..last]).value, es[last];
      UpBefore(s, e, t);
      AcceptedGrows(s, e, t);
      ElsewhereGrows(s, e, t);
      RunLast(es[..last], s, id, side);
      StepFacts(es[..last], s, e, t, id);
      RunAnswered(es[..last], s, id, side);
      StepLast(s, e, t, id, side);
    }
  }

  lemma StartLast(id: word32, side: Side)
    ensures LeavesLast(ViewOf(START, id), side)
  {
  }

  // ---------------------------------------------------------------- heartbeats

  function Pings(w: seq<Message>): nat {
    if w == [] then 0 else (if w[0].Ping? then 1 else 0) + Pings(w[1..])
  }

  function Pongs(w: seq<Message>): nat {
    if w == [] then 0 else (if w[0].Pong? then 1 else 0) + Pongs(w[1..])
  }

  lemma {:induction false} BeatsAppend(w: seq<Message>, m: Message)
    ensures Pings(w + [m]) == Pings(w) + if m.Ping? then 1 else 0
    ensures Pongs(w + [m]) == Pongs(w) + if m.Pong? then 1 else 0
  {
    if w == [] {
      assert [m][1..] == [];
    } else {
      BeatsAppend(w[1..], m);
      assert (w + [m])[1..] == w[1..] + [m];
    }
  }

  /** The message that an event takes off a wire. */
  function Taken(t: Tunnel, e: Event, side: Side): Option<Message> {
    if e == Receive(side) && t.Towards(side) != [] then Some(t.Towards(side)[0]) else None
  }

  /** Heartbeats sent by the origin, heard by the relay, and answers heard by the origin. */
  datatype Beats = Beats(sent: nat, heard: nat, answered: nat)

  function BeatsOf(es: seq<Event>): Beats
    requires After(es).Some?
  {
    if es == [] then Beats(0, 0, 0)
    else
      var t, e, b := After(es[..|es| - 1]).value, es[|es| - 1], BeatsOf(es[..|es| - 1]);
      Beats(b.sent + (if e.Heartbeat? then 1 else 0),
            b.heard + (if Taken(t, e, Relay) == Some(Ping) then 1 else 0),
            b.answered + (if Taken(t, e, Origin) == Some(Pong) then 1 else 0))
  }

  lemma TransmitBeats(t: Tunnel, to: Side, m: Message)
    requires t.up
    ensures var t' := t.Transmit(to, m);
      && Pings(t'.toRelay) == Pings(t.toRelay) + (if to == Relay && m.Ping? then 1 else 0)
      && Pongs(t'.toOrigin) == Pongs(t.toOrigin) + (if to == Origin && m.Pong? then 1 else 0)
  {
    hide Pings, Pongs;
    BeatsAppend(t.Towards(to), m);
  }

  lemma DispatchBeats(t: Tunnel, at: Side, m: Message)
    requires t.up
    ensures var t' := Dispatch(t, at, m);
      && Pings(t'.toRelay) == Pings(t.toRelay)
      && Pongs(t'.toOrigin) == Pongs(t.toOrigin) + (if at == Relay && m.Ping? then 1 else 0)
  {
    hide Pings, Pongs;
    TransmitBeats(t, Origin, Pong);
  }

  lemma StepBeats(t: Tunnel, e: Event, t': Tunnel)
    requires Next(t, e) == Some(t') && t.up && t'.up
    ensures Pings(t'.toRelay) == Pings(t.toRelay) + (if e.Heartbeat? then 1 else 0)
                                 - if Taken(t, e, Relay) == Some(Ping) then 1 else 0
    ensures Pongs(t'.toOrigin) == Pongs(t.toOrigin) + (if Taken(t, e, Relay) == Some(Ping) then 1 else 0)
                                  - if Taken(t, e, Origin) == Some(Pong) then 1 else 0
  {
    hide Act, Dispatch, Pings, Pongs;
    match e
    case Stale(m) => TransmitBeats(t, Relay, m);
    case SendOpen(id) =>
      TransmitBeats(t.WithStream(Relay, id, t.relay.streams[id].(phase := Running)), Origin, Open(id));
    case Send(side, id) =>
      var s := t.At(side).streams[id];
      var s' := s.(unsent := None, sent := s.sent + [s.unsent.value]);
      TransmitBeats(t.WithStream(side, id, s'), Other(side), Data(id, s.unsent.value));
    case Receive(side) =>
      HeadBeats(t.Towards(side));
      DispatchBeats(t.WithWire(side, t.Towards(side)[1..]), side, t.Towards(side)[0]);
    case SendClose(side, id) =>
      TransmitBeats(t, Other(side), if t.At(side).streams[id].phase == Refused then Reset(id) else Close(id));
    case Heartbeat => TransmitBeats(t, Relay, Ping);
    case _ =>
  }

  lemma HeadBeats(w: seq<Message>)
    requires w != []
    ensures Pings(w) == (if w[0].Ping? then 1 else 0) + Pings(w[1..])
    ensures Pongs(w) == (if w[0].Pong? then 1 else 0) + Pongs(w[1..])
  {
  }

  /**
   Over every run with the session up: every heartbeat sent is heard or on the wire, and for every one heard an
   answer is heard or on the wire back.
   */
  lemma {:induction false} HeartbeatsAnswered(es: seq<Event>, t: Tunnel)
    requires After(es) == Some(t) && t.up
    ensures BeatsOf(es).sent == BeatsOf(es).heard + Pings(t.toRelay)
    ensures BeatsOf(es).heard == BeatsOf(es).answered + Pongs(t.toOrigin)
  {
    hide Next, Pings, Pongs, Taken;
    if es == [] {
      NoBeats();
    } else {
      var last := |es| - 1;
      var s := After(es[..last]).value;
      UpBefore(s, es[last], t);
      HeartbeatsAnswered(es[..last], s);
      StepBeats(s, es[last], t);
    }
  }

  lemma NoBeats()
    ensures Pings([]) == 0 && Pongs([]) == 0
  {
  }
}
