/**
 Closing a stream of the reverse tunnel: an end that is told of a close or reset closes
 (server/pkg/relay/relay.go:284-294, server/pkg/origin/agent.go:323-334).
 */
module TunnelClosing {
  import opened Wrappers
  import opened Words
  import opened ReverseTunnel
  import opened TunnelSafety
  import opened TunnelDelivery

  // ---------------------------------------------------------------- the origin hears of a stream first

  /** Until the origin has heard of a stream that the relay opened, its Open comes before all else. */
  ghost predicate OpenFirst(v: View) {
    v.relay.Some? && v.relay.value.phase != Starting && v.origin.None? ==> v.toOrigin != [] && v.toOrigin[0].Open?
  }

  lemma OpenFirstSlot(v: View, side: Side, s: Stream)
    requires OpenFirst(v) && v.At(side).Some?
    requires side == Relay ==> (s.phase == Starting <==> v.relay.value.phase == Starting)
    ensures OpenFirst(v.With(side, s))
  {
  }

  lemma OpenFirstSent(v: View, to: Side, m: Message)
    requires OpenFirst(v)
    ensures OpenFirst(v.Transmit(to, m))
  {
  }

  lemma OpenFirstTransmit(t: Tunnel, to: Side, m: Message, id: word32)
    requires OpenFirst(ViewOf(t, id))
    ensures OpenFirst(ViewOf(t.Transmit(to, m), id))
  {
    hide OpenFirst, ViewOf;
    ViewTransmit(t, to, m, id);
    OpenFirstSent(ViewOf(t, id), to, m);
  }

  lemma OpenFirstWith(t: Tunnel, side: Side, i: word32, s: Stream, id: word32)
    requires OpenFirst(ViewOf(t, id)) && i in t.At(side).streams
    requires side == Relay ==> (s.phase == Starting <==> t.relay.streams[i].phase == Starting)
    ensures OpenFirst(ViewOf(t.WithStream(side, i, s), id))
  {
    hide OpenFirst, Only;
    ViewWith(t, side, i, s, id);
    if i == id {
      OpenFirstSlot(ViewOf(t, id), side, s);
    }
  }

  /** A stream not yet announced has nothing on the wire, while the session stands. */
  lemma NotAnnounced(v: View)
    requires ViewInv(v) && Answered(v, Relay) && v.up && v.relay.Some? && v.relay.value.phase == Starting
    ensures v.origin.None? && v.toOrigin == []
  {
    hide EndInv, Subsequence, Closes, Carried, OnlyData;
    assert v.origin.None?;
    assert Intact(v);
  }

  lemma SendOpenFirst(t: Tunnel, i: word32, t': Tunnel, id: word32)
    requires Next(t, SendOpen(i)) == Some(t') && t.up
    requires ViewInv(ViewOf(t, id)) && Answered(ViewOf(t, id), Relay) && OpenFirst(ViewOf(t, id))
    ensures OpenFirst(ViewOf(t', id))
  {
    hide ViewInv, Answered, Only, OpenFirst;
    var s := t.relay.streams[i].(phase := Running);
    ViewWith(t, Relay, i, s, id);
    ViewTransmit(t.WithStream(Relay, i, s), Origin, Open(i), id);
    if i == id {
      NotAnnounced(ViewOf(t, id));
      assert OpenFirst(ViewOf(t', id)) by { FirstIsOpen(ViewOf(t, id), s, id); }
    }
  }

  lemma FirstIsOpen(v: View, s: Stream, id: word32)
    requires v.up && v.toOrigin == []
    ensures OpenFirst(v.With(Relay, s).Transmit(Origin, Open(id)))
  {
  }

  lemma ReceiveFirst(t: Tunnel, at: Side, t': Tunnel, id: word32)
    requires Next(t, Receive(at)) == Some(t') && ViewInv(ViewOf(t, id)) && OpenFirst(ViewOf(t, id))
    ensures OpenFirst(ViewOf(t', id))
  {
    hide ViewInv, Only;
    var m, v, w := t.Towards(at)[0], ViewOf(t, id), t.WithWire(at, t.Towards(at)[1..]);
    ViewTail(t, at, id);
    if !m.For(id) {
      OtherStream(w, at, m, id);
    } else if m.Open? {
      if at == Origin {
        ViewWith(w, Origin, id, FRESH, id);
      }
    } else if m.Close? || m.Reset? {
      if id in t.At(at).streams {
        ViewWith(w, at, id, Closed(t.At(at).streams[id]), id);
      }
    }
  }

  lemma PushFirst(t: Tunnel, side: Side, t': Tunnel, id: word32)
    requires Next(t, Push(side)) == Some(t') && OpenFirst(ViewOf(t, id))
    ensures OpenFirst(ViewOf(t', id))
  {
    hide Only;
  }

  lemma LocalFirst(t: Tunnel, side: Side, i: word32, a: Action, t': Tunnel, id: word32)
    requires Next(t, Local(side, i, a)) == Some(t') && OpenFirst(ViewOf(t, id))
    ensures OpenFirst(ViewOf(t', id))
  {
    hide Only, OpenFirst, Act;
    var s := t.At(side).streams[i];
    ActPhase(s, a, t.up);
    OpenFirstWith(t, side, i, Act(s, a, t.up).value, id);
  }

  lemma ActPhase(s: Stream, a: Action, up: bool)
    requires Act(s, a, up).Some?
    ensures Act(s, a, up).value.phase == Starting <==> s.phase == Starting
  {
  }

  lemma StepOpenFirst(t: Tunnel, e: Event, t': Tunnel, id: word32)
    requires IdsUsed(t) && ViewInv(ViewOf(t, id)) && Answered(ViewOf(t, id), Relay) && OpenFirst(ViewOf(t, id))
    requires Next(t, e) == Some(t') && t'.accepted <= ID_SPACE && id !in t.elsewhere && t'.up
    ensures OpenFirst(ViewOf(t', id))
  {
    hide ViewInv, Answered, Only, OpenFirst, Act, Dispatch, IdsUsed;
    UpBefore(t, e, t');
    match e
    case Accept =>
      ViewWith(t, Relay, t.NextId(), FRESH, id);
      assert OpenFirst(ViewOf(t, id).With(Relay, FRESH)) by { NewFirst(ViewOf(t, id)); }
      assert ViewOf(t', id) == ViewOf(t.WithStream(Relay, t.NextId(), FRESH), id);
    case AcceptElsewhere => assert ViewOf(t', id) == ViewOf(t, id);
    case Stale(m) => OpenFirstTransmit(t, Relay, m, id);
    case SendOpen(i) => SendOpenFirst(t, i, t', id);
    case Dial(i, ok) =>
      var s := t.origin.streams[i];
      OpenFirstWith(t, Origin, i,
        if ok then s.(phase := Running) else s.(phase := Refused, registered := false, closed := true), id);
    case Local(side, i, a) => LocalFirst(t, side, i, a, t', id);
    case Send(side, i) =>
      var s := t.At(side).streams[i];
      var s' := s.(unsent := None, sent := s.sent + [s.unsent.value]);
      OpenFirstWith(t, side, i, s', id);
      OpenFirstTransmit(t.WithStream(side, i, s'), Other(side), Data(i, s.unsent.value), id);
    case Receive(at) => ReceiveFirst(t, at, t', id);
    case Push(side) => PushFirst(t, side, t', id);
    case Discard(side) => assert OpenFirst(ViewOf(t', id)) by { SameFirst(ViewOf(t, id), ViewOf(t', id)); }
    case SendClose(side, i) =>
      OpenFirstTransmit(t, Other(side), if t.At(side).streams[i].phase == Refused then Reset(i) else Close(i), id);
    case Heartbeat => OpenFirstTransmit(t, Relay, Ping, id);
    case _ =>
  }

  lemma NewFirst(v: View)
    ensures OpenFirst(v.With(Relay, FRESH))
  {
  }

  lemma SameFirst(v: View, v': View)
    requires OpenFirst(v) && v'.relay == v.relay && v'.origin == v.origin && v'.toOrigin == v.toOrigin
    ensures OpenFirst(v')
  {
  }

  lemma {:induction false} RunOpenFirst(es: seq<Event>, t: Tunnel, id: word32)
    requires After(es) == Some(t) && t.accepted <= ID_SPACE && id !in t.elsewhere && t.up
    ensures OpenFirst(ViewOf(t, id))
  {
    hide Inv, Next, Answered, IdsUsed, ViewInv, ViewOf, OpenFirst;
    if es == [] {
      StartFirst(id);
    } else {
      var last := |es| - 1;
      var s, e := After(es[..last]).value, es[last];
      UpBefore(s, e, t);
      AcceptedGrows(s, e, t);
      ElsewhereGrows(s, e, t);
      RunOpenFirst(es[..last], s, id);
      StepFacts(es[..last], s, e, t, id);
      RunAnswered(es[..last], s, id, Relay);
      StepOpenFirst(s, e, t, id);
    }
  }

  lemma StartFirst(id: word32)
    ensures OpenFirst(ViewOf(START, id))
  {
  }

  // ---------------------------------------------------------------- being told closes

  /** Closed, and no longer known to the frame loop. */
  predicate Gone(s: Stream) {
    s.closed && !s.registered
  }

  /** The stream is closed and unregistered at this end, or word of it is on the wire there. */
  ghost predicate Told(v: View, side: Side) {
    Closes(v.Towards(side)) || (v.At(side).Some? && Gone(v.At(side).value))
  }

  lemma ChangesGone(s: Stream, s': Stream, up: bool, e: Event, side: Side, id: word32)
    requires Changes(s, s', up, e, side, id) && Gone(s)
    ensures Gone(s')
  {
    hide Act;
    if e.Local? && Act(s, e.action, up) == Some(s') {
      ActGone(s, e.action, up);
    }
  }

  lemma ActGone(s: Stream, a: Action, up: bool)
    requires Act(s, a, up).Some? && Gone(s)
    ensures Gone(Act(s, a, up).value)
  {
  }

  lemma StaysGone(t: Tunnel, e: Event, t': Tunnel, side: Side, id: word32)
    requires IdsUsed(t) && ViewInv(ViewOf(t, id)) && Next(t, e) == Some(t') && t'.accepted <= ID_SPACE
    requires id in t.At(side).streams && Gone(t.At(side).streams[id])
    ensures id in t'.At(side).streams && Gone(t'.At(side).streams[id])
  {
    hide Next, Changes, Only, ViewInv, IdsUsed, Gone;
    SlotKept(t, e, t', side, id);
    SlotSome(t, e, t', side, id);
    if t'.At(side).streams[id] != t.At(side).streams[id] {
      ChangesGone(t.At(side).streams[id], t'.At(side).streams[id], t.up, e, side, id);
    }
  }

  /** A close taken off the wire closes and unregisters the stream. */
  lemma ReceiveTold(t: Tunnel, side: Side, t': Tunnel, id: word32)
    requires ViewInv(ViewOf(t, id)) && OpenFirst(ViewOf(t, id)) && Answered(ViewOf(t, id), Relay) && t.up
    requires Next(t, Receive(side)) == Some(t') && Closes(ViewOf(t, id).Towards(side))
    ensures Told(ViewOf(t', id), side)
  {
    hide Only, ViewInv, Answered, Closes;
    var m, v, w := t.Towards(side)[0], ViewOf(t, id), t.WithWire(side, t.Towards(side)[1..]);
    ViewTail(t, side, id);
    if !m.For(id) {
      OtherStream(w, side, m, id);
    } else if m.Close? || m.Reset? {
      KnownWhenTold(v, side);
      EndOf(v, side);
      ViewWith(w, side, id, Closed(t.At(side).streams[id]), id);
    } else {
      TailKeepsClose(v.Towards(side));
      if m.Open? && side == Origin {
        if id in t.origin.streams {
          OneOpen(t, id);
        }
        ViewWith(w, Origin, id, FRESH, id);
      }
    }
  }

  lemma TailKeepsClose(w: seq<Message>)
    requires w != [] && !w[0].Close? && !w[0].Reset? && Closes(w)
    ensures Closes(w[1..])
  {
    var m :| m in w && (m.Close? || m.Reset?);
    assert m in w[1..];
  }

  /** An end that a close comes to knows the stream. */
  lemma KnownWhenTold(v: View, side: Side)
    requires ViewInv(v) && OpenFirst(v) && Answered(v, Relay) && v.up
    requires v.Towards(side) != [] && !v.Towards(side)[0].Open?
    ensures v.At(side).Some?
  {
    hide EndInv, Subsequence, Steady, Carried, Closes;
    KnownToRelay(v, side);
    if v.relay.value.phase == Starting {
      NotAnnounced(v);
    }
  }

  lemma StepTold(t: Tunnel, e: Event, t': Tunnel, id: word32, side: Side)
    requires IdsUsed(t) && ViewInv(ViewOf(t, id)) && OpenFirst(ViewOf(t, id)) && Answered(ViewOf(t, id), Relay)
    requires Next(t, e) == Some(t') && t'.accepted <= ID_SPACE && id !in t.elsewhere && t'.up
    requires Told(ViewOf(t, id), side) || e == SendClose(Other(side), id)
    ensures Told(ViewOf(t', id), side)
  {
    hide Next, Closes, Only, ViewInv, IdsUsed, Gone, Answered, OpenFirst;
    UpBefore(t, e, t');
    if e == SendClose(Other(side), id) {
      SentTold(t, side, id, t');
    } else if id in t.At(side).streams && Gone(t.At(side).streams[id]) {
      StaysGone(t, e, t', side, id);
    } else if e == Receive(side) {
      ReceiveTold(t, side, t', id);
    } else {
      WireKeepsClose(t, e, t', id, side);
    }
  }

  lemma SentTold(t: Tunnel, side: Side, id: word32, t': Tunnel)
    requires Next(t, SendClose(Other(side), id)) == Some(t') && t.up
    ensures Closes(ViewOf(t', id).Towards(side))
  {
    hide Closes, Only;
    var m := if t.At(Other(side)).streams[id].phase == Refused then Reset(id) else Close(id);
    ViewTransmit(t, side, m, id);
    AppendCloses(ViewOf(t, id).Towards(side), m);
  }

  /** Only the frame loop takes messages off a wire that stands. */
  lemma WireKeepsClose(t: Tunnel, e: Event, t': Tunnel, id: word32, side: Side)
    requires Next(t, e) == Some(t') && t'.up && e != Receive(side) && Closes(ViewOf(t, id).Towards(side))
    ensures Closes(ViewOf(t', id).Towards(side))
  {
    hide Closes, Only, Act, Dispatch;
    match e
    case Stale(m) => MoreCloses(t, Relay, m, id, side);
    case SendOpen(i) => MoreCloses(t.WithStream(Relay, i, t.relay.streams[i].(phase := Running)), Origin, Open(i), id,
        side);
    case Send(at, i) =>
      var s := t.At(at).streams[i];
      var s' := s.(unsent := None, sent := s.sent + [s.unsent.value]);
      MoreCloses(t.WithStream(at, i, s'), Other(at), Data(i, s.unsent.value), id, side);
    case Receive(at) => DispatchWires(t.WithWire(at, t.Towards(at)[1..]), at, t.Towards(at)[0], id, side);
    case SendClose(at, i) =>
      MoreCloses(t, Other(at), if t.At(at).streams[i].phase == Refused then Reset(i) else Close(i), id, side);
    case Heartbeat => MoreCloses(t, Relay, Ping, id, side);
    case _ =>
  }

  lemma MoreCloses(t: Tunnel, at: Side, m: Message, id: word32, side: Side)
    requires Closes(ViewOf(t, id).Towards(side))
    ensures Closes(ViewOf(t.Transmit(at, m), id).Towards(side))
  {
    hide Closes;
    ViewTransmit(t, at, m, id);
    AppendCloses(ViewOf(t, id).Towards(at), m);
  }

  /**
   Over every run with the session up: once one end has sent a close or reset, the other has closed and
   unregistered the stream, or the message is still on the wire to it.
   */
  lemma {:induction false} RunTold(es: seq<Event>, t: Tunnel, id: word32, side: Side)
    requires After(es) == Some(t) && t.accepted <= ID_SPACE && id !in t.elsewhere && t.up
    requires SendClose(Other(side), id) in es
    ensures Told(ViewOf(t, id), side)
  {
    hide Inv, Next, Answered, IdsUsed, ViewInv, ViewOf, OpenFirst, Told;
    var last := |es| - 1;
    var s, e := After(es[..last]).value, es[last];
    UpBefore(s, e, t);
    AcceptedGrows(s, e, t);
    ElsewhereGrows(s, e, t);
    if e != SendClose(Other(side), id) {
      RunTold(es[..last], s, id, side);
    }
    StepFacts(es[..last], s, e, t, id);
    RunAnswered(es[..last], s, id, Relay);
    RunOpenFirst(es[..last], s, id);
    StepTold(s, e, t, id, side);
  }

  // ---------------------------------------------------------------- the end of the session

  lemma AllClosed(es: seq<Event>, t: Tunnel, t': Tunnel, side: Side, id: word32)
    requires After(es) == Some(t) && Next(t, CloseAll(side)) == Some(t') && id in t.At(side).streams
    requires t.accepted <= ID_SPACE && id !in t.elsewhere
    ensures id in t'.At(side).streams && Gone(t'.At(side).streams[id])
  {
    hide After, Inv, ViewInv;
    Invariant(es, t);
    InvAt(t, id);
    EndOf(ViewOf(t, id), side);
  }

  /** Once an end has closed all its streams, each of them is closed and unregistered there for good. */
  lemma {:induction false} SessionClosed(es: seq<Event>, t: Tunnel, more: seq<Event>, t': Tunnel, side: Side,
                                         id: word32)
    requires After(es) == Some(t) && id in t.At(side).streams && After(es + [CloseAll(side)] + more) == Some(t')
    requires t'.accepted <= ID_SPACE && id !in t'.elsewhere
    ensures id in t'.At(side).streams && Gone(t'.At(side).streams[id])
    decreases |more|
  {
    hide Next, Gone, ViewInv, IdsUsed, Inv;
    var es' := es + [CloseAll(side)];
    if more == [] {
      assert es' + more == es';
      assert es'[..|es'| - 1] == es;
      AcceptedGrows(t, CloseAll(side), t');
      ElsewhereGrows(t, CloseAll(side), t');
      AllClosed(es, t, t', side, id);
    } else {
      var last := |more| - 1;
      var s := BeforeLast(es', more, t');
      SessionClosed(es, t, more[..last], s, side, id);
      StepFacts(es' + more[..last], s, more[last], t', id);
      StaysGone(s, more[last], t', side, id);
    }
  }
}
