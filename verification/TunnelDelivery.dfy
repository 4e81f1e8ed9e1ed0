/** Exactly when a stream of the reverse tunnel delivers everything that was sent on it. */
module TunnelDelivery {
  import opened Wrappers
  import opened Words
  import opened ReverseTunnel
  import opened TunnelSafety

  // ---------------------------------------------------------------- one end of one stream, over one event

  ghost predicate Changes(s: Stream, s': Stream, up: bool, e: Event, side: Side, id: word32) {
    || (s.phase == Starting && s' == s.(phase := Running))
    || (s.phase == Starting && s' == s.(phase := Ended, closed := true))
    || (s.phase == Starting && s' == s.(phase := Refused, registered := false, closed := true))
    || (e.Local? && e.side == side && e.id == id && Act(s, e.action, up) == Some(s'))
    || (s.unsent.Some? && s' == s.(unsent := None, sent := s.sent + [s.unsent.value]))
    || (|s'.queue| == |s.queue| + 1 && |s.queue| < side.Capacity()
        && s' == s.(queue := s.queue + [s'.queue[|s.queue|]]))
    || ((e == Receive(side) || e == CloseAll(side)) && s' == Closed(s))
  }

  /** What an event can do to a slot: nothing, a new stream, or a change. */
  ghost predicate Evolves(s: Option<Stream>, s': Option<Stream>, up: bool, e: Event, side: Side, id: word32) {
    s' == s || (s' == Some(FRESH) && (e.Accept? || e.Receive?))
        || (s.Some? && s'.Some? && Changes(s.value, s'.value, up, e, side, id))
  }

  lemma SlotWith(t: Tunnel, side: Side, i: word32, s: Stream, at: Side, id: word32)
    ensures Slot(t.WithStream(side, i, s).At(at), id) == if at == side && id == i then Some(s) else Slot(t.At(at), id)
  {
  }

  lemma SlotTransmit(t: Tunnel, to: Side, m: Message, at: Side)
    ensures t.Transmit(to, m).At(at) == t.At(at)
  {
  }

  lemma DispatchEvolves(t: Tunnel, at: Side, m: Message, e: Event, side: Side, id: word32)
    requires e == Receive(at)
    ensures Evolves(Slot(t.At(side), id), Slot(Dispatch(t, at, m).At(side), id), t.up, e, side, id)
  {
    hide Act;
    match m
    case Ping => SlotTransmit(t, Origin, Pong, side);
    case Pong =>
    case Open(i) => SlotWith(t, Origin, i, FRESH, side, id);
    case Data(i, payload) =>
    case Close(i) => ShutEvolves(t, at, i, e, side, id);
    case Reset(i) => ShutEvolves(t, at, i, e, side, id);
  }

  lemma ShutEvolves(t: Tunnel, at: Side, i: word32, e: Event, side: Side, id: word32)
    requires e == Receive(at)
    ensures Evolves(Slot(t.At(side), id), Slot(Shut(t, at, i).At(side), id), t.up, e, side, id)
  {
    hide Act;
    if i in t.At(at).streams {
      SlotWith(t, at, i, Closed(t.At(at).streams[i]), side, id);
    }
  }

  lemma SendEvolves(t: Tunnel, at: Side, i: word32, t': Tunnel, side: Side, id: word32)
    requires Next(t, Send(at, i)) == Some(t')
    ensures Evolves(Slot(t.At(side), id), Slot(t'.At(side), id), t.up, Send(at, i), side, id)
  {
    hide Act;
    var s := t.At(at).streams[i];
    var s' := s.(unsent := None, sent := s.sent + [s.unsent.value]);
    SlotWith(t, at, i, s', side, id);
    SlotTransmit(t.WithStream(at, i, s'), Other(at), Data(i, s.unsent.value), side);
  }

  lemma OpenEvolves(t: Tunnel, i: word32, t': Tunnel, side: Side, id: word32)
    requires Next(t, SendOpen(i)) == Some(t')
    ensures Evolves(Slot(t.At(side), id), Slot(t'.At(side), id), t.up, SendOpen(i), side, id)
  {
    hide Act;
    var s := t.relay.streams[i];
    SlotWith(t, Relay, i, s.(phase := Running), side, id);
    SlotTransmit(t.WithStream(Relay, i, s.(phase := Running)), Origin, Open(i), side);
    SlotWith(t, Relay, i, s.(phase := Ended, closed := true), side, id);
  }

  lemma PushEvolves(t: Tunnel, at: Side, t': Tunnel, side: Side, id: word32)
    requires Next(t, Push(at)) == Some(t')
    ensures Evolves(Slot(t.At(side), id), Slot(t'.At(side), id), t.up, Push(at), side, id)
  {
    hide Act;
    var (i, payload) := t.At(at).pending.value;
    if side == at && id == i {
      var s, s' := t.At(at).streams[i], t'.At(at).streams[i];
      assert s'.queue == s.queue + [payload] && s'.queue[|s.queue|] == payload;
    }
  }

  lemma StepEvolves(t: Tunnel, e: Event, t': Tunnel, side: Side, id: word32)
    requires Next(t, e) == Some(t')
    ensures Evolves(Slot(t.At(side), id), Slot(t'.At(side), id), t.up, e, side, id)
  {
    hide Act, Dispatch;
    match e
    case Accept => SlotWith(t, Relay, t.NextId(), FRESH, side, id);
    case AcceptElsewhere =>
    case Stale(m) => SlotTransmit(t, Relay, m, side);
    case SendOpen(i) => OpenEvolves(t, i, t', side, id);
    case Dial(i, ok) =>
      var s := t.origin.streams[i];
      SlotWith(t, Origin, i, s.(phase := Running), side, id);
      SlotWith(t, Origin, i, s.(phase := Refused, registered := false, closed := true), side, id);
    case Local(at, i, a) =>
      SlotWith(t, at, i, Act(t.At(at).streams[i], a, t.up).value, side, id);
    case Send(at, i) => SendEvolves(t, at, i, t', side, id);
    case Receive(at) => DispatchEvolves(t.WithWire(at, t.Towards(at)[1..]), at, t.Towards(at)[0], e, side, id);
    case Push(at) => PushEvolves(t, at, t', side, id);
    case Discard(at) =>
    case SendClose(at, i) =>
      SlotTransmit(t, Other(at), Reset(i), side);
      SlotTransmit(t, Other(at), Close(i), side);
    case Heartbeat => SlotTransmit(t, Relay, Ping, side);
    case Break(i, j) =>
    case CloseAll(at) =>
  }

  // ---------------------------------------------------------------- what every stream keeps

  ghost predicate NonEmpty(xs: seq<Bytes>) {
    forall i :: 0 <= i < |xs| ==> xs[i] != []
  }

  /** The end's own invariant, and no empty payload is ever held or sent. */
  ghost predicate Sound(s: Stream, capacity: nat) {
    EndInv(s, capacity) && NonEmpty(s.sent) && (s.unsent.Some? ==> s.unsent.value != [])
  }

  lemma ActSound(s: Stream, a: Action, up: bool, s': Stream, capacity: nat)
    requires Sound(s, capacity) && Act(s, a, up) == Some(s')
    ensures Sound(s', capacity)
  {
    hide EndInv;
    ActKeeps(s, a, up, s', capacity);
  }

  lemma ChangesSound(s: Stream, s': Stream, up: bool, e: Event, side: Side, id: word32)
    requires Sound(s, side.Capacity()) && Changes(s, s', up, e, side, id)
    ensures Sound(s', side.Capacity())
  {
    hide Act, EndInv;
    var capacity := side.Capacity();
    ClosedEnd(s, capacity);
    if s.phase == Starting {
      DialledEnd(s, capacity);
      StartFails(s, capacity);
    }
    if s.unsent.Some? {
      SendEnd(s, capacity);
    }
    if |s'.queue| == |s.queue| + 1 && |s.queue| < capacity {
      PushEnd(s, s'.queue[|s.queue|], capacity);
    }
    if e.Local? && Act(s, e.action, up) == Some(s') {
      ActSound(s, e.action, up, s', capacity);
    }
  }

  lemma StartFails(s: Stream, capacity: nat)
    requires EndInv(s, capacity) && s.phase == Starting
    ensures EndInv(s.(phase := Ended, closed := true), capacity)
  {
  }

  ghost predicate SoundSlot(s: Option<Stream>, capacity: nat) {
    s.Some? ==> Sound(s.value, capacity)
  }

  lemma EvolvesSound(s: Option<Stream>, s': Option<Stream>, up: bool, e: Event, side: Side, id: word32)
    requires SoundSlot(s, side.Capacity()) && Evolves(s, s', up, e, side, id)
    ensures SoundSlot(s', side.Capacity())
  {
    hide Changes, Sound;
    FreshSound(side.Capacity());
    if s.Some? && s'.Some? && Changes(s.value, s'.value, up, e, side, id) {
      ChangesSound(s.value, s'.value, up, e, side, id);
    }
  }

  lemma FreshSound(capacity: nat)
    ensures Sound(FRESH, capacity)
  {
  }

  /** What the frame loop holds is for a stream it knows. */
  ghost predicate PendingKnown(t: Tunnel, side: Side) {
    t.At(side).pending.Some? ==> t.At(side).pending.value.0 in t.At(side).streams
  }

  lemma StepPendingKnown(t: Tunnel, e: Event, t': Tunnel, side: Side)
    requires PendingKnown(t, side) && Next(t, e) == Some(t')
    ensures PendingKnown(t', side)
  {
    hide Act;
  }

  ghost predicate AllSound(t: Tunnel) {
    forall side, id {:trigger Slot(t.At(side), id)} :: SoundSlot(Slot(t.At(side), id), side.Capacity())
  }

  ghost predicate Good(t: Tunnel) {
    AllSound(t) && PendingKnown(t, Relay) && PendingKnown(t, Origin)
  }

  lemma StepGood(t: Tunnel, e: Event, t': Tunnel)
    requires Good(t) && Next(t, e) == Some(t')
    ensures Good(t')
  {
    hide Next, SoundSlot, Evolves, PendingKnown;
    StepPendingKnown(t, e, t', Relay);
    StepPendingKnown(t, e, t', Origin);
    forall side, id {:trigger Slot(t'.At(side), id)} ensures SoundSlot(Slot(t'.At(side), id), side.Capacity()) {
      StepEvolves(t, e, t', side, id);
      EvolvesSound(Slot(t.At(side), id), Slot(t'.At(side), id), t.up, e, side, id);
    }
  }

  lemma {:induction false} RunGood(es: seq<Event>, t: Tunnel)
    requires After(es) == Some(t)
    ensures Good(t)
  {
    hide Good, Next;
    if es == [] {
      assert Good(START) by { StartGood(); }
    } else {
      var s := After(es[..|es| - 1]).value;
      RunGood(es[..|es| - 1], s);
      StepGood(s, es[|es| - 1], t);
    }
  }

  lemma StartGood()
    ensures Good(START)
  {
  }

  /** No write to the socket has failed: all that was taken is written or being written. */
  ghost predicate Complete(s: Option<Stream>) {
    s.Some? ==> s.value.written + Unwritten(s.value) == Concat(s.value.taken)
  }

  predicate FailedWrite(e: Event, side: Side, id: word32) {
    e.Local? && e.side == side && e.id == id && e.action.WriteFails?
  }

  lemma ActComplete(s: Stream, a: Action, up: bool, s': Stream)
    requires Complete(Some(s)) && Act(s, a, up) == Some(s') && !a.WriteFails?
    ensures Complete(Some(s'))
  {
    hide Concat;
    if a.Take? {
      ConcatSnoc(s.taken, s.queue[0]);
    }
  }

  lemma EvolvesComplete(s: Option<Stream>, s': Option<Stream>, up: bool, e: Event, side: Side, id: word32)
    requires Complete(s) && Evolves(s, s', up, e, side, id) && !FailedWrite(e, side, id)
    ensures Complete(s')
  {
    hide Act, Concat;
    EmptyConcat();
    if s.Some? && s'.Some? && e.Local? && e.side == side && e.id == id && Act(s.value, e.action, up) == Some(s'.value) {
      ActComplete(s.value, e.action, up, s'.value);
    }
  }

  // ---------------------------------------------------------------- what is dropped

  /** Payloads of a stream that one event drops while the session stands. */
  function DropsNow(t: Tunnel, e: Event, id: word32, to: Side): nat {
    var end, w := t.At(to), t.Towards(to);
    if e == Discard(to) && end.pending.Some? && end.pending.value.0 == id then 1
    else if e == Receive(to) && w != [] && w[0].Data? && w[0].id == id
        && !(id in end.streams && end.streams[id].registered) then 1
    else 0
  }

  /** Payloads of a stream that the frame loop towards one end has dropped. */
  function Dropped(es: seq<Event>, id: word32, to: Side): nat {
    if es == [] then 0
    else
      var before, e := es[..|es| - 1], es[|es| - 1];
      Dropped(before, id, to) + match After(before) case Some(t) => DropsNow(t, e, id, to) case None => 0
  }

  function Count(v: View, to: Side): nat {
    |Carried(v, to)|
  }

  function Sends(v: View, to: Side): nat {
    |Sent(v.At(Other(to)))|
  }

  /** Nothing appears or vanishes but what is sent and what is dropped. */
  ghost predicate Accounts(v: View, v': View, to: Side, drops: nat) {
    Count(v', to) + drops + Sends(v, to) == Count(v, to) + Sends(v', to)
  }

  lemma SameAccounts(v: View, to: Side)
    ensures Accounts(v, v, to, 0)
  {
  }

  lemma ReplaceAccounts(v: View, side: Side, s: Stream, to: Side)
    requires v.At(side).Some?
    requires var o := v.At(side).value; |s.sent| == |o.sent| && |s.taken + s.queue| == |o.taken + o.queue|
    ensures Accounts(v, v.With(side, s), to, 0)
  {
    hide Payloads;
  }

  lemma TransmitAccounts(v: View, side: Side, m: Message, to: Side)
    requires !m.Data?
    ensures Accounts(v, v.Transmit(side, m), to, 0)
  {
    hide Payloads;
    PayloadsAppend(v.Towards(side), [m]);
    OneMessage(m);
  }

  lemma TransAccounts(v: View, w: View, u: View, to: Side, a: nat, b: nat)
    requires Accounts(v, w, to, a) && Accounts(w, u, to, b)
    ensures Accounts(v, u, to, a + b)
  {
    hide Count, Sends;
  }

  lemma NewAccounts(v: View, to: Side)
    requires ViewInv(v) && v.relay.None?
    ensures Accounts(v, v.With(Relay, FRESH), to, 0)
  {
    hide EndInv, Subsequence, Steady, Opens;
  }

  lemma ForwardAccounts(v: View, side: Side, id: word32, to: Side)
    requires ViewInv(v) && v.up && v.At(side).Some? && v.At(side).value.unsent.Some?
    ensures Accounts(v, Forward(v, side, id), to, 0)
  {
    hide ViewInv, Carried;
    SendFlows(v, side, id);
  }

  lemma PushedAccounts(v: View, side: Side, payload: Bytes, to: Side)
    requires v.At(side).Some? && v.Pending(side) == [payload]
    ensures Accounts(v, Pushed(v, side, payload), to, 0)
  {
    hide Carried;
    PushFlow(v, side, payload);
  }

  lemma DiscardAccounts(v: View, side: Side, to: Side)
    requires |v.Pending(side)| == 1
    ensures Accounts(v, v.WithPending(side, []), to, if side == to then 1 else 0)
  {
    hide Payloads;
  }

  lemma ReceivedAccounts(v: View, side: Side, to: Side)
    requires v.Pending(side) == [] && v.Towards(side) != [] && v.Towards(side)[0].Data?
    ensures var w := v.WithWire(side, v.Towards(side)[1..]);
      && Accounts(v, w, to, if side == to then 1 else 0)
      && Accounts(v, w.WithPending(side, [v.Towards(side)[0].payload]), to, 0)
  {
    hide Payloads;
    Head(v.Towards(side));
  }

  lemma ControlAccounts(v: View, side: Side, to: Side)
    requires v.Towards(side) != [] && !v.Towards(side)[0].Data?
    ensures Accounts(v, v.WithWire(side, v.Towards(side)[1..]), to, 0)
  {
    hide Payloads;
    Head(v.Towards(side));
  }

  lemma HeardOnce(v: View)
    requires ViewInv(v) && v.toOrigin != [] && v.toOrigin[0].Open?
    ensures v.origin.None?
  {
    hide EndInv, Subsequence, Steady, Intact, Carried;
  }

  lemma OpenedAccounts(v: View, to: Side)
    requires v.origin.None? && v.toOrigin != [] && v.toOrigin[0].Open?
    ensures Accounts(v, v.WithWire(Origin, v.toOrigin[1..]).With(Origin, FRESH), to, 0)
  {
    hide Carried;
    OpenFlow(v);
  }

  // ---------------------------------------------------------------- accounts of every step

  lemma AcceptAccounts(t: Tunnel, id: word32, to: Side)
    requires IdsUsed(t) && t.accepted < ID_SPACE && ViewInv(ViewOf(t, id))
    ensures Accounts(ViewOf(t, id), ViewOf(Next(t, Accept).value, id), to, 0)
  {
    hide ViewInv, Used, Accounts;
    NextIdFresh(t);
    ViewWith(t, Relay, t.NextId(), FRESH, id);
    SameAccounts(ViewOf(t, id), to);
    if id == t.NextId() {
      NewAccounts(ViewOf(t, id), to);
    }
  }

  lemma SendOpenAccounts(t: Tunnel, i: word32, t': Tunnel, id: word32, to: Side)
    requires Next(t, SendOpen(i)) == Some(t')
    ensures Accounts(ViewOf(t, id), ViewOf(t', id), to, 0)
  {
    hide Accounts;
    var s, v := t.relay.streams[i], ViewOf(t, id);
    var running, ended := s.(phase := Running), s.(phase := Ended, closed := true);
    ViewWith(t, Relay, i, running, id);
    ViewTransmit(t.WithStream(Relay, i, running), Origin, Open(i), id);
    ViewWith(t, Relay, i, ended, id);
    SameAccounts(v, to);
    if id == i {
      ReplaceAccounts(v, Relay, running, to);
      ReplaceAccounts(v, Relay, ended, to);
      TransmitAccounts(v.With(Relay, running), Origin, Open(i), to);
      TransAccounts(v, v.With(Relay, running), v.With(Relay, running).Transmit(Origin, Open(i)), to, 0, 0);
    }
  }

  lemma DialAccounts(t: Tunnel, i: word32, ok: bool, t': Tunnel, id: word32, to: Side)
    requires Next(t, Dial(i, ok)) == Some(t')
    ensures Accounts(ViewOf(t, id), ViewOf(t', id), to, 0)
  {
    hide Accounts;
    var s := t.origin.streams[i];
    var s' := if ok then s.(phase := Running) else s.(phase := Refused, registered := false, closed := true);
    ViewWith(t, Origin, i, s', id);
    SameAccounts(ViewOf(t, id), to);
    if id == i {
      ReplaceAccounts(ViewOf(t, id), Origin, s', to);
    }
  }

  lemma LocalAccounts(t: Tunnel, side: Side, i: word32, a: Action, t': Tunnel, id: word32, to: Side)
    requires Next(t, Local(side, i, a)) == Some(t') && ViewInv(ViewOf(t, id))
    ensures Accounts(ViewOf(t, id), ViewOf(t', id), to, 0)
  {
    hide Accounts, Act, ViewInv, EndInv;
    var s := t.At(side).streams[i];
    var s' := Act(s, a, t.up).value;
    ViewWith(t, side, i, s', id);
    SameAccounts(ViewOf(t, id), to);
    if id == i {
      EndOf(ViewOf(t, id), side);
      ActKeeps(s, a, t.up, s', side.Capacity());
      ReplaceAccounts(ViewOf(t, id), side, s', to);
    }
  }

  lemma SendAccounts(t: Tunnel, side: Side, i: word32, t': Tunnel, id: word32, to: Side)
    requires Next(t, Send(side, i)) == Some(t') && ViewInv(ViewOf(t, id)) && t.up
    ensures Accounts(ViewOf(t, id), ViewOf(t', id), to, 0)
  {
    hide Accounts, ViewInv;
    var s := t.At(side).streams[i];
    var s' := s.(unsent := None, sent := s.sent + [s.unsent.value]);
    ViewWith(t, side, i, s', id);
    ViewTransmit(t.WithStream(side, i, s'), Other(side), Data(i, s.unsent.value), id);
    SameAccounts(ViewOf(t, id), to);
    if id == i {
      ForwardAccounts(ViewOf(t, id), side, id, to);
    }
  }

  lemma PushAccounts(t: Tunnel, side: Side, t': Tunnel, id: word32, to: Side)
    requires Next(t, Push(side)) == Some(t')
    ensures Accounts(ViewOf(t, id), ViewOf(t', id), to, 0)
  {
    hide Accounts;
    var (i, payload) := t.At(side).pending.value;
    var v := ViewOf(t, id);
    SameAccounts(v, to);
    if id == i {
      PushedAccounts(v, side, payload, to);
      assert ViewOf(t', id) == Pushed(v, side, payload);
    } else {
      assert ViewOf(t', id) == v;
    }
  }

  lemma DiscardingAccounts(t: Tunnel, side: Side, t': Tunnel, id: word32, to: Side)
    requires Next(t, Discard(side)) == Some(t')
    ensures Accounts(ViewOf(t, id), ViewOf(t', id), to, DropsNow(t, Discard(side), id, to))
  {
    hide Accounts;
    var v := ViewOf(t, id);
    SameAccounts(v, to);
    if id == t.At(side).pending.value.0 {
      DiscardAccounts(v, side, to);
      assert ViewOf(t', id) == v.WithPending(side, []);
    } else {
      assert ViewOf(t', id) == v;
    }
  }

  lemma SendCloseAccounts(t: Tunnel, side: Side, i: word32, t': Tunnel, id: word32, to: Side)
    requires Next(t, SendClose(side, i)) == Some(t')
    ensures Accounts(ViewOf(t, id), ViewOf(t', id), to, 0)
  {
    hide Accounts;
    var m := if t.At(side).streams[i].phase == Refused then Reset(i) else Close(i);
    ViewTransmit(t, Other(side), m, id);
    SameAccounts(ViewOf(t, id), to);
    TransmitAccounts(ViewOf(t, id), Other(side), m, to);
  }

  lemma ReceiveAccounts(t: Tunnel, side: Side, t': Tunnel, id: word32, to: Side)
    requires Next(t, Receive(side)) == Some(t') && ViewInv(ViewOf(t, id))
    ensures Accounts(ViewOf(t, id), ViewOf(t', id), to, DropsNow(t, Receive(side), id, to))
  {
    hide ViewInv, Accounts;
    var m, v, w := t.Towards(side)[0], ViewOf(t, id), t.WithWire(side, t.Towards(side)[1..]);
    ViewTail(t, side, id);
    SameAccounts(v, to);
    if !m.For(id) {
      OtherStream(w, side, m, id);
    } else if m.Data? {
      ReceivedAccounts(v, side, to);
      var u := v.WithWire(side, v.Towards(side)[1..]);
      assert ViewOf(t', id) == if v.At(side).Some? && v.At(side).value.registered
                               then u.WithPending(side, [m.payload]) else u;
    } else if m.Open? && side == Origin {
      HeardOnce(v);
      OpenedAccounts(v, to);
      ViewWith(w, Origin, id, FRESH, id);
    } else {
      ControlAccounts(v, side, to);
      if !m.Open? {
        ShutAccounts(w, side, id, to);
        TransAccounts(v, ViewOf(w, id), ViewOf(Shut(w, side, id), id), to, 0, 0);
      }
    }
  }

  lemma ShutAccounts(t: Tunnel, side: Side, id: word32, to: Side)
    ensures Accounts(ViewOf(t, id), ViewOf(Shut(t, side, id), id), to, 0)
  {
    hide Accounts;
    SameAccounts(ViewOf(t, id), to);
    if id in t.At(side).streams {
      var s := t.At(side).streams[id];
      ReplaceAccounts(ViewOf(t, id), side, Closed(s), to);
      ViewWith(t, side, id, Closed(s), id);
    }
  }

  /** While the session stands, every step accounts for every payload of every stream. */
  lemma StepAccounts(t: Tunnel, e: Event, t': Tunnel, id: word32, to: Side)
    requires IdsUsed(t) && Next(t, e) == Some(t') && t'.accepted <= ID_SPACE && id !in t'.elsewhere && t'.up
    requires ViewInv(ViewOf(t, id))
    ensures Accounts(ViewOf(t, id), ViewOf(t', id), to, DropsNow(t, e, id, to))
  {
    hide ViewInv, Act, Dispatch, Used, Accounts;
    SameAccounts(ViewOf(t, id), to);
    match e
    case Accept => AcceptAccounts(t, id, to);
    case AcceptElsewhere =>
    case Stale(m) => ViewTransmit(t, Relay, m, id);
    case SendOpen(i) => SendOpenAccounts(t, i, t', id, to);
    case Dial(i, ok) => DialAccounts(t, i, ok, t', id, to);
    case Local(side, i, a) => LocalAccounts(t, side, i, a, t', id, to);
    case Send(side, i) => SendAccounts(t, side, i, t', id, to);
    case Receive(side) => ReceiveAccounts(t, side, t', id, to);
    case Push(side) => PushAccounts(t, side, t', id, to);
    case Discard(side) => DiscardingAccounts(t, side, t', id, to);
    case SendClose(side, i) => SendCloseAccounts(t, side, i, t', id, to);
    case Heartbeat => ViewTransmit(t, Relay, Ping, id);
    case Break(i, j) =>
    case CloseAll(side) =>
  }

  lemma UpBefore(t: Tunnel, e: Event, t': Tunnel)
    requires Next(t, e) == Some(t') && t'.up
    ensures t.up && !e.Break? && !e.CloseAll?
  {
    hide Act;
  }

  lemma ElsewhereGrows(t: Tunnel, e: Event, t': Tunnel)
    requires Next(t, e) == Some(t')
    ensures t.elsewhere <= t'.elsewhere
  {
    hide Act;
  }

  /** Over every run: sent is carried or dropped, for as long as the session stands. */
  lemma {:induction false} RunAccounts(es: seq<Event>, t: Tunnel, id: word32, to: Side)
    requires After(es) == Some(t) && t.accepted <= ID_SPACE && id !in t.elsewhere && t.up
    ensures Count(ViewOf(t, id), to) + Dropped(es, id, to) == Sends(ViewOf(t, id), to)
  {
    hide Inv, Next, Count, Sends, DropsNow, ViewOf;
    if es == [] {
      StartAccounts(id, to);
    } else {
      var last := |es| - 1;
      var s, e := After(es[..last]).value, es[last];
      AcceptedGrows(s, e, t);
      UpBefore(s, e, t);
      ElsewhereGrows(s, e, t);
      RunAccounts(es[..last], s, id, to);
      Invariant(es[..last], s);
      InvAt(s, id);
      IdsOf(s);
      StepAccounts(s, e, t, id, to);
    }
  }

  lemma IdsOf(t: Tunnel)
    requires Inv(t)
    ensures IdsUsed(t)
  {
    hide IdsUsed;
  }

  lemma StartAccounts(id: word32, to: Side)
    ensures Count(ViewOf(START, id), to) == 0 && Sends(ViewOf(START, id), to) == 0
  {
  }

  // ---------------------------------------------------------------- comparing with what was sent

  lemma {:induction false} SubsequenceLength(xs: seq<Bytes>, ys: seq<Bytes>)
    requires Subsequence(xs, ys)
    ensures |xs| <= |ys| && (|xs| == |ys| ==> xs == ys)
  {
    if xs != [] {
      if Subsequence(xs, ys[1..]) {
        SubsequenceLength(xs, ys[1..]);
      } else {
        SubsequenceLength(xs[1..], ys[1..]);
        assert xs == [xs[0]] + xs[1..] && ys == [ys[0]] + ys[1..];
      }
    }
  }

  /** Leaving out a payload that is not empty shows in the length. */
  lemma {:induction false} ConcatShorter(xs: seq<Bytes>, ys: seq<Bytes>)
    requires Subsequence(xs, ys) && NonEmpty(ys)
    ensures |Concat(xs)| <= |Concat(ys)| && (|xs| < |ys| ==> |Concat(xs)| < |Concat(ys)|)
  {
    if ys != [] {
      assert NonEmpty(ys[1..]);
      assert ys[0] != [];
      if xs == [] || Subsequence(xs, ys[1..]) {
        ConcatShorter(xs, ys[1..]);
      } else {
        ConcatShorter(xs[1..], ys[1..]);
      }
    }
  }

  /** All of what was sent has been taken exactly when the bytes say so. */
  lemma TakenAll(taken: seq<Bytes>, sent: seq<Bytes>)
    requires Subsequence(taken, sent) && NonEmpty(sent)
    ensures Concat(taken) == Concat(sent) <==> |taken| == |sent|
  {
    hide Concat, Subsequence;
    SubsequenceLength(taken, sent);
    ConcatShorter(taken, sent);
  }

  // ---------------------------------------------------------------- the state of one stream

  ghost predicate NoFailedWrite(es: seq<Event>, side: Side, id: word32) {
    forall e <- es :: !FailedWrite(e, side, id)
  }

  lemma {:induction false} RunComplete(es: seq<Event>, t: Tunnel, side: Side, id: word32)
    requires After(es) == Some(t) && NoFailedWrite(es, side, id)
    ensures Complete(Slot(t.At(side), id))
  {
    hide Next, Complete, FailedWrite, Evolves;
    if es == [] {
      NothingWritten(side, id);
    } else {
      var last := |es| - 1;
      var s := After(es[..last]).value;
      assert es[last] in es && forall e <- es[..last] :: e in es;
      RunComplete(es[..last], s, side, id);
      StepEvolves(s, es[last], t, side, id);
      EvolvesComplete(Slot(s.At(side), id), Slot(t.At(side), id), s.up, es[last], side, id);
    }
  }

  lemma NothingWritten(side: Side, id: word32)
    ensures Complete(Slot(START.At(side), id))
  {
  }

  lemma SoundAt(t: Tunnel, side: Side, id: word32)
    requires Good(t)
    ensures SoundSlot(Slot(t.At(side), id), side.Capacity())
  {
    hide SoundSlot;
  }

  lemma SentNonEmpty(t: Tunnel, side: Side, id: word32)
    requires Good(t)
    ensures NonEmpty(Sent(Slot(t.At(side), id)))
  {
    hide EndInv, Good, NonEmpty;
    SoundAt(t, side, id);
    assert NonEmpty([]) by { NoneEmpty(); }
  }

  lemma NoneEmpty()
    ensures NonEmpty([])
  {
  }

  /** What a stream still holds for one end: queued, pending, and on the wire. */
  function Waiting(v: View, to: Side): seq<Bytes> {
    (if v.At(to).Some? then v.At(to).value.queue else []) + v.Pending(to) + Payloads(v.Towards(to))
  }

  lemma CarriedWaiting(v: View, to: Side)
    requires v.At(to).Some?
    ensures Carried(v, to) == v.At(to).value.taken + Waiting(v, to)
  {
    hide Payloads;
  }

  /**
   Over every run of an id that has not been reused, with the session up and no failed write, a writer that
   is not writing has written exactly what the other end sent if and only if nothing of the stream is
   queued, pending or on the wire, and nothing of it has been dropped.
   */
  lemma DeliveredExactly(es: seq<Event>, t: Tunnel, id: word32, to: Side)
    requires After(es) == Some(t) && t.accepted <= ID_SPACE && id !in t.elsewhere && t.up
    requires id in t.At(to).streams && !t.At(to).streams[id].writer.Writing? && NoFailedWrite(es, to, id)
    ensures t.At(to).streams[id].written == Concat(Sent(Slot(t.At(Other(to)), id)))
       <==> Waiting(ViewOf(t, id), to) == [] && Dropped(es, id, to) == 0
  {
    hide After, Inv, Good, NoFailedWrite, Concat, Subsequence, NonEmpty, Carried, Waiting, Only;
    RunComplete(es, t, to, id);
    RunAccounts(es, t, id, to);
    Isolation(es, t, id, to);
    RunGood(es, t);
    SentNonEmpty(t, Other(to), id);
    TakenAll(t.At(to).streams[id].taken, Sent(Slot(t.At(Other(to)), id)));
    CarriedWaiting(ViewOf(t, id), to);
  }

  // ---------------------------------------------------------------- once a writer has stopped

  /** A stream in its slot is kept, or changed. */
  ghost predicate Kept(s: Option<Stream>, s': Option<Stream>, up: bool, e: Event, side: Side, id: word32) {
    s.Some? && s'.Some? && (s' == s || Changes(s.value, s'.value, up, e, side, id))
  }

  lemma DispatchKept(t: Tunnel, at: Side, m: Message, e: Event, side: Side, id: word32)
    requires id in t.At(side).streams && e == Receive(at) && !(m.Open? && m.id == id && at == Origin && side == Origin)
    ensures Kept(Slot(t.At(side), id), Slot(Dispatch(t, at, m).At(side), id), t.up, e, side, id)
  {
    hide Act;
    match m
    case Ping => SlotTransmit(t, Origin, Pong, side);
    case Pong =>
    case Open(i) => SlotWith(t, Origin, i, FRESH, side, id);
    case Data(i, payload) =>
    case Close(i) => ShutEvolves(t, at, i, e, side, id);
    case Reset(i) => ShutEvolves(t, at, i, e, side, id);
  }

  /** The origin hears of a stream once. */
  lemma OneOpen(t: Tunnel, id: word32)
    requires ViewInv(ViewOf(t, id)) && id in t.origin.streams && t.toOrigin != []
    ensures !(t.toOrigin[0].Open? && t.toOrigin[0].id == id)
  {
    hide EndInv, Subsequence, Steady, Intact, Carried;
    ViewTail(t, Origin, id);
  }

  /** Ids are not given again and the origin hears one Open: a stream stays in its slot. */
  lemma SlotKept(t: Tunnel, e: Event, t': Tunnel, side: Side, id: word32)
    requires IdsUsed(t) && ViewInv(ViewOf(t, id)) && Next(t, e) == Some(t') && t'.accepted <= ID_SPACE
    requires id in t.At(side).streams
    ensures Kept(Slot(t.At(side), id), Slot(t'.At(side), id), t.up, e, side, id)
  {
    hide ViewInv, Act, Dispatch, Changes, Used;
    StepEvolves(t, e, t', side, id);
    if e.Accept? {
      NextIdFresh(t);
    } else if e.Receive? {
      if e.side == Origin {
        if side == Origin {
          OneOpen(t, id);
        }
      }
      DispatchKept(t.WithWire(e.side, t.Towards(e.side)[1..]), e.side, t.Towards(e.side)[0], e, side, id);
    } else {
      hide Next;
    }
  }

  // ---------------------------------------------------------------- the rest of a run

  lemma LastOf(es: seq<Event>, more: seq<Event>)
    requires more != []
    ensures (es + more)[..|es + more| - 1] == es + more[..|more| - 1]
        && (es + more)[|es + more| - 1] == more[|more| - 1]
  {
  }

  /** The state before the last event of a run's continuation. */
  lemma BeforeLast(es: seq<Event>, more: seq<Event>, t': Tunnel) returns (s: Tunnel)
    requires more != [] && After(es + more) == Some(t')
    ensures After(es + more[..|more| - 1]) == Some(s) && Next(s, more[|more| - 1]) == Some(t')
    ensures s.accepted <= t'.accepted && s.elsewhere <= t'.elsewhere && (t'.up ==> s.up)
  {
    hide Next;
    LastOf(es, more);
    s := After(es + more[..|more| - 1]).value;
    AcceptedGrows(s, more[|more| - 1], t');
    ElsewhereGrows(s, more[|more| - 1], t');
    if t'.up {
      UpBefore(s, more[|more| - 1], t');
    }
  }

  /** One more event, with what the invariant says of it for one stream. */
  lemma StepFacts(es: seq<Event>, s: Tunnel, e: Event, t': Tunnel, id: word32)
    requires After(es) == Some(s) && Next(s, e) == Some(t') && t'.accepted <= ID_SPACE && id !in t'.elsewhere
    ensures IdsUsed(s) && ViewInv(ViewOf(s, id))
  {
    hide After, Next, ViewInv, IdsUsed, Inv;
    AcceptedGrows(s, e, t');
    ElsewhereGrows(s, e, t');
    Invariant(es, s);
    InvAt(s, id);
    IdsOf(s);
  }

  lemma ActTakes(s: Stream, a: Action, up: bool, s': Stream)
    requires Act(s, a, up) == Some(s')
    ensures s.taken <= s'.taken && s'.sent == s.sent
    ensures s.writer == Stopped ==> s'.writer == Stopped && s'.taken == s.taken && s'.written == s.written
    ensures s.phase == Ended && s.unsent == None ==> s'.phase == Ended && s'.unsent == None
  {
  }

  lemma ChangesForward(s: Stream, s': Stream, up: bool, e: Event, side: Side, id: word32)
    requires Changes(s, s', up, e, side, id)
    ensures s.taken <= s'.taken && s.sent <= s'.sent
    ensures s.writer == Stopped ==> s'.writer == Stopped && s'.taken == s.taken && s'.written == s.written
    ensures s.phase == Ended && s.unsent == None ==> s'.phase == Ended && s'.unsent == None && s'.sent == s.sent
  {
    hide Act;
    if e.Local? && Act(s, e.action, up) == Some(s') {
      ActTakes(s, e.action, up, s');
    }
  }

  /** Streams only go forward; a stopped writer and an ended reader stay as they are. */
  lemma {:induction false} GoesForward(es: seq<Event>, t: Tunnel, more: seq<Event>, t': Tunnel, side: Side, id: word32)
    requires After(es) == Some(t) && After(es + more) == Some(t') && t'.accepted <= ID_SPACE && id !in t'.elsewhere
    requires id in t.At(side).streams
    ensures id in t'.At(side).streams
    ensures var s, s' := t.At(side).streams[id], t'.At(side).streams[id];
      && s.taken <= s'.taken && s.sent <= s'.sent
      && (s.writer == Stopped ==> s'.writer == Stopped && s'.taken == s.taken && s'.written == s.written)
      && (s.phase == Ended && s.unsent == None ==> s'.phase == Ended && s'.unsent == None && s'.sent == s.sent)
    decreases |more|
  {
    hide After, Next, ViewInv, IdsUsed, Changes;
    if more == [] {
      assert es + more == es;
    } else {
      var last := |more| - 1;
      var s := BeforeLast(es, more, t');
      GoesForward(es, t, more[..last], s, side, id);
      StepFacts(es + more[..last], s, more[last], t', id);
      SlotKept(s, more[last], t', side, id);
      if s.At(side).streams[id] != t'.At(side).streams[id] {
        ChangesForward(s.At(side).streams[id], t'.At(side).streams[id], s.up, more[last], side, id);
      }
    }
  }

  lemma {:induction false} StaysComplete(es: seq<Event>, t: Tunnel, more: seq<Event>, t': Tunnel, side: Side,
                                         id: word32)
    requires After(es) == Some(t) && After(es + more) == Some(t') && NoFailedWrite(more, side, id)
    requires Complete(Slot(t.At(side), id))
    ensures Complete(Slot(t'.At(side), id))
    decreases |more|
  {
    hide After, Next, Complete, FailedWrite, Evolves;
    if more == [] {
      assert es + more == es;
    } else {
      var last := |more| - 1;
      var s := BeforeLast(es, more, t');
      assert more[last] in more && forall e <- more[..last] :: e in more;
      StaysComplete(es, t, more[..last], s, side, id);
      StepEvolves(s, more[last], t', side, id);
      EvolvesComplete(Slot(s.At(side), id), Slot(t'.At(side), id), s.up, more[last], side, id);
    }
  }

  /** What one end has sent on a stream only grows. */
  lemma SentGrows(es: seq<Event>, t: Tunnel, more: seq<Event>, t': Tunnel, side: Side, id: word32)
    requires After(es) == Some(t) && After(es + more) == Some(t') && t'.accepted <= ID_SPACE && id !in t'.elsewhere
    ensures Sent(Slot(t.At(side), id)) <= Sent(Slot(t'.At(side), id))
  {
    hide After;
    if id in t.At(side).streams {
      GoesForward(es, t, more, t', side, id);
    }
  }

  /**
   However the run goes on, what a stopped writer has written is what the other end sent if and only if
   nothing of the stream was queued, pending, on the wire or dropped when it had stopped, and nothing
   has been sent since.
   */
  lemma DeliveredAtStop(es: seq<Event>, t: Tunnel, more: seq<Event>, t': Tunnel, id: word32, to: Side)
    requires After(es) == Some(t) && After(es + more) == Some(t') && t'.accepted <= ID_SPACE && id !in t'.elsewhere
        && t'.up
    requires id in t.At(to).streams && t.At(to).streams[id].writer == Stopped && NoFailedWrite(es, to, id)
    ensures id in t'.At(to).streams
    ensures t'.At(to).streams[id].written == Concat(Sent(Slot(t'.At(Other(to)), id)))
       <==> && Waiting(ViewOf(t, id), to) == [] && Dropped(es, id, to) == 0
            && Sent(Slot(t'.At(Other(to)), id)) == Sent(Slot(t.At(Other(to)), id))
  {
    hide After, NoFailedWrite, Concat, Waiting, Subsequence, NonEmpty, Good;
    MoreFacts(es, t, more, t');
    GoesForward(es, t, more, t', to, id);
    SentGrows(es, t, more, t', Other(to), id);
    DeliveredExactly(es, t, id, to);
    RunComplete(es, t, to, id);
    Isolation(es, t, id, to);
    RunGood(es + more, t');
    SentNonEmpty(t', Other(to), id);
    var taken, sent, sent' := t.At(to).streams[id].taken, Sent(Slot(t.At(Other(to)), id)),
        Sent(Slot(t'.At(Other(to)), id));
    StillSubsequence(taken, sent, sent');
    TakenAll(taken, sent');
    RunGood(es, t);
    SentNonEmpty(t, Other(to), id);
    TakenAll(taken, sent);
    SubsequenceLength(taken, sent);
  }

  lemma {:induction false} StillSubsequence(xs: seq<Bytes>, ys: seq<Bytes>, zs: seq<Bytes>)
    requires Subsequence(xs, ys) && ys <= zs
    ensures Subsequence(xs, zs)
  {
    if xs != [] {
      assert ys[0] == zs[0] && ys[1..] <= zs[1..];
      if Subsequence(xs, ys[1..]) {
        StillSubsequence(xs, ys[1..], zs[1..]);
      } else {
        StillSubsequence(xs[1..], ys[1..], zs[1..]);
      }
    }
  }

  lemma {:induction false} MoreFacts(es: seq<Event>, t: Tunnel, more: seq<Event>, t': Tunnel)
    requires After(es) == Some(t) && After(es + more) == Some(t')
    ensures t.accepted <= t'.accepted && t.elsewhere <= t'.elsewhere && (t'.up ==> t.up)
    decreases |more|
  {
    hide After, Next;
    if more == [] {
      assert es + more == es;
    } else {
      var s := BeforeLast(es, more, t');
      MoreFacts(es, t, more[..|more| - 1], s);
    }
  }

  // ---------------------------------------------------------------- who closed first

  /** This end is done with the stream itself, rather than told by the other end. */
  predicate Over(s: Stream) {
    s.phase in {Ended, Refused}
  }

  predicate ClosedAt(v: View, side: Side) {
    v.At(side).Some? && v.At(side).value.closed
  }

  ghost predicate Closes(w: seq<Message>) {
    exists m <- w :: m.Close? || m.Reset?
  }

  /** A stream is closed at one end, or about to be told so, only if it is over there or closed at the other. */
  ghost predicate Answered(v: View, side: Side) {
    && (ClosedAt(v, side) && !Over(v.At(side).value) ==> ClosedAt(v, Other(side)))
    && (Closes(v.Towards(side)) ==> ClosedAt(v, Other(side)))
  }

  lemma ActCloses(s: Stream, a: Action, up: bool, s': Stream)
    requires Act(s, a, up) == Some(s')
    ensures s.closed ==> s'.closed
    ensures Over(s) ==> Over(s')
    ensures s'.closed ==> s.closed || Over(s')
  {
  }

  lemma ChangesCloses(s: Stream, s': Stream, up: bool, e: Event, side: Side, id: word32)
    requires Changes(s, s', up, e, side, id)
    ensures s.closed ==> s'.closed
    ensures Over(s) ==> Over(s')
    ensures s'.closed ==> s.closed || Over(s') || e == Receive(side) || e == CloseAll(side)
  {
    hide Act;
    if e.Local? && Act(s, e.action, up) == Some(s') {
      ActCloses(s, e.action, up, s');
    }
  }

  lemma KeptCloses(s: Option<Stream>, s': Option<Stream>, up: bool, e: Event, side: Side, id: word32)
    requires Kept(s, s', up, e, side, id)
    ensures s.value.closed ==> s'.value.closed
    ensures Over(s.value) ==> Over(s'.value)
    ensures s'.value.closed ==> s.value.closed || Over(s'.value) || e == Receive(side) || e == CloseAll(side)
  {
    hide Changes, Over;
    if s' != s {
      ChangesCloses(s.value, s'.value, up, e, side, id);
    }
  }

  /** Only a close taken off the wire closes a stream that is not over. */
  lemma ReceiveCloses(t: Tunnel, side: Side, t': Tunnel, id: word32)
    requires Next(t, Receive(side)) == Some(t') && ClosedAt(ViewOf(t', id), side) && !ClosedAt(ViewOf(t, id), side)
    ensures Closes(ViewOf(t, id).Towards(side))
  {
    hide Act;
    var m := t.Towards(side)[0];
    assert (m.Close? || m.Reset?)
        && m.id == id by { DispatchCloses(t.WithWire(side, t.Towards(side)[1..]), side, m, id); }
    ViewTail(t, side, id);
    assert m in ViewOf(t, id).Towards(side);
  }

  lemma DispatchCloses(t: Tunnel, side: Side, m: Message, id: word32)
    requires ClosedAt(ViewOf(Dispatch(t, side, m), id), side) && !ClosedAt(ViewOf(t, id), side)
    ensures (m.Close? || m.Reset?) && m.id == id
  {
    hide Only;
  }

  lemma AppendCloses(w: seq<Message>, m: Message)
    ensures Closes(w + [m]) <==> Closes(w) || m.Close? || m.Reset?
  {
    if m.Close? || m.Reset? {
      assert m in w + [m];
    }
    if Closes(w) {
      var n :| n in w && (n.Close? || n.Reset?);
      assert n in w + [m];
    }
  }

  lemma TransmitCloses(t: Tunnel, at: Side, m: Message, id: word32, side: Side)
    requires m.For(id) ==> !m.Close? && !m.Reset?
    ensures Closes(ViewOf(t.Transmit(at, m), id).Towards(side)) <==> Closes(ViewOf(t, id).Towards(side))
  {
    hide Closes;
    ViewTransmit(t, at, m, id);
    AppendCloses(ViewOf(t, id).Towards(at), m);
  }

  lemma TailCloses(t: Tunnel, at: Side, id: word32, side: Side)
    requires t.Towards(at) != []
    ensures Closes(ViewOf(t.WithWire(at, t.Towards(at)[1..]), id).Towards(side)) ==> Closes(ViewOf(t, id).Towards(side))
  {
    ViewTail(t, at, id);
  }

  lemma SendCloseCloses(t: Tunnel, at: Side, i: word32, t': Tunnel, id: word32, side: Side)
    requires Next(t, SendClose(at, i)) == Some(t')
    ensures Closes(ViewOf(t', id).Towards(side))
        ==> Closes(ViewOf(t, id).Towards(side)) || ClosedAt(ViewOf(t', id), Other(side))
  {
    hide Closes, Only;
    var m := if t.At(at).streams[i].phase == Refused then Reset(i) else Close(i);
    if i != id || side == at {
      if side != at {
        TransmitCloses(t, Other(at), m, id, side);
      }
    }
  }

  lemma DispatchWires(t: Tunnel, at: Side, m: Message, id: word32, side: Side)
    ensures Closes(ViewOf(Dispatch(t, at, m), id).Towards(side)) <==> Closes(ViewOf(t, id).Towards(side))
  {
    hide Closes, Only;
    if m.Ping? && at == Relay {
      TransmitCloses(t, Origin, Pong, id, side);
    }
  }

  /** A close comes on the wire only from an end that has closed. */
  lemma WireCloses(t: Tunnel, e: Event, t': Tunnel, id: word32, side: Side)
    requires Next(t, e) == Some(t') && t'.up && id !in t.elsewhere
    ensures Closes(ViewOf(t', id).Towards(side))
        ==> Closes(ViewOf(t, id).Towards(side)) || ClosedAt(ViewOf(t', id), Other(side))
  {
    hide Closes, Only, Act, Dispatch;
    match e
    case Stale(m) => TransmitCloses(t, Relay, m, id, side);
    case SendOpen(i) => TransmitCloses(t.WithStream(Relay, i, t.relay.streams[i].(phase := Running)), Origin, Open(i),
        id, side);
    case Send(at, i) =>
      var s := t.At(at).streams[i];
      var s' := s.(unsent := None, sent := s.sent + [s.unsent.value]);
      TransmitCloses(t.WithStream(at, i, s'), Other(at), Data(i, s.unsent.value), id, side);
    case Receive(at) =>
      TailCloses(t, at, id, side);
      DispatchWires(t.WithWire(at, t.Towards(at)[1..]), at, t.Towards(at)[0], id, side);
    case SendClose(at, i) => SendCloseCloses(t, at, i, t', id, side);
    case Heartbeat => TransmitCloses(t, Relay, Ping, id, side);
    case _ =>
  }

  /** Closed stays closed, and a stream that becomes closed is over there or closed at the other end. */
  lemma StepAnswered(t: Tunnel, e: Event, t': Tunnel, id: word32, side: Side)
    requires IdsUsed(t) && ViewInv(ViewOf(t, id)) && Next(t, e) == Some(t') && t'.accepted <= ID_SPACE
        && id !in t.elsewhere && t'.up
    requires Answered(ViewOf(t, id), side)
    ensures Answered(ViewOf(t', id), side)
  {
    hide Next, Closes, Kept, Only, ViewInv, IdsUsed, Over;
    WireCloses(t, e, t', id, side);
    StaysClosed(t, e, t', id, Other(side));
    UpBefore(t, e, t');
    if ClosedAt(ViewOf(t', id), side) && !Over(t'.At(side).streams[id]) {
      if id in t.At(side).streams {
        SlotKept(t, e, t', side, id);
        KeptCloses(Slot(t.At(side), id), Slot(t'.At(side), id), t.up, e, side, id);
        if e == Receive(side) && !ClosedAt(ViewOf(t, id), side) {
          ReceiveCloses(t, side, t', id);
        }
      } else {
        NewOpen(t, e, t', side, id);
      }
    }
  }

  lemma NewOpen(t: Tunnel, e: Event, t': Tunnel, side: Side, id: word32)
    requires Next(t, e) == Some(t') && id !in t.At(side).streams && id in t'.At(side).streams
    ensures !t'.At(side).streams[id].closed
  {
    hide Next, Changes;
    StepEvolves(t, e, t', side, id);
  }

  lemma StaysClosed(t: Tunnel, e: Event, t': Tunnel, id: word32, side: Side)
    requires IdsUsed(t) && ViewInv(ViewOf(t, id)) && Next(t, e) == Some(t') && t'.accepted <= ID_SPACE
    ensures ClosedAt(ViewOf(t, id), side) ==> ClosedAt(ViewOf(t', id), side)
  {
    hide Next, Kept, Only, ViewInv, IdsUsed;
    if ClosedAt(ViewOf(t, id), side) {
      SlotKept(t, e, t', side, id);
      KeptCloses(Slot(t.At(side), id), Slot(t'.At(side), id), t.up, e, side, id);
      SlotSome(t, e, t', side, id);
    }
  }

  lemma SlotSome(t: Tunnel, e: Event, t': Tunnel, side: Side, id: word32)
    requires Kept(Slot(t.At(side), id), Slot(t'.At(side), id), t.up, e, side, id)
    ensures id in t.At(side).streams && id in t'.At(side).streams
  {
    hide Changes;
  }

  lemma {:induction false} RunAnswered(es: seq<Event>, t: Tunnel, id: word32, side: Side)
    requires After(es) == Some(t) && t.accepted <= ID_SPACE && id !in t.elsewhere && t.up
    ensures Answered(ViewOf(t, id), side)
  {
    hide Inv, Next, Answered, IdsUsed, ViewInv, ViewOf;
    if es == [] {
      StartAnswered(id, side);
    } else {
      var last := |es| - 1;
      var s, e := After(es[..last]).value, es[last];
      UpBefore(s, e, t);
      AcceptedGrows(s, e, t);
      ElsewhereGrows(s, e, t);
      RunAnswered(es[..last], s, id, side);
      StepFacts(es[..last], s, e, t, id);
      StepAnswered(s, e, t, id, side);
    }
  }

  lemma StartAnswered(id: word32, side: Side)
    ensures Answered(ViewOf(START, id), side)
  {
  }

  /** While one end reads on and the other is not closed, no end is. */
  lemma NeitherClosed(es: seq<Event>, t: Tunnel, id: word32, to: Side)
    requires After(es) == Some(t) && t.accepted <= ID_SPACE && id !in t.elsewhere && t.up
    requires id in t.At(Other(to)).streams && t.At(Other(to)).streams[id].phase == Running
        && !ClosedAt(ViewOf(t, id), to)
    ensures ViewInv(ViewOf(t, id)) && Intact(ViewOf(t, id))
  {
    hide After, Inv, Closes, EndInv, Steady, Subsequence, Opens, Carried, Only;
    RunAnswered(es, t, id, Other(to));
    Invariant(es, t);
    InvAt(t, id);
  }

  // ---------------------------------------------------------------- hanging up

  /** A broken connection, a failed write or a refused dial. */
  predicate Faulty(e: Event) {
    e.Break? || e.CloseAll? || (e.Local? && e.action.WriteFails?) || (e.Dial? && !e.ok)
  }

  ghost predicate FaultFree(es: seq<Event>) {
    forall e <- es :: !Faulty(e)
  }

  /** No fault, and no new stream. */
  predicate Quiet(e: Event) {
    !Faulty(e) && !e.Accept? && !e.AcceptElsewhere?
  }

  ghost predicate AllQuiet(es: seq<Event>) {
    forall e <- es :: Quiet(e)
  }

  predicate WriterStopped(t: Tunnel, id: word32, to: Side) {
    id in t.At(to).streams && t.At(to).streams[id].writer == Stopped
  }

  predicate AllWritten(t: Tunnel, id: word32, to: Side)
    requires id in t.At(to).streams
  {
    t.At(to).streams[id].written == Concat(Sent(Slot(t.At(Other(to)), id)))
  }

  /**
   In every fault-free continuation, before ids come again, in which the writer stops, all that was sent is
   written.
   */
  ghost predicate DeliversAlways(es: seq<Event>, id: word32, to: Side) {
    forall more: seq<Event>, t' |
      FaultFree(more) && After(es + more) == Some(t') && t'.accepted <= ID_SPACE && WriterStopped(t', id, to) ::
      AllWritten(t', id, to)
  }

  /** Fault-free, a run keeps its session, and its ids stay its own. */
  lemma {:induction false} FaultFreeFacts(es: seq<Event>, t: Tunnel, more: seq<Event>, t': Tunnel)
    requires After(es) == Some(t) && After(es + more) == Some(t') && FaultFree(more)
    ensures t'.up == t.up && t.relay.streams.Keys <= t'.relay.streams.Keys
    decreases |more|
  {
    hide After, Next;
    if more == [] {
      assert es + more == es;
    } else {
      var last := |more| - 1;
      var s := BeforeLast(es, more, t');
      assert more[last] in more && forall e <- more[..last] :: e in more;
      FaultFreeFacts(es, t, more[..last], s);
      StaysUp(s, more[last], t');
      StaysKnown(s, more[last], t');
    }
  }

  lemma StaysKnown(t: Tunnel, e: Event, t': Tunnel)
    requires Next(t, e) == Some(t')
    ensures t.relay.streams.Keys <= t'.relay.streams.Keys
  {
    hide Act;
    if !e.Accept? && !e.AcceptElsewhere? {
      hide Next;
      SameIds(t, e, t');
    }
  }

  /** A stream this session knows is no other session's, as long as ids do not come again. */
  lemma StaysHere(es: seq<Event>, t: Tunnel, more: seq<Event>, t': Tunnel, side: Side, id: word32)
    requires After(es) == Some(t) && After(es + more) == Some(t') && FaultFree(more) && t'.accepted <= ID_SPACE
    requires id !in t.elsewhere && id in t.At(side).streams
    ensures id !in t'.elsewhere
  {
    hide After, Inv, FaultFree, EndInv, Steady, Subsequence, Opens, Carried, Only, Used;
    MoreFacts(es, t, more, t');
    FaultFreeFacts(es, t, more, t');
    Invariant(es, t);
    InvAt(t, id);
    Invariant(es + more, t');
    IdsOf(t');
  }

  /** Quiet, it also keeps its count of ids. */
  lemma {:induction false} QuietFacts(es: seq<Event>, t: Tunnel, more: seq<Event>, t': Tunnel)
    requires After(es) == Some(t) && After(es + more) == Some(t') && AllQuiet(more)
    ensures t'.accepted == t.accepted && FaultFree(more)
    decreases |more|
  {
    hide After, Next, Faulty;
    if more == [] {
      assert es + more == es;
    } else {
      var last := |more| - 1;
      var s := BeforeLast(es, more, t');
      assert more[last] in more && forall e <- more[..last] :: e in more;
      QuietFacts(es, t, more[..last], s);
      SameIds(s, more[last], t');
    }
  }

  lemma StaysUp(t: Tunnel, e: Event, t': Tunnel)
    requires Next(t, e) == Some(t') && !e.Break?
    ensures t'.up == t.up
  {
    hide Act;
  }

  lemma ReadEndsView(es: seq<Event>, t: Tunnel, id: word32, side: Side) returns (t': Tunnel)
    requires After(es) == Some(t) && id in t.At(side).streams
    requires t.At(side).streams[id].phase == Running && t.At(side).streams[id].unsent == None
    ensures After(es + [Local(side, id, ReadEnds)]) == Some(t')
    ensures t' == t.WithStream(side, id, t.At(side).streams[id].(phase := Ended, closed := true))
  {
    hide After;
    Extend(es, Local(side, id, ReadEnds), t);
    t' := t.WithStream(side, id, t.At(side).streams[id].(phase := Ended, closed := true));
  }

  /** With nothing waiting and nothing lost when the other end hangs up, all is delivered, however it goes on. */
  lemma NothingWaiting(es: seq<Event>, t: Tunnel, id: word32, to: Side, es1: seq<Event>, more: seq<Event>, t': Tunnel)
    requires After(es) == Some(t) && t.accepted <= ID_SPACE && id !in t.elsewhere && t.up && NoFailedWrite(es, to, id)
    requires id in t.At(Other(to)).streams && t.At(Other(to)).streams[id].phase == Running
    requires t.At(Other(to)).streams[id].unsent == None && Waiting(ViewOf(t, id), to) == [] && Dropped(es, id, to) == 0
    requires es1 == es + [Local(Other(to), id, ReadEnds)]
    requires FaultFree(more) && After(es1 + more) == Some(t') && t'.accepted <= ID_SPACE && WriterStopped(t', id, to)
    ensures AllWritten(t', id, to)
  {
    hide After, NonEmpty, Good, Concat, Subsequence, Carried, Quiet, Only, Waiting, NoFailedWrite, Complete;
    var v := ViewOf(t, id);
    RunAccounts(es, t, id, to);
    RunComplete(es, t, to, id);
    var t1 := ReadEndsView(es, t, id, Other(to));
    StaysHere(es1, t1, more, t', Other(to), id);
    FaultFreeFacts(es1, t1, more, t');
    SlotWith(t, Other(to), id, t.At(Other(to)).streams[id].(phase := Ended, closed := true), to, id);
    SlotWith(t, Other(to), id, t.At(Other(to)).streams[id].(phase := Ended, closed := true), Other(to), id);
    GoesForward(es1, t1, more, t', Other(to), id);
    QuietWrites(more, to, id);
    StaysComplete(es1, t1, more, t', to, id);
    var taken, sent := t'.At(to).streams[id].taken, Sent(Slot(t'.At(Other(to)), id));
    assert |taken| >= |sent| by {
      if v.At(to).Some? {
        CarriedWaiting(v, to);
        GoesForward(es1, t1, more, t', to, id);
      } else {
        NothingCarried(v, to);
      }
    }
    Isolation(es1 + more, t', id, to);
    SubsequenceLength(taken, sent);
    StoppedComplete(t'.At(to).streams[id]);
  }

  lemma StoppedComplete(s: Stream)
    requires Complete(Some(s)) && s.writer == Stopped
    ensures s.written == Concat(s.taken)
  {
    hide Concat;
  }

  lemma NothingCarried(v: View, to: Side)
    requires v.At(to).None? && Waiting(v, to) == []
    ensures Carried(v, to) == []
  {
    hide Payloads;
  }

  lemma QuietWrites(more: seq<Event>, side: Side, id: word32)
    requires FaultFree(more)
    ensures NoFailedWrite(more, side, id)
  {
    forall e <- more ensures !FailedWrite(e, side, id) {
      assert !Faulty(e);
    }
  }

  // ---------------------------------------------------------------- a run that loses what is waiting

  /** es' goes on from es without a fault. */
  ghost predicate Leads(es: seq<Event>, es': seq<Event>, t': Tunnel) {
    es <= es' && AllQuiet(es'[|es|..]) && After(es') == Some(t')
  }

  lemma LeadsSelf(es: seq<Event>, t: Tunnel)
    requires After(es) == Some(t)
    ensures Leads(es, es, t)
  {
    hide After;
  }

  lemma LeadsStep(es: seq<Event>, es': seq<Event>, t: Tunnel, e: Event, t': Tunnel)
    requires Leads(es, es', t) && Quiet(e) && Next(t, e) == Some(t')
    ensures Leads(es, es' + [e], t')
  {
    hide After, Next, Quiet;
    Extend(es', e, t);
    assert (es' + [e])[|es|..] == es'[|es|..] + [e];
  }

  /** What gets a payload the frame loop holds handed over: room in the queue, or a closed stream. */
  function Unblocker(s: Stream, to: Side, k: word32): Event {
    if s.phase == Starting then (if to == Relay then SendOpen(k) else Dial(k, true))
    else if s.writer.Writing? then Local(to, k, Write)
    else if s.writer == Idle then Local(to, k, Take)
    else if s.unsent.Some? then Send(to, k)
    else Local(to, k, ReadEnds)
  }

  /** The stream after it. */
  function Unblocked(s: Stream): Stream {
    if s.phase == Starting then s.(phase := Running)
    else if s.writer.Writing? then s.(writer := Idle, written := s.written + s.writer.data)
    else if s.writer == Idle && s.queue != [] then
      s.(queue := s.queue[1..], taken := s.taken + [s.queue[0]],
          writer := if s.queue[0] == [] then Stopped else Writing(s.queue[0]))
    else if s.unsent.Some? then s.(unsent := None, sent := s.sent + [s.unsent.value])
    else s.(phase := Ended, closed := true)
  }

  /** What it puts on the other wire. */
  function Noise(s: Stream, to: Side, k: word32): Option<Message> {
    if s.phase == Starting then (if to == Relay then Some(Open(k)) else None)
    else if s.writer == Stopped && s.unsent.Some? then Some(Data(k, s.unsent.value))
    else None
  }

  function Heard(t: Tunnel, to: Side, m: Option<Message>): Tunnel {
    if m.Some? then t.Transmit(Other(to), m.value) else t
  }

  function StepsLeft(s: Stream, to: Side): nat {
    if |s.queue| < to.Capacity() || s.closed then 0
    else
      (if s.phase == Starting then 10 else 0)
      + (if s.writer.Writing? || (s.writer == Stopped && s.unsent.Some?) then 2 else 1)
  }

  lemma FewerSteps(s: Stream, to: Side)
    requires |s.queue| == to.Capacity() && !s.closed
    ensures StepsLeft(Unblocked(s), to) < StepsLeft(s, to)
  {
  }

  lemma UnblockEvent(t: Tunnel, to: Side, k: word32)
    requires t.up && k in t.At(to).streams
    requires var s := t.At(to).streams[k]; EndInv(s, to.Capacity()) && |s.queue| == to.Capacity() && !s.closed
    ensures var s := t.At(to).streams[k];
      && Quiet(Unblocker(s, to, k))
      && Next(t, Unblocker(s, to, k)) == Some(Heard(t.WithStream(to, k, Unblocked(s)), to, Noise(s, to, k)))
  {
    hide Concat;
  }

  // ---------------------------------------------------------------- the stream that loses

  /** The other end has hung up and its close is on the wire, behind payloads that have not been taken. */
  ghost predicate Doomed(v: View, to: Side) {
    var w := v.Towards(to);
    && v.At(Other(to)).Some? && Waiting(v, to) != [] && Carried(v, to) == Sent(v.At(Other(to)))
    && NonEmpty(Sent(v.At(Other(to))))
    && w != [] && w[|w| - 1].Close?
    && if v.At(to).Some? then Takes(v.At(to).value, to) && OnlyData(w[..|w| - 1])
       else to == Origin && |w| > 1 && w[0].Open? && OnlyData(w[1..|w| - 1]) && v.Pending(to) == []
  }

  /** An open stream that still takes payloads. */
  predicate Takes(s: Stream, to: Side) {
    !s.closed && s.registered && s.writer != Stopped && (s.phase == Running || (to == Origin && s.phase == Starting))
  }

  /** The close has arrived before the writer has taken everything. */
  ghost predicate Lost(v: View, to: Side) {
    && v.At(Other(to)).Some? && v.At(to).Some?
    && var s := v.At(to).value;
      && s.closed && s.writer != Stopped && s.queue != []
          && (s.phase == Running || (to == Origin && s.phase == Starting))
      && s.taken + s.queue == Sent(v.At(Other(to))) && NonEmpty(Sent(v.At(Other(to))))
  }

  lemma UnblockedTakes(s: Stream, to: Side)
    requires Takes(s, to) && |s.queue| == to.Capacity() && s.queue[0] != []
    ensures var s' := Unblocked(s); Takes(s', to) && s'.taken + s'.queue == s.taken + s.queue && s'.sent == s.sent
    ensures Noise(s, to, 0) == None
  {
    assert s.taken + [s.queue[0]] + s.queue[1..] == s.taken + s.queue;
  }

  lemma CarriedNonEmpty(v: View, to: Side)
    requires v.At(to).Some? && v.At(to).value.queue != [] && NonEmpty(Carried(v, to))
    ensures v.At(to).value.queue[0] != []
  {
    hide Payloads;
    assert Carried(v, to)[|v.At(to).value.taken|] == v.At(to).value.queue[0];
  }

  lemma SameCarried(v: View, to: Side, s: Stream)
    requires v.At(to).Some? && s.taken + s.queue == v.At(to).value.taken + v.At(to).value.queue
    ensures Carried(v.With(to, s), to) == Carried(v, to)
  {
    hide Payloads;
  }

  lemma PendingWaits(v: View, to: Side)
    requires v.Pending(to) != []
    ensures Waiting(v, to) != []
  {
    hide Payloads;
  }

  /** Making room takes from the stream's own queue, and something stays behind. */
  lemma DoomedUnblocked(v: View, to: Side)
    requires Doomed(v, to) && v.At(to).Some? && |v.At(to).value.queue| == to.Capacity() && v.Pending(to) != []
    ensures Doomed(v.With(to, Unblocked(v.At(to).value)), to)
    ensures Noise(v.At(to).value, to, 0) == None
  {
    hide Payloads, NonEmpty, Takes, Unblocked, Noise, Waiting, Carried;
    var s := v.At(to).value;
    CarriedNonEmpty(v, to);
    UnblockedTakes(s, to);
    SameCarried(v, to, Unblocked(s));
    PendingWaits(v.With(to, Unblocked(s)), to);
  }

  lemma DoomedPush(v: View, to: Side, payload: Bytes)
    requires Doomed(v, to) && v.At(to).Some? && v.Pending(to) == [payload]
    ensures Doomed(Pushed(v, to, payload), to)
  {
    hide Payloads;
    PushFlow(v, to, payload);
    var s := v.At(to).value;
    assert (s.queue + [payload])[|s.queue|] == payload;
  }

  lemma DataCarries(v: View, to: Side)
    requires v.Pending(to) == [] && v.Towards(to) != [] && v.Towards(to)[0].Data?
    ensures var v' := v.WithWire(to, v.Towards(to)[1..]).WithPending(to, [v.Towards(to)[0].payload]);
      Carried(v', to) == Carried(v, to) && Waiting(v', to) == Waiting(v, to)
  {
    hide Payloads;
    Head(v.Towards(to));
    var b, rest := v.Towards(to)[0].payload, Payloads(v.Towards(to)[1..]);
    assert Arrived(v.At(to)) + [] + ([b] + rest) == Arrived(v.At(to)) + [b] + rest;
  }

  lemma DoomedData(v: View, to: Side)
    requires Doomed(v, to) && v.Pending(to) == [] && v.Towards(to)[0].Data?
    ensures v.At(to).Some? && v.At(to).value.registered
    ensures Doomed(v.WithWire(to, v.Towards(to)[1..]).WithPending(to, [v.Towards(to)[0].payload]), to)
  {
    hide Payloads, Carried, Waiting, NonEmpty;
    var w := v.Towards(to);
    DataCarries(v, to);
    assert w[1..][..|w| - 2] == w[1..|w| - 1];
  }

  lemma OpenCarries(v: View)
    requires v.toOrigin != [] && v.toOrigin[0].Open? && v.origin.None?
    ensures var v' := v.WithWire(Origin, v.toOrigin[1..]).With(Origin, FRESH);
      Carried(v', Origin) == Carried(v, Origin) && Waiting(v', Origin) == Waiting(v, Origin)
  {
    hide Payloads;
    Head(v.toOrigin);
  }

  lemma OpenUnheard(v: View)
    requires Doomed(v, Origin) && v.toOrigin[0].Open?
    ensures v.origin.None?
  {
    hide Payloads, Carried, Waiting, NonEmpty;
  }

  lemma DoomedOpen(v: View)
    requires Doomed(v, Origin) && v.Pending(Origin) == [] && v.toOrigin[0].Open?
    ensures v.origin.None? && Doomed(v.WithWire(Origin, v.toOrigin[1..]).With(Origin, FRESH), Origin)
  {
    hide Payloads, Carried, Waiting, NonEmpty;
    var w := v.toOrigin;
    OpenUnheard(v);
    OpenCarries(v);
    assert w[1..][..|w| - 2] == w[1..|w| - 1];
  }

  lemma DoomedClose(v: View, to: Side)
    requires Doomed(v, to) && v.Pending(to) == [] && v.Towards(to)[0].Close?
    ensures v.At(to).Some? && Lost(v.WithWire(to, v.Towards(to)[1..]).With(to, Closed(v.At(to).value)), to)
  {
    hide Payloads;
    var w := v.Towards(to);
    assert |w| == 1;
    Head(w);
    assert Payloads(w[1..]) == [] by { NoPayloads(); }
  }

  lemma NoPayloads()
    ensures Payloads([]) == []
  {
  }

  // ---------------------------------------------------------------- draining the wire

  lemma ViewHeard(t: Tunnel, to: Side, m: Option<Message>, id: word32)
    requires m.Some? ==> !m.value.For(id)
    ensures ViewOf(Heard(t, to, m), id) == ViewOf(t, id)
    ensures Heard(t, to, m).Towards(to) == t.Towards(to) && Heard(t, to, m).At(to) == t.At(to)
  {
    if m.Some? {
      ViewTransmit(t, Other(to), m.value, id);
    }
  }

  /** One step towards handing over a payload, of this stream or another. */
  lemma UnblockDoomed(t: Tunnel, to: Side, k: word32, id: word32) returns (t': Tunnel)
    requires t.up && Good(t) && t.At(to).pending.Some? && t.At(to).pending.value.0 == k && k in t.At(to).streams
    requires |t.At(to).streams[k].queue| == to.Capacity() && !t.At(to).streams[k].closed && Doomed(ViewOf(t, id), to)
    ensures Quiet(Unblocker(t.At(to).streams[k], to, k)) && Next(t, Unblocker(t.At(to).streams[k], to, k)) == Some(t')
    ensures Doomed(ViewOf(t', id), to) && t'.Towards(to) == t.Towards(to) && t'.At(to).pending == t.At(to).pending
    ensures k in t'.At(to).streams && StepsLeft(t'.At(to).streams[k], to) < StepsLeft(t.At(to).streams[k], to)
  {
    hide EndInv, Next, Quiet, Unblocker, Unblocked, StepsLeft, Doomed, Good, Noise;
    var s := t.At(to).streams[k];
    SoundAt(t, to, k);
    UnblockEvent(t, to, k);
    FewerSteps(s, to);
    var u := t.WithStream(to, k, Unblocked(s));
    var m := Noise(s, to, k);
    t' := Heard(u, to, m);
    ViewWith(t, to, k, Unblocked(s), id);
    NoiseFor(s, to, k);
    if k == id {
      DoomedUnblocked(ViewOf(t, id), to);
      NoNoise(s, to, k);
    }
    ViewHeard(u, to, m, id);
  }

  lemma NoiseFor(s: Stream, to: Side, k: word32)
    ensures Noise(s, to, k).Some? ==> Noise(s, to, k).value.For(k)
    ensures Noise(s, to, k).Some? ==> forall i :: i != k ==> !Noise(s, to, k).value.For(i)
  {
  }

  lemma NoNoise(s: Stream, to: Side, k: word32)
    requires Noise(s, to, 0) == None
    ensures Noise(s, to, k) == None
  {
  }

  /** The payload the frame loop holds is handed over or given up. */
  lemma HandOver(t: Tunnel, to: Side, k: word32, id: word32) returns (e: Event, t': Tunnel)
    requires t.At(to).pending.Some? && t.At(to).pending.value.0 == k && k in t.At(to).streams
    requires (|t.At(to).streams[k].queue| < to.Capacity() || t.At(to).streams[k].closed) && Doomed(ViewOf(t, id), to)
    ensures Quiet(e) && Next(t, e) == Some(t')
    ensures Doomed(ViewOf(t', id), to) && t'.Towards(to) == t.Towards(to) && t'.At(to).pending == None
  {
    hide Doomed;
    var v, payload := ViewOf(t, id), t.At(to).pending.value.1;
    if |t.At(to).streams[k].queue| < to.Capacity() {
      e := Push(to);
      t' := Next(t, e).value;
      if k == id {
        DoomedPush(v, to, payload);
        assert ViewOf(t', id) == Pushed(v, to, payload);
      } else {
        assert ViewOf(t', id) == v;
      }
    } else {
      e := Discard(to);
      t' := Next(t, e).value;
      assert k != id by { OpenStream(v, to); }
      assert ViewOf(t', id) == v;
    }
  }

  lemma OpenStream(v: View, to: Side)
    requires Doomed(v, to)
    ensures v.At(to).Some? ==> !v.At(to).value.closed
  {
  }

  lemma LeadsGood(es: seq<Event>, es': seq<Event>, t': Tunnel)
    requires Leads(es, es', t')
    ensures Good(t')
  {
    hide After, Good;
    RunGood(es', t');
  }

  /** However full its queues, the frame loop can be freed without a fault. */
  lemma {:induction false} Freed(es: seq<Event>, es': seq<Event>, t: Tunnel, to: Side, id: word32)
    returns (es'': seq<Event>, t': Tunnel)
    requires Leads(es, es', t) && t.up && Doomed(ViewOf(t, id), to)
    ensures Leads(es, es'', t') && t'.up && Doomed(ViewOf(t', id), to) && t'.Towards(to) == t.Towards(to)
        && t'.At(to).pending == None
    decreases if t.At(to).pending.Some? && t.At(to).pending.value.0 in t.At(to).streams
              then 1 + StepsLeft(t.At(to).streams[t.At(to).pending.value.0], to) else 0
  {
    hide Leads, Doomed, Next, Quiet, StepsLeft, Unblocker;
    LeadsGood(es, es', t);
    if t.At(to).pending == None {
      es'', t' := es', t;
    } else {
      var k := t.At(to).pending.value.0;
      KnownKey(t, to);
      SoundAt(t, to, k);
      var s := t.At(to).streams[k];
      QueueBound(s, to.Capacity());
      if |s.queue| < to.Capacity() || s.closed {
        var e, u := HandOver(t, to, k, id);
        LeadsStep(es, es', t, e, u);
        QuietUp(t, e, u);
        es'', t' := es' + [e], u;
      } else {
        var u := UnblockDoomed(t, to, k, id);
        LeadsStep(es, es', t, Unblocker(s, to, k), u);
        QuietUp(t, Unblocker(s, to, k), u);
        es'', t' := Freed(es, es' + [Unblocker(s, to, k)], u, to, id);
      }
    }
  }

  lemma KnownKey(t: Tunnel, to: Side)
    requires Good(t) && t.At(to).pending.Some?
    ensures t.At(to).pending.value.0 in t.At(to).streams
  {
    hide AllSound;
  }

  lemma QueueBound(s: Stream, capacity: nat)
    requires SoundSlot(Some(s), capacity)
    ensures |s.queue| <= capacity
  {
    hide Concat;
  }

  lemma QuietUp(t: Tunnel, e: Event, t': Tunnel)
    requires Quiet(e) && Next(t, e) == Some(t') && t.up
    ensures t'.up
  {
    hide Next;
    StaysUp(t, e, t');
  }

  lemma DispatchWire(t: Tunnel, to: Side, m: Message)
    ensures Dispatch(t, to, m).Towards(to) == t.Towards(to) && Dispatch(t, to, m).up == t.up
  {
  }

  lemma OnWire(t: Tunnel, to: Side, id: word32)
    requires Doomed(ViewOf(t, id), to)
    ensures t.Towards(to) != []
  {
  }

  /** One message off the wire: the stream is doomed still, or its close has come. */
  lemma ReceiveDoomed(t: Tunnel, to: Side, id: word32) returns (t': Tunnel)
    requires t.At(to).pending == None && t.Towards(to) != [] && Doomed(ViewOf(t, id), to)
    ensures Next(t, Receive(to)) == Some(t') && |t'.Towards(to)| < |t.Towards(to)|
    ensures Doomed(ViewOf(t', id), to) || Lost(ViewOf(t', id), to)
  {
    hide Doomed, Lost;
    var m, v, w := t.Towards(to)[0], ViewOf(t, id), t.WithWire(to, t.Towards(to)[1..]);
    t' := Dispatch(w, to, m);
    DispatchWire(w, to, m);
    ViewTail(t, to, id);
    if !m.For(id) {
      OtherStream(w, to, m, id);
    } else if m.Data? {
      DoomedData(v, to);
      assert ViewOf(t', id) == v.WithWire(to, v.Towards(to)[1..]).WithPending(to, [m.payload]);
    } else if m.Open? {
      OnlyOrigin(v, to);
      DoomedOpen(v);
      ViewWith(w, Origin, id, FRESH, id);
    } else {
      OnlyClose(v, to);
      DoomedClose(v, to);
      ClosedOnce(v, to);
      ViewWith(w, to, id, Closed(w.At(to).streams[id]), id);
    }
  }

  lemma OnlyOrigin(v: View, to: Side)
    requires Doomed(v, to) && v.Towards(to)[0].Open?
    ensures to == Origin
  {
  }

  lemma OnlyClose(v: View, to: Side)
    requires Doomed(v, to) && !v.Towards(to)[0].Data? && !v.Towards(to)[0].Open?
    ensures v.Towards(to)[0].Close?
  {
  }

  lemma ClosedOnce(v: View, to: Side)
    requires Doomed(v, to)
    ensures v.At(to).Some? ==> v.At(to).value.registered
  {
  }

  lemma {:induction false} Drained(es: seq<Event>, es': seq<Event>, t: Tunnel, to: Side, id: word32)
    returns (es'': seq<Event>, t': Tunnel)
    requires Leads(es, es', t) && t.up && Doomed(ViewOf(t, id), to)
    ensures Leads(es, es'', t') && t'.up && Lost(ViewOf(t', id), to)
    decreases |t.Towards(to)|
  {
    hide Leads, Doomed, Lost, Next, Quiet;
    var es1, t1 := Freed(es, es', t, to, id);
    OnWire(t1, to, id);
    var t2 := ReceiveDoomed(t1, to, id);
    assert Quiet(Receive(to)) by { QuietReceive(to); }
    LeadsStep(es, es1, t1, Receive(to), t2);
    QuietUp(t1, Receive(to), t2);
    if Lost(ViewOf(t2, id), to) {
      es'', t' := es1 + [Receive(to)], t2;
    } else {
      es'', t' := Drained(es, es1 + [Receive(to)], t2, to, id);
    }
  }

  lemma QuietReceive(to: Side)
    ensures Quiet(Receive(to))
  {
  }

  // ---------------------------------------------------------------- stopping with something left

  lemma LocalStep(es: seq<Event>, es': seq<Event>, t: Tunnel, side: Side, id: word32, a: Action, s': Stream)
    returns (t': Tunnel)
    requires Leads(es, es', t) && t.up && id in t.At(side).streams && Act(t.At(side).streams[id], a, t.up) == Some(s')
    requires !a.WriteFails?
    ensures Leads(es, es' + [Local(side, id, a)], t') && t'.up && t' == t.WithStream(side, id, s')
    ensures ViewOf(t', id) == ViewOf(t, id).With(side, s')
  {
    hide Leads, Act;
    t' := t.WithStream(side, id, s');
    LeadsStep(es, es', t, Local(side, id, a), t');
    ViewWith(t, side, id, s', id);
  }

  /** The writer finishes what it holds, if anything, and sees the close. */
  lemma WriterLeaves(es: seq<Event>, es': seq<Event>, t: Tunnel, side: Side, id: word32)
    returns (es'': seq<Event>, t': Tunnel)
    requires Leads(es, es', t) && t.up && id in t.At(side).streams
    requires t.At(side).streams[id].closed && t.At(side).streams[id].writer != Stopped
    ensures Leads(es, es'', t') && t'.up && id in t'.At(side).streams
    ensures var s, s' := t.At(side).streams[id], t'.At(side).streams[id];
      && s' == s.(writer := Stopped, written := s.written + Unwritten(s))
          && ViewOf(t', id) == ViewOf(t, id).With(side, s')
      && t' == t.WithStream(side, id, s')
  {
    hide Leads;
    var s := t.At(side).streams[id];
    var s1 := s.(writer := Idle, written := s.written + Unwritten(s));
    var t1, es1 := t, es';
    if s.writer.Writing? {
      t1 := LocalStep(es, es', t, side, id, Write, s1);
      es1 := es' + [Local(side, id, Write)];
    }
    assert t1.At(side).streams[id] == s1;
    t' := LocalStep(es, es1, t1, side, id, WriterQuits, s1.(writer := Stopped));
    es'' := es1 + [Local(side, id, WriterQuits)];
    assert t'
        == t.WithStream(side, id, s1.(writer := Stopped)) by { TwiceWith(t, side, id, s1, s1.(writer := Stopped)); }
  }

  lemma TwiceWith(t: Tunnel, side: Side, id: word32, a: Stream, b: Stream)
    ensures t.WithStream(side, id, a).WithStream(side, id, b) == t.WithStream(side, id, b)
  {
    var m: map<word32, Stream> := t.At(side).streams;
    var n: map<word32, Stream> := m[id := a];
    assert n[id := b] == m[id := b];
  }

  /** A stream that has lost something ends with its writer stopped and that still queued. */
  lemma LostEnds(es: seq<Event>, es': seq<Event>, t: Tunnel, id: word32, to: Side)
    returns (es'': seq<Event>, t': Tunnel)
    requires Leads(es, es', t) && t.up && Lost(ViewOf(t, id), to)
    ensures Leads(es, es'', t') && WriterStopped(t', id, to) && !AllWritten(t', id, to)
  {
    hide Leads, Subsequence, Concat;
    LeadsGood(es, es', t);
    var s := t.At(to).streams[id];
    SoundAt(t, to, id);
    var t0, es0 := t, es';
    if s.phase == Starting {
      t0 := Dialled(es, es', t, id);
      es0 := es' + [Dial(id, true)];
    }
    var t1;
    es'', t1 := WriterLeaves(es, es0, t0, to, id);
    t' := t1;
    NotAll(s.taken, s.queue);
  }

  lemma Dialled(es: seq<Event>, es': seq<Event>, t: Tunnel, id: word32) returns (t': Tunnel)
    requires Leads(es, es', t) && t.up && id in t.origin.streams && t.origin.streams[id].phase == Starting
    ensures Leads(es, es' + [Dial(id, true)], t') && t'.up
    ensures t' == t.WithStream(Origin, id, t.origin.streams[id].(phase := Running))
  {
    hide Leads;
    t' := t.WithStream(Origin, id, t.origin.streams[id].(phase := Running));
    LeadsStep(es, es', t, Dial(id, true), t');
  }

  /** The bytes of a proper part are not the bytes of the whole, where no payload is empty. */
  lemma NotAll(taken: seq<Bytes>, queue: seq<Bytes>)
    requires queue != [] && NonEmpty(taken + queue)
    ensures Concat(taken) != Concat(taken + queue)
  {
    ConcatAppend(taken, queue);
    assert queue[0] == (taken + queue)[|taken|];
  }

  /** The end that has hung up lets its writer go, leaves the map, and sends its close. */
  lemma HangUpSent(es: seq<Event>, es': seq<Event>, t: Tunnel, side: Side, id: word32)
    returns (es'': seq<Event>, t': Tunnel, s': Stream)
    requires Leads(es, es', t) && t.up && id in t.At(side).streams
    requires var s := t.At(side).streams[id]; s.phase == Ended && s.closed
    ensures Leads(es, es'', t') && t'.up
    ensures ViewOf(t', id) == ViewOf(t, id).With(side, s').Transmit(Other(side), Close(id))
        && s'.sent == t.At(side).streams[id].sent
  {
    hide Leads;
    var es1, t1 := es', t;
    if t.At(side).streams[id].writer != Stopped {
      es1, t1 := WriterLeaves(es, es', t, side, id);
    }
    var s1 := t1.At(side).streams[id];
    s' := s1.(registered := false, closed := true);
    var t2 := LocalStep(es, es1, t1, side, id, Unregister, s');
    var es2 := es1 + [Local(side, id, Unregister)];
    t' := t2.Transmit(Other(side), Close(id));
    LeadsStep(es, es2, t2, SendClose(side, id), t');
    ViewTransmit(t2, Other(side), Close(id), id);
    es'' := es2 + [SendClose(side, id)];
  }

  lemma ClosingCarries(v: View, to: Side, id: word32, s': Stream)
    requires v.up && v.At(Other(to)).Some?
    ensures var v' := v.With(Other(to), s').Transmit(to, Close(id));
      Carried(v', to) == Carried(v, to) && Waiting(v', to) == Waiting(v, to)
  {
    hide Payloads;
    PayloadsAppend(v.Towards(to), [Close(id)]);
    OneMessage(Close(id));
  }

  /** An intact stream whose other end hangs up with something waiting is doomed once the close is sent. */
  lemma IntactDoomed(v: View, to: Side, id: word32, s': Stream)
    requires ViewInv(v) && Intact(v) && WriterRuns(v.At(to)) && v.At(Other(to)).Some? && Waiting(v, to) != []
    requires v.At(Other(to)).value.phase == Running && NonEmpty(Sent(v.At(Other(to))))
        && s'.sent == v.At(Other(to)).value.sent
    ensures Doomed(v.With(Other(to), s').Transmit(to, Close(id)), to)
  {
    hide Payloads, ViewInv, Carried, Waiting, NonEmpty, Takes;
    var w := v.Towards(to);
    ClosingCarries(v, to, id, s');
    SteadyCarried(v, to);
    assert (w + [Close(id)])[..|w|] == w;
    if v.At(to).Some? {
      OpenEnd(v, to);
    } else {
      UnheardOpen(v, to);
      assert (w + [Close(id)])[1..|w|] == w[1..];
    }
  }

  lemma OpenEnd(v: View, to: Side)
    requires ViewInv(v) && Intact(v) && v.At(to).Some? && v.At(Other(to)).Some? && v.At(to).value.writer != Stopped
    ensures Takes(v.At(to).value, to) && OnlyData(v.Towards(to))
  {
    hide Subsequence, Payloads, Concat, Carried;
  }

  lemma UnheardOpen(v: View, to: Side)
    requires ViewInv(v) && Intact(v) && v.At(to).None? && v.At(Other(to)).Some?
        && v.At(Other(to)).value.phase == Running
    ensures to == Origin && v.toOrigin != [] && v.toOrigin[0].Open? && OnlyData(v.toOrigin[1..]) && v.Pending(to) == []
  {
    hide Subsequence, Payloads, Concat, Carried;
  }

  /** A stream no end has closed: with something waiting when the other end hangs up, some continuation loses it. */
  lemma SomethingWaiting(es: seq<Event>, t: Tunnel, id: word32, to: Side, es1: seq<Event>)
    requires After(es) == Some(t) && t.accepted <= ID_SPACE && id !in t.elsewhere
    requires Intact(ViewOf(t, id)) && WriterRuns(Slot(t.At(to), id))
    requires id in t.At(Other(to)).streams && t.At(Other(to)).streams[id].phase == Running
    requires t.At(Other(to)).streams[id].unsent == None && Waiting(ViewOf(t, id), to) != []
    requires es1 == es + [Local(Other(to), id, ReadEnds)]
    ensures !DeliversAlways(es1, id, to)
  {
    hide After, Inv, ViewInv, NonEmpty, Good, Waiting, Doomed, Leads, AllWritten, Lost;
    var v, side := ViewOf(t, id), Other(to);
    Invariant(es, t);
    InvAt(t, id);
    RunGood(es, t);
    SentNonEmpty(t, side, id);
    var t1 := ReadEndsView(es, t, id, side);
    var s1 := t.At(side).streams[id].(phase := Ended, closed := true);
    ViewWith(t, side, id, s1, id);
    LeadsSelf(es1, t1);
    var es2, t2, s2 := HangUpSent(es1, es1, t1, side, id);
    IntactDoomed(v, to, id, s2);
    assert v.With(side, s1).With(side, s2) == v.With(side, s2);
    var es3, t3 := Drained(es1, es2, t2, to, id);
    var es4, t4 := LostEnds(es1, es3, t3, id, to);
    LosingRun(es1, t1, es4, t4, id, to);
  }

  /** A payload sent and not taken shows in the bytes. */
  lemma FallsShort(es: seq<Event>, t: Tunnel, id: word32, to: Side)
    requires After(es) == Some(t) && t.accepted <= ID_SPACE && id !in t.elsewhere && t.up
    requires id in t.At(to).streams && (Waiting(ViewOf(t, id), to) != [] || Dropped(es, id, to) > 0)
    ensures Concat(t.At(to).streams[id].taken) != Concat(Sent(Slot(t.At(Other(to)), id)))
  {
    hide After, Good, Concat, Subsequence, NonEmpty, Carried, Waiting, Only;
    RunAccounts(es, t, id, to);
    Isolation(es, t, id, to);
    RunGood(es, t);
    SentNonEmpty(t, Other(to), id);
    TakenAll(t.At(to).streams[id].taken, Sent(Slot(t.At(Other(to)), id)));
    CarriedWaiting(ViewOf(t, id), to);
  }

  /** Where the receiving end is closed or its writer has stopped, what is waiting or lost is never written. */
  lemma AlreadyClosed(es: seq<Event>, t: Tunnel, id: word32, to: Side, es1: seq<Event>)
    requires After(es) == Some(t) && t.accepted <= ID_SPACE && id !in t.elsewhere && t.up && NoFailedWrite(es, to, id)
    requires id in t.At(Other(to)).streams && t.At(Other(to)).streams[id].phase == Running
    requires t.At(Other(to)).streams[id].unsent == None && (Waiting(ViewOf(t, id), to) != [] || Dropped(es, id, to) > 0)
    requires id in t.At(to).streams && (t.At(to).streams[id].closed || t.At(to).streams[id].writer == Stopped)
    requires es1 == es + [Local(Other(to), id, ReadEnds)]
    ensures !DeliversAlways(es1, id, to)
  {
    hide After, NoFailedWrite, Waiting, Leads, Concat, Dropped;
    RunComplete(es, t, to, id);
    FallsShort(es, t, id, to);
    var t1 := ReadEndsView(es, t, id, Other(to));
    LeadsSelf(es1, t1);
    var es2, t2 := es1, t1;
    if t.At(to).streams[id].writer != Stopped {
      es2, t2 := WriterLeaves(es1, es1, t1, to, id);
    }
    LosingRun(es1, t1, es2, t2, id, to);
  }

  /** While no end has closed, nothing has been dropped. */
  lemma NothingDropped(es: seq<Event>, t: Tunnel, id: word32, to: Side)
    requires After(es) == Some(t) && t.accepted <= ID_SPACE && id !in t.elsewhere && Intact(ViewOf(t, id))
    ensures Dropped(es, id, to) == 0
  {
    hide After, Inv, ViewInv, Carried, Only, Dropped;
    Invariant(es, t);
    InvAt(t, id);
    SteadyCarried(ViewOf(t, id), to);
    RunAccounts(es, t, id, to);
  }

  lemma LosingRun(es: seq<Event>, t: Tunnel, es': seq<Event>, t': Tunnel, id: word32, to: Side)
    requires After(es) == Some(t) && t.accepted <= ID_SPACE && Leads(es, es', t') && WriterStopped(t', id, to)
        && !AllWritten(t', id, to)
    ensures !DeliversAlways(es, id, to)
  {
    hide After, AllWritten, FaultFree, AllQuiet;
    var more := es'[|es|..];
    assert es + more == es';
    QuietFacts(es, t, more, t');
  }

  lemma NotDelivered(es: seq<Event>, t: Tunnel, id: word32, to: Side, es1: seq<Event>)
    requires After(es) == Some(t) && t.accepted <= ID_SPACE && id !in t.elsewhere && t.up && NoFailedWrite(es, to, id)
    requires id in t.At(Other(to)).streams && t.At(Other(to)).streams[id].phase == Running
    requires t.At(Other(to)).streams[id].unsent == None && (Waiting(ViewOf(t, id), to) != [] || Dropped(es, id, to) > 0)
    requires es1 == es + [Local(Other(to), id, ReadEnds)]
    ensures !DeliversAlways(es1, id, to)
  {
    hide After, Waiting, NoFailedWrite, Intact, DeliversAlways, Dropped, ViewInv;
    if id in t.At(to).streams && (t.At(to).streams[id].closed || t.At(to).streams[id].writer == Stopped) {
      AlreadyClosed(es, t, id, to, es1);
    } else {
      NeitherClosed(es, t, id, to);
      NothingDropped(es, t, id, to);
      SomethingWaiting(es, t, id, to, es1);
    }
  }

  /**
   A hang-up, at any point of any run with the session up and no failed write: everything sent is delivered
   in every fault-free continuation, before ids come again, in which the other writer stops if and only if,
       when the sending end
   hung up, nothing was queued, pending or on the wire and nothing had been dropped.
   */
  lemma HangUpExact(es: seq<Event>, t: Tunnel, id: word32, to: Side)
    requires After(es) == Some(t) && t.accepted <= ID_SPACE && id !in t.elsewhere && t.up && NoFailedWrite(es, to, id)
    requires id in t.At(Other(to)).streams && t.At(Other(to)).streams[id].phase == Running
    requires t.At(Other(to)).streams[id].unsent == None
    ensures DeliversAlways(es + [Local(Other(to), id, ReadEnds)], id, to)
       <==> Waiting(ViewOf(t, id), to) == [] && Dropped(es, id, to) == 0
  {
    hide After, Waiting, AllWritten, FaultFree, NoFailedWrite, Dropped;
    var es1 := es + [Local(Other(to), id, ReadEnds)];
    if Waiting(ViewOf(t, id), to) == [] && Dropped(es, id, to) == 0 {
      forall more: seq<Event>, t' |
        FaultFree(more) && After(es1 + more) == Some(t') && t'.accepted <= ID_SPACE && WriterStopped(t', id, to)
        ensures AllWritten(t', id, to)
      {
        NothingWaiting(es, t, id, to, es1, more, t');
      }
    } else {
      NotDelivered(es, t, id, to, es1);
    }
  }
}
