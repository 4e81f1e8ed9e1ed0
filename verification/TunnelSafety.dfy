/** What every run of the reverse tunnel keeps. */
module TunnelSafety {
  import opened Wrappers
  import opened Words
  import opened ReverseTunnel

  /** Everything in a tunnel that concerns one stream. */
  datatype View = View(
    relay: Option<Stream>,
    origin: Option<Stream>,
    toRelay: seq<Message>,
    toOrigin: seq<Message>,
    relayPending: seq<Bytes>,
    originPending: seq<Bytes>,
    up: bool)
  {
    function At(side: Side): Option<Stream> {
      if side.Relay? then relay else origin
    }

    function Towards(side: Side): seq<Message> {
      if side.Relay? then toRelay else toOrigin
    }

    function Pending(side: Side): seq<Bytes> {
      if side.Relay? then relayPending else originPending
    }

    function With(side: Side, s: Stream): View {
      if side.Relay? then this.(relay := Some(s)) else this.(origin := Some(s))
    }

    function WithWire(side: Side, w: seq<Message>): View {
      if side.Relay? then this.(toRelay := w) else this.(toOrigin := w)
    }

    function WithPending(side: Side, p: seq<Bytes>): View {
      if side.Relay? then this.(relayPending := p) else this.(originPending := p)
    }

    function Transmit(side: Side, m: Message): View {
      if up then WithWire(side, Towards(side) + [m]) else this
    }
  }

  function Slot(e: End, id: word32): Option<Stream> {
    if id in e.streams then Some(e.streams[id]) else None
  }

  function PendingFor(e: End, id: word32): seq<Bytes> {
    if e.pending.Some? && e.pending.value.0 == id then [e.pending.value.1] else []
  }

  function ViewOf(t: Tunnel, id: word32): View {
    View(Slot(t.relay, id), Slot(t.origin, id), Only(t.toRelay, id), Only(t.toOrigin, id),
         PendingFor(t.relay, id), PendingFor(t.origin, id), t.up)
  }

  // ---------------------------------------------------------------- the invariant of one stream

  function Sent(s: Option<Stream>): seq<Bytes> {
    if s.Some? then s.value.sent else []
  }

  function Arrived(s: Option<Stream>): seq<Bytes> {
    if s.Some? then s.value.taken + s.value.queue else []
  }

  function Unwritten(s: Stream): Bytes {
    if s.writer.Writing? then s.writer.data else []
  }

  function Held(s: Stream): Bytes {
    if s.unsent.Some? then s.unsent.value else []
  }

  /** One end on its own: what was read is sent or held, what was taken is written or held. */
  ghost predicate EndInv(s: Stream, capacity: nat) {
    && |s.queue| <= capacity
    && s.written <= Concat(s.taken)
    && (!s.writer.Stopped? ==> s.written + Unwritten(s) == Concat(s.taken))
    && (s.phase in {Starting, Running} ==> s.read == Concat(s.sent) + Held(s))
    && (s.phase == Starting ==> s.sent == [] && s.unsent == None)
    && (s.phase in {Ended, Refused} ==> s.closed && s.unsent == None)
    && (!s.registered ==> s.closed)
  }

  /** The payloads towards one side that have not been dropped, oldest first. */
  function Carried(v: View, side: Side): seq<Bytes> {
    Arrived(v.At(side)) + v.Pending(side) + Payloads(v.Towards(side))
  }

  /** No end closed the stream, and the session stands. */
  predicate Intact(v: View) {
    && v.up
    && v.relay.Some? && !v.relay.value.closed
    && (v.origin.Some? ==> !v.origin.value.closed)
  }

  ghost predicate OnlyData(w: seq<Message>) {
    forall i :: 0 <= i < |w| ==> w[i].Data?
  }

  /** Nothing has been lost, and the origin knows the stream or is about to hear of it. */
  ghost predicate Steady(v: View) {
    && Carried(v, Origin) == Sent(v.relay)
    && Carried(v, Relay) == Sent(v.origin)
    && OnlyData(v.toRelay)
    && if v.origin.Some? then OnlyData(v.toOrigin)
       else if v.relay.Some? && v.relay.value.phase == Starting then v.toOrigin == []
       else v.toOrigin != [] && v.toOrigin[0].Open? && OnlyData(v.toOrigin[1..])
  }

  ghost predicate ViewInv(v: View) {
    && (v.relay.None? ==> v.origin.None? && v.toOrigin == [])
    && (v.origin.None? ==> v.toRelay == [])
    && (v.relay.Some? ==> EndInv(v.relay.value, Relay.Capacity()))
    && (v.origin.Some? ==> EndInv(v.origin.value, Origin.Capacity()))
    && (v.relay.None? ==> v.relayPending == []) && (v.origin.None? ==> v.originPending == [])
    && Opens(v.toOrigin) + (if v.origin.Some? then 1 else 0)
       <= (if v.relay.Some? && v.relay.value.phase != Starting then 1 else 0)
    && Subsequence(Carried(v, Origin), Sent(v.relay))
    && Subsequence(Carried(v, Relay), Sent(v.origin))
    && (Intact(v) ==> Steady(v))
  }

  /** Ids given out so far. */
  ghost predicate Used(id: word32, accepted: nat) {
    exists k :: 0 < k <= accepted && id == k % ID_SPACE
  }

  ghost predicate IdsUsed(t: Tunnel) {
    && (forall id <- t.relay.streams :: Used(id, t.accepted) && id !in t.elsewhere)
    && (forall id <- t.elsewhere :: Used(id, t.accepted))
  }

  ghost predicate Inv(t: Tunnel) {
    && IdsUsed(t)
    && forall id :: id !in t.elsewhere ==> ViewInv(ViewOf(t, id))
  }

  // ---------------------------------------------------------------- steps of one stream

  /** A local step moves nothing between the ends, and a stream once disturbed stays so. */
  lemma ActKeeps(s: Stream, a: Action, up: bool, s': Stream, capacity: nat)
    requires EndInv(s, capacity) && Act(s, a, up) == Some(s')
    ensures EndInv(s', capacity)
    ensures s'.sent == s.sent && s'.taken + s'.queue == s.taken + s.queue
    ensures s.closed ==> s'.closed
    ensures s.phase == Starting <==> s'.phase == Starting
  {
    hide Concat;
    match a
    case Read(bytes) =>
    case ReadEnds =>
    case Take =>
      ConcatSnoc(s.taken, s.queue[0]);
      assert s.taken + s.queue == s.taken + [s.queue[0]] + s.queue[1..];
    case Write =>
    case WriteFails(n) =>
    case WriterQuits =>
    case Unregister =>
  }

  /** Replacing one end by an equally loaded one. */
  lemma ReplaceKeeps(v: View, side: Side, s: Stream)
    requires ViewInv(v) && v.At(side).Some?
    requires EndInv(s, side.Capacity())
    requires var o := v.At(side).value;
      && s.sent == o.sent && s.taken + s.queue == o.taken + o.queue
      && (o.closed ==> s.closed)
      && (side == Relay ==> (o.phase == Starting <==> s.phase == Starting))
    ensures ViewInv(v.With(side, s))
  {
    hide EndInv, Subsequence, Payloads, Opens;
    var v' := v.With(side, s);
    assert Carried(v', Origin) == Carried(v, Origin) && Carried(v', Relay) == Carried(v, Relay);
  }

  lemma SendEnd(s: Stream, capacity: nat)
    requires EndInv(s, capacity) && s.unsent.Some?
    ensures EndInv(s.(unsent := None, sent := s.sent + [s.unsent.value]), capacity)
    ensures s.phase != Starting
  {
    hide Concat;
    ConcatSnoc(s.sent, s.unsent.value);
  }

  function Forward(v: View, side: Side, id: word32): View
    requires v.At(side).Some? && v.At(side).value.unsent.Some?
  {
    var s := v.At(side).value;
    v.With(side, s.(unsent := None, sent := s.sent + [s.unsent.value])).Transmit(Other(side), Data(id, s.unsent.value))
  }

  lemma SendFlows(v: View, side: Side, id: word32)
    requires ViewInv(v) && v.At(side).Some? && v.At(side).value.unsent.Some?
    ensures var v' := Forward(v, side, id); var to := Other(side); var b := v.At(side).value.unsent.value;
      && Carried(v', to) == (if v.up then Carried(v, to) + [b] else Carried(v, to))
      && Carried(v', side) == Carried(v, side)
      && Subsequence(Carried(v', to), Sent(v'.At(side)))
      && Opens(v'.toOrigin) == Opens(v.toOrigin)
  {
    hide EndInv, Payloads, Opens, Subsequence, Steady, Intact;
    var s := v.At(side).value;
    var b := s.unsent.value;
    var to := Other(side);
    SubsequenceExtend(Carried(v, to), s.sent, b);
    PayloadsAppend(v.Towards(to), [Data(id, b)]);
    OpensAppend(v.Towards(to), [Data(id, b)]);
    OneMessage(Data(id, b));
  }

  lemma SendSteady(v: View, side: Side, id: word32)
    requires ViewInv(v) && Intact(v) && v.At(side).Some? && v.At(side).value.unsent.Some?
    ensures Steady(Forward(v, side, id))
  {
    hide Payloads, Opens, Subsequence, Concat, Carried;
    assert v.At(side).value.phase != Starting;
    hide EndInv;
    SendFlows(v, side, id);
  }

  /** A payload read from the socket is put on the wire. */
  lemma SendKeeps(v: View, side: Side, id: word32)
    requires ViewInv(v) && v.At(side).Some? && v.At(side).value.unsent.Some?
    ensures ViewInv(Forward(v, side, id))
  {
    hide Payloads, Opens, Subsequence, Steady, Carried, Concat;
    SendEnd(v.At(side).value, side.Capacity());
    hide EndInv;
    SendFlows(v, side, id);
    if Intact(Forward(v, side, id)) {
      SendSteady(v, side, id);
    }
  }

  lemma OneMessage(m: Message)
    ensures Payloads([m]) == if m.Data? then [m.payload] else []
    ensures Opens([m]) == if m.Open? then 1 else 0
  {
    assert [m][1..] == [];
  }

  function Pushed(v: View, side: Side, payload: Bytes): View
    requires v.At(side).Some?
  {
    v.With(side, v.At(side).value.(queue := v.At(side).value.queue + [payload])).WithPending(side, [])
  }

  lemma PushFlow(v: View, side: Side, payload: Bytes)
    requires v.At(side).Some? && v.Pending(side) == [payload]
    ensures Carried(Pushed(v, side, payload), side) == Carried(v, side)
    ensures Carried(Pushed(v, side, payload), Other(side)) == Carried(v, Other(side))
  {
    hide Payloads;
    var s := v.At(side).value;
    assert s.taken + (s.queue + [payload]) == s.taken + s.queue + [payload];
  }

  lemma PushEnd(s: Stream, payload: Bytes, capacity: nat)
    requires EndInv(s, capacity) && |s.queue| < capacity
    ensures EndInv(s.(queue := s.queue + [payload]), capacity)
  {
    hide Concat;
  }

  /** The frame loop hands a payload to the stream it looked up. */
  lemma PushKeeps(v: View, side: Side, payload: Bytes)
    requires ViewInv(v) && v.At(side).Some? && v.Pending(side) == [payload]
    requires |v.At(side).value.queue| < side.Capacity()
    ensures ViewInv(Pushed(v, side, payload))
  {
    hide Opens, Subsequence, EndInv, Carried;
    PushEnd(v.At(side).value, payload, side.Capacity());
    PushFlow(v, side, payload);
  }

  lemma DiscardFlow(v: View, side: Side)
    requires Subsequence(Carried(v, side), Sent(v.At(Other(side))))
    ensures var v' := v.WithPending(side, []);
      && Subsequence(Carried(v', side), Sent(v.At(Other(side)))) && Carried(v', Other(side)) == Carried(v, Other(side))
  {
    hide Payloads, Subsequence;
    SubsequenceDrop(Arrived(v.At(side)), v.Pending(side), Payloads(v.Towards(side)), Sent(v.At(Other(side))));
    assert Carried(v.WithPending(side, []), side) == Arrived(v.At(side)) + Payloads(v.Towards(side));
  }

  /** The frame loop gives up on a closed stream. */
  lemma DiscardKeeps(v: View, side: Side)
    requires ViewInv(v) && !Intact(v)
    ensures ViewInv(v.WithPending(side, []))
  {
    hide EndInv, Payloads, Opens, Subsequence, Carried, Steady;
    DiscardFlow(v, side);
  }

  /** A control message leaves the payloads alone; after a disturbance it cannot matter. */
  lemma ControlKeeps(v: View, side: Side, m: Message)
    requires ViewInv(v) && !Intact(v) && (m.Close? || m.Reset?) && v.At(Other(side)).Some?
    ensures ViewInv(v.Transmit(side, m))
  {
    hide EndInv, Payloads, Opens, Subsequence;
    PayloadsAppend(v.Towards(side), [m]);
    OpensAppend(v.Towards(side), [m]);
    OneMessage(m);
    var v' := v.Transmit(side, m);
    assert Carried(v', side) == Carried(v, side);
    assert Carried(v', Other(side)) == Carried(v, Other(side));
  }

  lemma PrefixParts(w: seq<Message>, p: seq<Message>)
    requires p <= w
    ensures Payloads(p) + Payloads(w[|p|..]) == Payloads(w) && Opens(p) <= Opens(w)
  {
    assert w == p + w[|p|..];
    PayloadsAppend(p, w[|p|..]);
    OpensAppend(p, w[|p|..]);
  }

  /** When the connection breaks, a tail of either direction is lost. */
  lemma BreakKeeps(v: View, p: seq<Message>, q: seq<Message>)
    requires ViewInv(v) && p <= v.toRelay && q <= v.toOrigin
    ensures ViewInv(v.(up := false, toRelay := p, toOrigin := q))
  {
    hide EndInv, Subsequence, Steady, Payloads, Opens, Carried;
    BreakFlow(v, p, q, Relay);
    BreakFlow(v, p, q, Origin);
    PrefixParts(v.toOrigin, q);
  }

  lemma BreakFlow(v: View, p: seq<Message>, q: seq<Message>, side: Side)
    requires p <= v.toRelay && q <= v.toOrigin && Subsequence(Carried(v, side), Sent(v.At(Other(side))))
    ensures Subsequence(Carried(v.(up := false, toRelay := p, toOrigin := q), side), Sent(v.At(Other(side))))
  {
    hide Subsequence, Payloads, Opens;
    var kept := if side.Relay? then p else q;
    PrefixParts(v.Towards(side), kept);
    LoseTail(Carried(v.(up := false, toRelay := p, toOrigin := q), side), Payloads(v.Towards(side)[|kept|..]),
             Carried(v, side), Sent(v.At(Other(side))));
  }

  lemma LoseTail<T>(a: seq<T>, m: seq<T>, whole: seq<T>, ys: seq<T>)
    requires whole == a + m && Subsequence(whole, ys)
    ensures Subsequence(a, ys)
  {
    hide Subsequence;
    assert a + m + [] == whole && a + [] == a;
    SubsequenceDrop(a, m, [], ys);
  }

  // ---------------------------------------------------------------- receiving

  lemma Head(w: seq<Message>)
    requires w != []
    ensures Payloads(w) == (if w[0].Data? then [w[0].payload] else []) + Payloads(w[1..])
    ensures Opens(w) == (if w[0].Open? then 1 else 0) + Opens(w[1..])
  {
  }

  lemma OpenFlow(v: View)
    requires v.origin.None? && v.toOrigin != [] && v.toOrigin[0].Open?
    ensures var v' := v.WithWire(Origin, v.toOrigin[1..]).With(Origin, FRESH);
      Carried(v', Origin) == Carried(v, Origin) && Carried(v', Relay) == Carried(v, Relay)
  {
    hide Payloads;
    Head(v.toOrigin);
  }

  lemma ReceiveOpen(v: View)
    requires ViewInv(v) && v.toOrigin != [] && v.toOrigin[0].Open? && v.originPending == []
    ensures v.origin.None? && ViewInv(v.WithWire(Origin, v.toOrigin[1..]).With(Origin, FRESH))
  {
    hide Concat, Payloads, Opens, Subsequence, Carried, EndInv;
    Head(v.toOrigin);
    OpenFlow(v);
    FreshEnd(Origin.Capacity());
  }

  lemma FreshEnd(capacity: nat)
    ensures EndInv(FRESH, capacity)
  {
  }

  lemma ReceiveFlow(v: View, side: Side)
    requires v.Pending(side) == [] && v.Towards(side) != [] && v.Towards(side)[0].Data?
    requires Subsequence(Carried(v, side), Sent(v.At(Other(side))))
    ensures var w := v.WithWire(side, v.Towards(side)[1..]); var taken :=
        w.WithPending(side, [v.Towards(side)[0].payload]);
      && Subsequence(Carried(w, side), Sent(v.At(Other(side)))) && Carried(taken, side) == Carried(v, side)
      && Carried(w, Other(side)) == Carried(v, Other(side)) && Carried(taken, Other(side)) == Carried(v, Other(side))
      && Opens(w.toOrigin) == Opens(v.toOrigin)
  {
    hide Subsequence, Payloads, Opens;
    var b, rest := v.Towards(side)[0].payload, Payloads(v.Towards(side)[1..]);
    Head(v.Towards(side));
    assert Carried(v, side) == Arrived(v.At(side)) + [b] + rest;
    SubsequenceDrop(Arrived(v.At(side)), [b], rest, Sent(v.At(Other(side))));
    var w := v.WithWire(side, v.Towards(side)[1..]);
    assert Carried(w, side) == Arrived(v.At(side)) + rest;
  }

  /** A payload is taken up by a registered stream, and dropped otherwise. */
  lemma ReceiveData(v: View, side: Side)
    requires ViewInv(v) && v.Pending(side) == [] && v.Towards(side) != [] && v.Towards(side)[0].Data?
    requires side == Relay ==> v.relay.Some?
    ensures var w := v.WithWire(side, v.Towards(side)[1..]);
      ViewInv(if v.At(side).Some? && v.At(side).value.registered
              then w.WithPending(side, [v.Towards(side)[0].payload]) else w)
  {
    hide Payloads, Opens, Subsequence, Concat, Carried;
    assert v.At(side).Some? && !v.At(side).value.registered ==> !Intact(v);
    hide EndInv;
    ReceiveFlow(v, side);
    assert v.At(side).None? ==> !Intact(v);
  }

  lemma ClosedEnd(s: Stream, capacity: nat)
    requires EndInv(s, capacity)
    ensures EndInv(Closed(s), capacity)
  {
  }

  /** A message without a payload that the frame loop takes off the wire. */
  lemma DropControl(v: View, side: Side)
    requires ViewInv(v) && v.Towards(side) != [] && !v.Towards(side)[0].Data?
    requires v.Towards(side)[0].Open? ==> side == Relay
    ensures ViewInv(v.WithWire(side, v.Towards(side)[1..]))
  {
    hide EndInv, Payloads, Opens, Subsequence;
    Head(v.Towards(side));
    assert !Intact(v);
    hide Steady;
    var w := v.WithWire(side, v.Towards(side)[1..]);
    assert Carried(w, side) == Carried(v, side);
    assert Carried(w, Other(side)) == Carried(v, Other(side));
    hide Carried;
    assert !Intact(w);
  }

  lemma ClosedKeeps(v: View, side: Side)
    requires ViewInv(v) && v.At(side).Some?
    ensures ViewInv(v.With(side, Closed(v.At(side).value)))
  {
    hide ViewInv;
    assert EndInv(Closed(v.At(side).value), side.Capacity()) by {
      EndOf(v, side);
      ClosedEnd(v.At(side).value, side.Capacity());
    }
    ReplaceKeeps(v, side, Closed(v.At(side).value));
  }

  lemma EndOf(v: View, side: Side)
    requires ViewInv(v) && v.At(side).Some?
    ensures EndInv(v.At(side).value, side.Capacity())
  {
    hide EndInv;
  }

  // ---------------------------------------------------------------- steps of the whole tunnel

  lemma ViewWith(t: Tunnel, side: Side, id: word32, s: Stream, i: word32)
    ensures ViewOf(t.WithStream(side, id, s), i) == if i == id then ViewOf(t, i).With(side, s) else ViewOf(t, i)
  {
  }

  lemma ViewTransmit(t: Tunnel, side: Side, m: Message, i: word32)
    ensures ViewOf(t.Transmit(side, m), i) == if m.For(i) then ViewOf(t, i).Transmit(side, m) else ViewOf(t, i)
  {
    OnlyAppend(t.Towards(side), m, i);
  }

  /** Taking a message off the wire shows only in the view of its stream. */
  lemma ViewTail(t: Tunnel, side: Side, i: word32)
    requires t.Towards(side) != []
    ensures var v := ViewOf(t, i); var m := t.Towards(side)[0];
      && (m.For(i) ==> v.Towards(side) != [] && v.Towards(side)[0] == m)
      && ViewOf(t.WithWire(side, t.Towards(side)[1..]), i)
         == if m.For(i) then v.WithWire(side, v.Towards(side)[1..]) else v
  {
  }

  lemma UsedGrows(id: word32, n: nat, k: nat)
    requires Used(id, n) && n <= k
    ensures Used(id, k)
  {
  }

  /** While the counter has not wrapped, the id it gives is new. */
  lemma NextIdFresh(t: Tunnel)
    requires t.accepted < ID_SPACE
    ensures !Used(t.NextId(), t.accepted) && Used(t.NextId(), t.accepted + 1)
  {
  }

  lemma StepIds(t: Tunnel, e: Event, t': Tunnel)
    requires IdsUsed(t) && Next(t, e) == Some(t') && t'.accepted <= ID_SPACE
    ensures IdsUsed(t') && t.accepted <= t'.accepted && t.elsewhere <= t'.elsewhere
  {
    hide Used, Act;
    if e.Accept? || e.AcceptElsewhere? {
      NextIdFresh(t);
      forall id | Used(id, t.accepted) ensures Used(id, t'.accepted) {
        UsedGrows(id, t.accepted, t'.accepted);
      }
    } else {
      SameIds(t, e, t');
    }
  }

  lemma SameIds(t: Tunnel, e: Event, t': Tunnel)
    requires Next(t, e) == Some(t') && !e.Accept? && !e.AcceptElsewhere?
    ensures t'.relay.streams.Keys == t.relay.streams.Keys && t'.accepted == t.accepted && t'.elsewhere == t.elsewhere
  {
    hide Act;
  }

  lemma NewStream(v: View)
    requires ViewInv(v) && v.relay.None?
    ensures ViewInv(v.With(Relay, FRESH))
  {
    hide Opens, Concat, Subsequence;
    FreshEnd(Relay.Capacity());
    hide EndInv;
    var v' := v.With(Relay, FRESH);
    assert Carried(v', Relay) == Carried(v, Relay) && Carried(v', Origin) == Carried(v, Origin);
  }

  lemma AcceptKeeps(t: Tunnel, id: word32)
    requires IdsUsed(t) && t.accepted < ID_SPACE && ViewInv(ViewOf(t, id))
    ensures ViewInv(ViewOf(Next(t, Accept).value, id))
  {
    hide ViewInv, Used;
    NextIdFresh(t);
    ViewWith(t, Relay, t.NextId(), FRESH, id);
    if id == t.NextId() {
      NewStream(ViewOf(t, id));
    }
  }

  /** The relay's Open goes out before any payload of the stream can. */
  lemma OpenSent(v: View, id: word32)
    requires ViewInv(v) && v.relay.Some? && v.relay.value.phase == Starting
    ensures var s := v.relay.value;
      ViewInv(if v.up then v.With(Relay, s.(phase := Running)).Transmit(Origin, Open(id))
              else v.With(Relay, s.(phase := Ended, closed := true)))
  {
    hide Subsequence, Opens, Payloads, Concat;
    var s := v.relay.value;
    assert EndInv(s.(phase := Running), Relay.Capacity())
        && EndInv(s.(phase := Ended, closed := true), Relay.Capacity());
    hide EndInv;
    PayloadsAppend(v.toOrigin, [Open(id)]);
    OpensAppend(v.toOrigin, [Open(id)]);
    OneMessage(Open(id));
    if v.up {
      var v' := v.With(Relay, s.(phase := Running)).Transmit(Origin, Open(id));
      assert Carried(v', Relay) == Carried(v, Relay) && Carried(v', Origin) == Carried(v, Origin);
      hide Carried;
      assert Intact(v') ==> Intact(v);
    } else {
      var v' := v.With(Relay, s.(phase := Ended, closed := true));
      assert Carried(v', Relay) == Carried(v, Relay) && Carried(v', Origin) == Carried(v, Origin);
      hide Carried;
      assert !Intact(v');
    }
  }

  lemma SendOpenKeeps(t: Tunnel, i: word32, t': Tunnel, id: word32)
    requires Next(t, SendOpen(i)) == Some(t') && ViewInv(ViewOf(t, id))
    ensures ViewInv(ViewOf(t', id))
  {
    hide ViewInv;
    var s := t.relay.streams[i];
    var running := t.WithStream(Relay, i, s.(phase := Running));
    ViewWith(t, Relay, i, s.(phase := Running), id);
    ViewTransmit(running, Origin, Open(i), id);
    ViewWith(t, Relay, i, s.(phase := Ended, closed := true), id);
    if id == i {
      OpenSent(ViewOf(t, id), id);
    }
  }

  lemma DialledEnd(s: Stream, capacity: nat)
    requires EndInv(s, capacity) && s.phase == Starting
    ensures EndInv(s.(phase := Running), capacity)
    ensures EndInv(s.(phase := Refused, registered := false, closed := true), capacity)
  {
  }

  lemma DialKeeps(t: Tunnel, i: word32, ok: bool, t': Tunnel, id: word32)
    requires Next(t, Dial(i, ok)) == Some(t') && ViewInv(ViewOf(t, id))
    ensures ViewInv(ViewOf(t', id))
  {
    hide ViewInv, EndInv;
    var s := t.origin.streams[i];
    var s' := if ok then s.(phase := Running) else s.(phase := Refused, registered := false, closed := true);
    ViewWith(t, Origin, i, s', id);
    if id == i {
      EndOf(ViewOf(t, id), Origin);
      DialledEnd(s, Origin.Capacity());
      ReplaceKeeps(ViewOf(t, id), Origin, s');
    }
  }

  lemma LocalKeeps(t: Tunnel, side: Side, i: word32, a: Action, t': Tunnel, id: word32)
    requires Next(t, Local(side, i, a)) == Some(t') && ViewInv(ViewOf(t, id))
    ensures ViewInv(ViewOf(t', id))
  {
    hide ViewInv, EndInv, Act;
    var s := t.At(side).streams[i];
    var s' := Act(s, a, t.up).value;
    ViewWith(t, side, i, s', id);
    if id == i {
      EndOf(ViewOf(t, id), side);
      ActKeeps(s, a, t.up, s', side.Capacity());
      ReplaceKeeps(ViewOf(t, id), side, s');
    }
  }

  lemma SendingKeeps(t: Tunnel, side: Side, i: word32, t': Tunnel, id: word32)
    requires Next(t, Send(side, i)) == Some(t') && ViewInv(ViewOf(t, id))
    ensures ViewInv(ViewOf(t', id))
  {
    hide ViewInv;
    var s := t.At(side).streams[i];
    var s' := s.(unsent := None, sent := s.sent + [s.unsent.value]);
    ViewWith(t, side, i, s', id);
    ViewTransmit(t.WithStream(side, i, s'), Other(side), Data(i, s.unsent.value), id);
    if id == i {
      SendKeeps(ViewOf(t, id), side, id);
    }
  }

  lemma PushingKeeps(t: Tunnel, side: Side, t': Tunnel, id: word32)
    requires Next(t, Push(side)) == Some(t') && ViewInv(ViewOf(t, id))
    ensures ViewInv(ViewOf(t', id))
  {
    hide ViewInv;
    var (i, payload) := t.At(side).pending.value;
    var v := ViewOf(t, id);
    if id == i {
      var s := v.At(side).value;
      PushKeeps(v, side, payload);
      assert ViewOf(t', id) == v.With(side, s.(queue := s.queue + [payload])).WithPending(side, []);
    } else {
      assert ViewOf(t', id) == v;
    }
  }

  lemma DiscardingKeeps(t: Tunnel, side: Side, t': Tunnel, id: word32)
    requires Next(t, Discard(side)) == Some(t') && ViewInv(ViewOf(t, id))
    ensures ViewInv(ViewOf(t', id))
  {
    hide ViewInv;
    var v := ViewOf(t, id);
    if id == t.At(side).pending.value.0 {
      assert !Intact(v);
      DiscardKeeps(v, side);
      assert ViewOf(t', id) == v.WithPending(side, []);
    } else {
      assert ViewOf(t', id) == v;
    }
  }

  lemma SendCloseKeeps(t: Tunnel, side: Side, i: word32, t': Tunnel, id: word32)
    requires Next(t, SendClose(side, i)) == Some(t') && ViewInv(ViewOf(t, id))
    ensures ViewInv(ViewOf(t', id))
  {
    hide ViewInv;
    var m := if t.At(side).streams[i].phase == Refused then Reset(i) else Close(i);
    ViewTransmit(t, Other(side), m, id);
    if id == i {
      assert !Intact(ViewOf(t, id));
      ControlKeeps(ViewOf(t, id), Other(side), m);
    }
  }

  lemma BreakingKeeps(t: Tunnel, i: nat, j: nat, t': Tunnel, id: word32)
    requires Next(t, Break(i, j)) == Some(t') && ViewInv(ViewOf(t, id))
    ensures ViewInv(ViewOf(t', id))
  {
    hide ViewInv;
    OnlyPrefix(t.toRelay, i, id);
    OnlyPrefix(t.toOrigin, j, id);
    BreakKeeps(ViewOf(t, id), Only(t'.toRelay, id), Only(t'.toOrigin, id));
  }

  lemma ClosingKeeps(t: Tunnel, side: Side, t': Tunnel, id: word32)
    requires Next(t, CloseAll(side)) == Some(t') && ViewInv(ViewOf(t, id))
    ensures ViewInv(ViewOf(t', id))
  {
    hide ViewInv;
    var v := ViewOf(t, id);
    if v.At(side).Some? {
      ClosedKeeps(v, side);
      assert ViewOf(t', id) == v.With(side, Closed(v.At(side).value));
    } else {
      assert ViewOf(t', id) == v;
    }
  }

  /** One message off the wire, whatever it is. */
  lemma ReceivingKeeps(t: Tunnel, side: Side, t': Tunnel, id: word32)
    requires Next(t, Receive(side)) == Some(t') && ViewInv(ViewOf(t, id))
    ensures ViewInv(ViewOf(t', id))
  {
    hide ViewInv;
    var m, v, w := t.Towards(side)[0], ViewOf(t, id), t.WithWire(side, t.Towards(side)[1..]);
    ViewTail(t, side, id);
    if !m.For(id) {
      OtherStream(w, side, m, id);
    } else if m.Data? {
      assert side == Relay ==> v.relay.Some? by { KnownToRelay(v, side); }
      ReceiveData(v, side);
      var u := v.WithWire(side, v.Towards(side)[1..]);
      assert ViewOf(t', id) == if v.At(side).Some? && v.At(side).value.registered
                               then u.WithPending(side, [m.payload]) else u;
    } else if m.Open? && side == Origin {
      ReceiveOpen(v);
      ViewWith(w, Origin, id, FRESH, id);
    } else {
      DropControl(v, side);
      if !m.Open? && Slot(w.At(side), id).Some? {
        ClosedKeeps(ViewOf(w, id), side);
        ViewWith(w, side, id, Closed(w.At(side).streams[id]), id);
      }
    }
  }

  lemma KnownToRelay(v: View, side: Side)
    requires ViewInv(v) && v.Towards(side) != []
    ensures v.relay.Some?
  {
    hide EndInv, Subsequence, Opens, Steady, Intact, Carried;
  }

  lemma OtherStream(t: Tunnel, side: Side, m: Message, id: word32)
    requires !m.For(id) && t.At(side).pending == None
    ensures ViewOf(Dispatch(t, side, m), id) == ViewOf(t, id)
  {
    match m
    case Ping => ViewTransmit(t, Origin, Pong, id);
    case Pong =>
    case Open(i) => ViewWith(t, side, i, FRESH, id);
    case Data(i, payload) =>
    case Close(i) => OtherShut(t, side, i, id);
    case Reset(i) => OtherShut(t, side, i, id);
  }

  lemma OtherShut(t: Tunnel, side: Side, i: word32, id: word32)
    requires i != id
    ensures ViewOf(Shut(t, side, i), id) == ViewOf(t, id)
  {
    if i in t.At(side).streams {
      ViewWith(t, side, i, Closed(t.At(side).streams[i]), id);
    }
  }

  /** Every step keeps the invariant of every stream of this session. */
  lemma StepView(t: Tunnel, e: Event, t': Tunnel, id: word32)
    requires IdsUsed(t) && Next(t, e) == Some(t') && t'.accepted <= ID_SPACE && id !in t'.elsewhere
    requires ViewInv(ViewOf(t, id)) && t.elsewhere <= t'.elsewhere
    ensures ViewInv(ViewOf(t', id))
  {
    hide ViewInv, Act, Dispatch, Used;
    match e
    case Accept => AcceptKeeps(t, id);
    case AcceptElsewhere =>
    case Stale(m) => ViewTransmit(t, Relay, m, id);
    case SendOpen(i) => SendOpenKeeps(t, i, t', id);
    case Dial(i, ok) => DialKeeps(t, i, ok, t', id);
    case Local(side, i, a) => LocalKeeps(t, side, i, a, t', id);
    case Send(side, i) => SendingKeeps(t, side, i, t', id);
    case Receive(side) => ReceivingKeeps(t, side, t', id);
    case Push(side) => PushingKeeps(t, side, t', id);
    case Discard(side) => DiscardingKeeps(t, side, t', id);
    case SendClose(side, i) => SendCloseKeeps(t, side, i, t', id);
    case Heartbeat => ViewTransmit(t, Relay, Ping, id);
    case Break(i, j) => BreakingKeeps(t, i, j, t', id);
    case CloseAll(side) => ClosingKeeps(t, side, t', id);
  }

  lemma StepInv(t: Tunnel, e: Event, t': Tunnel)
    requires Inv(t) && Next(t, e) == Some(t') && t'.accepted <= ID_SPACE
    ensures Inv(t')
  {
    hide ViewInv, IdsUsed, Next;
    StepIds(t, e, t');
    forall id: word32 | id !in t'.elsewhere ensures ViewInv(ViewOf(t', id)) {
      StepView(t, e, t', id);
    }
  }

  lemma StartInv()
    ensures Inv(START)
  {
    forall id: word32 ensures ViewInv(ViewOf(START, id)) {
      assert Carried(ViewOf(START, id), Relay) == [] && Carried(ViewOf(START, id), Origin) == [];
    }
  }

  lemma AcceptedGrows(t: Tunnel, e: Event, t': Tunnel)
    requires Next(t, e) == Some(t')
    ensures t.accepted <= t'.accepted
  {
    hide Act;
  }

  /** The invariant over every run in which the id counter has not wrapped. */
  lemma {:induction false} Invariant(es: seq<Event>, t: Tunnel)
    requires After(es) == Some(t) && t.accepted <= ID_SPACE
    ensures Inv(t)
  {
    hide Inv, Next;
    if es == [] {
      StartInv();
    } else {
      var last := |es| - 1;
      var s := After(es[..last]).value;
      AcceptedGrows(s, es[last], t);
      Invariant(es[..last], s);
      StepInv(s, es[last], t);
    }
  }

  // ---------------------------------------------------------------- the theorems

  lemma SteadyCarried(v: View, to: Side)
    requires ViewInv(v) && Intact(v)
    ensures Carried(v, to) == Sent(v.At(Other(to)))
    ensures v.At(to).Some? && v.At(to).value.writer != Stopped ==>
      v.At(to).value.written + Unwritten(v.At(to).value) == Concat(v.At(to).value.taken)
    ensures v.At(Other(to)).Some? ==>
      v.At(Other(to)).value.read == Concat(v.At(Other(to)).value.sent) + Held(v.At(Other(to)).value)
  {
    hide Subsequence, Opens, Concat, Payloads, Carried;
  }

  lemma CarriedBytes(v: View, to: Side)
    ensures Concat(Carried(v, to))
        == Concat(Arrived(v.At(to))) + Concat(v.Pending(to)) + Concat(Payloads(v.Towards(to)))
    ensures v.At(to).Some? ==> Concat(Arrived(v.At(to))) == Concat(v.At(to).value.taken) + Concat(v.At(to).value.queue)
  {
    var r, p, w := v.At(to), v.Pending(to), Payloads(v.Towards(to));
    ConcatAppend(Arrived(r) + p, w);
    ConcatAppend(Arrived(r), p);
    if r.Some? {
      ConcatAppend(r.value.taken, r.value.queue);
    }
  }

  function ReadBytes(s: Option<Stream>): Bytes {
    if s.Some? then s.value.read else []
  }

  function Delivered(s: Option<Stream>): Bytes {
    if s.Some? then s.value.written else []
  }

  /** Bytes taken from one end's socket and not yet written to the other's, oldest first. */
  function Underway(v: View, to: Side): Bytes {
    (if v.At(to).Some? then Unwritten(v.At(to).value) + Concat(v.At(to).value.queue) else [])
    + Concat(v.Pending(to))
    + Concat(Payloads(v.Towards(to)))
    + (if v.At(Other(to)).Some? then Held(v.At(Other(to)).value) else [])
  }

  predicate WriterRuns(s: Option<Stream>) {
    s.Some? ==> s.value.writer != Stopped
  }

  lemma ViewConservation(v: View, to: Side)
    requires ViewInv(v) && Intact(v) && WriterRuns(v.At(to))
    ensures ReadBytes(v.At(Other(to))) == Delivered(v.At(to)) + Underway(v, to)
  {
    hide ViewInv, Intact, Concat, Payloads, Carried, Arrived;
    SteadyCarried(v, to);
    CarriedBytes(v, to);
    EmptyConcat();
    assert v.At(to).None? ==> Arrived(v.At(to)) == [] by { NothingArrived(); }
  }

  lemma NothingArrived()
    ensures Arrived(None) == []
  {
  }

  /**
   Conservation: until a stream or its session closes or a socket write fails, what was read at
   one end is what the other end has delivered, queued or has in flight, in order.
   */
  lemma Conservation(es: seq<Event>, t: Tunnel, id: word32, to: Side)
    requires After(es) == Some(t) && t.accepted <= ID_SPACE && id !in t.elsewhere
    requires Intact(ViewOf(t, id)) && WriterRuns(Slot(t.At(to), id))
    ensures var v := ViewOf(t, id); ReadBytes(v.At(Other(to))) == Delivered(v.At(to)) + Underway(v, to)
  {
    hide Inv, After, ViewInv, Intact, Underway;
    Invariant(es, t);
    InvAt(t, id);
    ViewConservation(ViewOf(t, id), to);
  }

  lemma EmptyConcat()
    ensures Concat([]) == []
  {
  }

  lemma InvAt(t: Tunnel, id: word32)
    requires Inv(t) && id !in t.elsewhere
    ensures ViewInv(ViewOf(t, id))
  {
    hide ViewInv;
  }

  lemma ViewIsolation(v: View, to: Side)
    requires ViewInv(v) && v.At(to).Some?
    ensures Subsequence(v.At(to).value.taken, Sent(v.At(Other(to))))
    ensures v.At(to).value.written <= Concat(v.At(to).value.taken) && |v.At(to).value.queue| <= to.Capacity()
  {
    hide Subsequence, Opens, Concat, Payloads, Steady, Carried;
    var s := v.At(to).value;
    var rest := s.queue + v.Pending(to) + Payloads(v.Towards(to));
    TakenFirst(v, to);
    LoseTail(s.taken, rest, Carried(v, to), Sent(v.At(Other(to))));
  }

  lemma TakenFirst(v: View, to: Side)
    requires v.At(to).Some?
    ensures var s := v.At(to).value; Carried(v, to) == s.taken + (s.queue + v.Pending(to) + Payloads(v.Towards(to)))
  {
    hide Payloads;
  }

  /**
   Isolation, in every run whatever closes or breaks: the frames a stream's writer takes are a
   subsequence of the frames sent for that very stream at the other end, what it writes is a
   prefix of their bytes, and its queue keeps to its capacity.
   */
  lemma Isolation(es: seq<Event>, t: Tunnel, id: word32, to: Side)
    requires After(es) == Some(t) && t.accepted <= ID_SPACE && id !in t.elsewhere
    requires id in t.At(to).streams
    ensures Subsequence(t.At(to).streams[id].taken, Sent(Slot(t.At(Other(to)), id)))
    ensures t.At(to).streams[id].written <= Concat(t.At(to).streams[id].taken)
    ensures |t.At(to).streams[id].queue| <= to.Capacity()
  {
    hide Inv, After, ViewInv, Subsequence, Concat;
    Invariant(es, t);
    InvAt(t, id);
    ViewIsolation(ViewOf(t, id), to);
  }

  /** Every id given out is known: to this session, or as another's. */
  ghost predicate IdsKnown(t: Tunnel) {
    forall k {:trigger k % ID_SPACE} :: 0 < k <= t.accepted
        ==> k % ID_SPACE in t.relay.streams || k % ID_SPACE in t.elsewhere
  }

  lemma StepKnown(t: Tunnel, e: Event, t': Tunnel)
    requires IdsKnown(t) && Next(t, e) == Some(t')
    ensures IdsKnown(t')
  {
    if !e.Accept? && !e.AcceptElsewhere? {
      hide Next;
      SameIds(t, e, t');
    }
  }

  lemma {:induction false} RunKnown(es: seq<Event>, t: Tunnel)
    requires After(es) == Some(t)
    ensures IdsKnown(t)
  {
    hide Next, IdsKnown;
    if es == [] {
      assert IdsKnown(START) by { NoIdsYet(); }
    } else {
      var s := After(es[..|es| - 1]).value;
      RunKnown(es[..|es| - 1], s);
      StepKnown(s, es[|es| - 1], t);
    }
  }

  lemma NoIdsYet()
    ensures IdsKnown(START)
  {
  }

  /** In every run, the id the counter gives next is new exactly while fewer than 2^32 have been given. */
  lemma DistinctIds(es: seq<Event>, t: Tunnel)
    requires After(es) == Some(t)
    ensures t.NextId() !in t.relay.streams && t.NextId() !in t.elsewhere <==> t.accepted < ID_SPACE
  {
    hide After, ViewInv;
    if t.accepted < ID_SPACE {
      Invariant(es, t);
      NextIdFresh(t);
    } else {
      RunKnown(es, t);
      Wrapped(t.accepted);
    }
  }

  lemma Wrapped(n: nat)
    requires n >= ID_SPACE
    ensures (n + 1 - ID_SPACE) % ID_SPACE == (n + 1) % ID_SPACE
  {
  }

  /** From then on an accepted stream whose id this session knows replaces that stream. */
  lemma WrapReuses(es: seq<Event>, t: Tunnel)
    requires After(es) == Some(t) && t.accepted >= ID_SPACE && t.NextId() !in t.elsewhere
    ensures t.NextId() in t.relay.streams && Next(t, Accept).value.relay.streams[t.NextId()] == FRESH
  {
    hide After;
    DistinctIds(es, t);
  }

  /** One event at the end of a run. */
  lemma Extend(es: seq<Event>, e: Event, t: Tunnel)
    requires After(es) == Some(t)
    ensures After(es + [e]) == Next(t, e)
  {
    hide Next;
    assert (es + [e])[..|es|] == es;
  }

  // ---------------------------------------------------------------- what closing loses

  /** A tunnel with the one stream 1 and nothing underway to the relay. */
  function Pair(r: Stream, o: Stream, pending: Option<(word32, Bytes)>, wire: seq<Message>): Tunnel {
    Tunnel(End(map[1 := r], None), End(map[1 := o], pending), [], wire, true, 1, {})
  }

  lemma PairStep(r: Stream, o: Stream, pending: Option<(word32, Bytes)>, wire: seq<Message>, s: Stream)
    ensures Pair(r, o, pending, wire).WithStream(Relay, 1, s) == Pair(s, o, pending, wire)
    ensures Pair(r, o, pending, wire).WithStream(Origin, 1, s) == Pair(r, s, pending, wire)
  {
    assert map[1 := r][1 := s] == map[1 := s] && map[1 := o][1 := s] == map[1 := s];
  }

  lemma PairLocal(es: seq<Event>, r: Stream, o: Stream, wire: seq<Message>, side: Side, a: Action, s: Stream)
    requires After(es) == Some(Pair(r, o, None, wire))
    requires Act(if side.Relay? then r else o, a, true) == Some(s)
    ensures After(es + [Local(side, 1, a)]) ==
            Some(if side.Relay? then Pair(s, o, None, wire) else Pair(r, s, None, wire))
  {
    hide After, Act;
    Extend(es, Local(side, 1, a), Pair(r, o, None, wire));
    PairStep(r, o, None, wire, s);
  }

  lemma Opening()
    ensures exists es :: After(es) == Some(Pair(FRESH.(phase := Running), FRESH.(phase := Running), None, []))
  {
    hide After;
    var running := FRESH.(phase := Running);
    var t0 := Tunnel(End(map[1 := FRESH], None), End(map[], None), [], [], true, 1, {});
    var t1 := Tunnel(End(map[1 := running], None), End(map[], None), [], [Open(1)], true, 1, {});
    assert After([]) == Some(START) by { AfterNone(); }
    Extend([], Accept, START);
    assert [] + [Accept] == [Accept];
    assert START.relay.streams[1 := FRESH] == map[1 := FRESH];
    assert Next(START, Accept) == Some(t0);
    Extend([Accept], SendOpen(1), t0);
    assert map[1 := FRESH][1 := running] == map[1 := running];
    assert t0.toOrigin + [Open(1)] == [Open(1)];
    assert Next(t0, SendOpen(1)) == Some(t1);
    var es := [Accept] + [SendOpen(1)];
    Extend(es, Receive(Origin), t1);
    assert [Open(1)][1..] == [];
    assert Next(t1, Receive(Origin)) == Some(Pair(running, FRESH, None, []));
    Extend(es + [Receive(Origin)], Dial(1, true), Pair(running, FRESH, None, []));
    PairStep(running, FRESH, None, [], running);
  }

  lemma AfterNone()
    ensures After([]) == Some(START)
  {
  }

  /** A payload is read, sent, received and queued. */
  lemma Handover(es: seq<Event>, s: Stream)
    requires s == FRESH.(phase := Running) && After(es) == Some(Pair(s, s, None, []))
    ensures exists es' :: After(es') == Some(Pair(s.(sent := [[7]], read := [7]), s.(queue := [[7]]), None, []))
  {
    hide After;
    var r := s.(sent := [[7]], read := [7]);
    var es0 := ReadAndSend(es, s);
    Extend(es0, Receive(Origin), Pair(r, s, None, [Data(1, [7])]));
    assert [Data(1, [7])][1..] == [];
    assert Next(Pair(r, s, None, [Data(1, [7])]), Receive(Origin)) == Some(Pair(r, s, Some((1, [7])), []));
    var es1 := es0 + [Receive(Origin)];
    Extend(es1, Push(Origin), Pair(r, s, Some((1, [7])), []));
    PairStep(r, s, None, [], s.(queue := [[7]]));
    assert s.queue + [[7]] == [[7]];
    assert Next(Pair(r, s, Some((1, [7])), []), Push(Origin)) == Some(Pair(r, s.(queue := [[7]]), None, []));
  }

  lemma ReadAndSend(es: seq<Event>, s: Stream) returns (es': seq<Event>)
    requires s == FRESH.(phase := Running) && After(es) == Some(Pair(s, s, None, []))
    ensures After(es') == Some(Pair(s.(sent := [[7]], read := [7]), s, None, [Data(1, [7])]))
  {
    hide After;
    var r0, r1 := s.(read := [7], unsent := Some([7])), s.(sent := [[7]], read := [7]);
    assert s.read + [7] == [7] && s.sent + [[7]] == [[7]];
    PairLocal(es, s, s, [], Relay, Read([7]), r0);
    var es0 := es + [Local(Relay, 1, Read([7]))];
    Extend(es0, Send(Relay, 1), Pair(r0, s, None, []));
    PairStep(r0, s, None, [], r1);
    assert Pair(r1, s, None, []).toOrigin + [Data(1, [7])] == [Data(1, [7])];
    assert Next(Pair(r0, s, None, []), Send(Relay, 1)) == Some(Pair(r1, s, None, [Data(1, [7])]));
    es' := es0 + [Send(Relay, 1)];
  }

  /** The relay's client hangs up, and the relay sends its close. */
  lemma RelayLeaves(es: seq<Event>, r: Stream, o: Stream) returns (es': seq<Event>)
    requires r == FRESH.(phase := Running, sent := [[7]], read := [7])
    requires After(es) == Some(Pair(r, o, None, []))
    ensures After(es') ==
            Some(Pair(r.(phase := Ended, closed := true, writer := Stopped, registered := false), o, None, [Close(1)]))
  {
    hide After;
    var r0 := r.(phase := Ended, closed := true);
    PairLocal(es, r, o, [], Relay, ReadEnds, r0);
    var es0 := es + [Local(Relay, 1, ReadEnds)];
    PairLocal(es0, r0, o, [], Relay, WriterQuits, r0.(writer := Stopped));
    var es1 := es0 + [Local(Relay, 1, WriterQuits)];
    var r1 := r0.(writer := Stopped, registered := false);
    PairLocal(es1, r0.(writer := Stopped), o, [], Relay, Unregister, r1);
    var es2 := es1 + [Local(Relay, 1, Unregister)];
    Extend(es2, SendClose(Relay, 1), Pair(r1, o, None, []));
    assert Pair(r1, o, None, []).toOrigin + [Close(1)] == [Close(1)];
    assert Next(Pair(r1, o, None, []), SendClose(Relay, 1)) == Some(Pair(r1, o, None, [Close(1)]));
    es' := es2 + [SendClose(Relay, 1)];
  }

  /** The close overtakes the queued payload. */
  lemma HangUp(es: seq<Event>, r: Stream, o: Stream)
    requires r == FRESH.(phase := Running, sent := [[7]], read := [7]) && o == FRESH.(phase := Running, queue := [[7]])
    requires After(es) == Some(Pair(r, o, None, []))
    ensures exists es' :: After(es') == Some(Pair(
      r.(phase := Ended, closed := true, writer := Stopped, registered := false),
      o.(closed := true, registered := false, writer := Stopped), None, []))
  {
    hide After;
    var r1 := r.(phase := Ended, closed := true, writer := Stopped, registered := false);
    var es3 := RelayLeaves(es, r, o);
    Extend(es3, Receive(Origin), Pair(r1, o, None, [Close(1)]));
    assert [Close(1)][1..] == [];
    PairStep(r1, o, None, [], Closed(o));
    assert Next(Pair(r1, o, None, [Close(1)]), Receive(Origin)) == Some(Pair(r1, Closed(o), None, []));
    PairLocal(es3 + [Receive(Origin)], r1, Closed(o), [], Origin, WriterQuits, Closed(o).(writer := Stopped));
  }

  /**
   Closing is where bytes are lost: a run without any failure in which a payload and then the
   close reach the origin, whose writer notices the close first.
   */
  lemma QueuedDataLost()
    ensures exists es, t ::
              && After(es) == Some(t) && t.up && t.toOrigin == [] && t.origin.pending == None
              && t.accepted == 1 && 1 in t.relay.streams && 1 in t.origin.streams
              && t.relay.streams[1].sent == [[7]] && t.relay.streams[1].read == [7]
              && t.origin.streams[1].writer == Stopped && t.origin.streams[1].written == []
  {
    hide After;
    var s := FRESH.(phase := Running);
    Opening();
    var es :| After(es) == Some(Pair(s, s, None, []));
    Handover(es, s);
    var r, o := s.(sent := [[7]], read := [7]), s.(queue := [[7]]);
    var es1 :| After(es1) == Some(Pair(r, o, None, []));
    HangUp(es1, r, o);
    var es2 :| After(es2) == Some(Pair(r.(phase := Ended, closed := true, writer := Stopped, registered := false),
                                       o.(closed := true, registered := false, writer := Stopped), None, []));
  }

  // ---------------------------------------------------------------- an open stream when ids come again

  /** n ids go to other sessions. */
  lemma {:induction false} Elsewhere(es: seq<Event>, t: Tunnel, n: nat) returns (es': seq<Event>, t': Tunnel)
    requires After(es) == Some(t) && 1 <= t.accepted && t.accepted + n <= ID_SPACE && 1 !in t.elsewhere
    ensures After(es') == Some(t') && t'.accepted == t.accepted + n && 1 !in t'.elsewhere
    ensures t' == t.(accepted := t'.accepted, elsewhere := t'.elsewhere)
  {
    hide After;
    if n == 0 {
      es', t' := es, t;
    } else {
      var es1, t1 := Elsewhere(es, t, n - 1);
      Extend(es1, AcceptElsewhere, t1);
      NotFirst(t1.accepted);
      es', t' := es1 + [AcceptElsewhere], t1.(accepted := t1.accepted + 1, elsewhere := t1.elsewhere + {t1.NextId()});
    }
  }

  lemma NotFirst(accepted: nat)
    requires 1 <= accepted < ID_SPACE
    ensures (accepted + 1) % ID_SPACE != 1
  {
  }

  /**
   A run in which the id that comes again is that of a stream still open at both ends: accepting it puts a
   fresh stream in its place, at whose other end there is now a payload that it never sent.
   */
  lemma OpenStreamReplaced()
    ensures exists es, t, t' ::
      && After(es) == Some(t) && After(es + [Accept]) == Some(t') && t.accepted == ID_SPACE
      && 1 in t.relay.streams && 1 in t.origin.streams && t.NextId() == 1
      && t.relay.streams[1].phase == Running && !t.relay.streams[1].closed && t.relay.streams[1].sent == [[7]]
      && t.origin.streams[1].phase == Running && !t.origin.streams[1].closed
      && t'.relay.streams[1] == FRESH && t'.origin == t.origin && t.origin.streams[1].queue == [[7]]
      && !Subsequence(Carried(ViewOf(t', 1), Origin), Sent(ViewOf(t', 1).relay))
  {
    hide After;
    var s := FRESH.(phase := Running);
    Opening();
    var es0 :| After(es0) == Some(Pair(s, s, None, []));
    Handover(es0, s);
    var r, o := s.(sent := [[7]], read := [7]), s.(queue := [[7]]);
    var es1 :| After(es1) == Some(Pair(r, o, None, []));
    var es, t := Elsewhere(es1, Pair(r, o, None, []), ID_SPACE - 1);
    Extend(es, Accept, t);
    var t' := t.WithStream(Relay, 1, FRESH).(accepted := t.accepted + 1);
    assert t.NextId() == 1;
    assert After(es + [Accept]) == Some(t');
    StrayPayload(t');
  }

  lemma StrayPayload(t: Tunnel)
    requires 1 in t.relay.streams && t.relay.streams[1] == FRESH && t.toOrigin == [] && t.origin.pending.None?
    requires 1 in t.origin.streams && t.origin.streams[1].taken == [] && t.origin.streams[1].queue == [[7]]
    ensures !Subsequence(Carried(ViewOf(t, 1), Origin), Sent(ViewOf(t, 1).relay))
  {
    var c := Carried(ViewOf(t, 1), Origin);
    assert c == [[7]];
    assert c != [] && Sent(ViewOf(t, 1).relay) == [];
  }
}
