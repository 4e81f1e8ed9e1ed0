/**
 The dual relay (crates/webgate-transport/src/dual_failover.rs), one whole request, start,
 stop or switchback probe at a time.
 */
module DualRelay {
  import opened Wrappers
  import opened Words
  import opened TransportFailover

  const GENERAL_FAILURE: byte := 0x01
  const REFUSED: byte := 0x05

  /** One try at an upstream: its reply code and latency, or an I/O error. */
  datatype Attempt = Answered(code: byte, latency: word64) | Failed

  datatype StartError = AlreadyStarted | AllUpstreamsUnavailable | ListenerBind

  /** listening: the listener thread's handle is held. */
  datatype Dual = Dual(
    state: TransportState,
    role: Option<Role>,
    primary: Health,
    fallback: Health,
    lastFailover: word64,
    listening: bool)

  const NEW_DUAL := Dual(Stopped, None, UNPROBED, UNPROBED, 0, false)

  predicate Serving(state: TransportState) {
    state == Ready || state == Degraded
  }

  function Missed(h: Health, now: word64): Health {
    h.(failures := SaturatingAdd1(h.failures), responsive := false, lastProbe := now)
  }

  function Served(h: Health, latency: word64, now: word64): Health {
    Health(0, latency, true, now)
  }

  /** A primary that answered slowly is counted like one that failed. */
  function Timed(config: Config, h: Health, latency: word64, now: word64): Health {
    if config.LatencyHealthy(latency) then Served(h, latency, now)
    else Health(SaturatingAdd1(h.failures), latency, h.responsive, now)
  }

  /** A request that has passed the destination policy, on the role it found. */
  function OnPrimary(config: Config, d: Dual, primary: Attempt, fallback: Attempt, now: word64): (Dual, byte) {
    match primary
    case Answered(code, latency) => (d.(primary := Timed(config, d.primary, latency, now)), code)
    case Failed =>
      var h := Missed(d.primary, now);
      var e := d.(primary := h);
      var f := if h.failures >= config.Limit()
               then e.(role := Some(Fallback), state := Degraded, lastFailover := now) else e;
      match fallback
      case Answered(code, latency) => (f.(fallback := Served(f.fallback, latency, now)), code)
      case Failed => (f.(fallback := Missed(f.fallback, now), state := Offline, role := None), REFUSED)
  }

  function OnFallback(d: Dual, fallback: Attempt, now: word64): (Dual, byte) {
    match fallback
    case Answered(code, latency) => (d.(fallback := Served(d.fallback, latency, now)), code)
    case Failed => (d.(fallback := Missed(d.fallback, now), state := Offline, role := None), REFUSED)
  }

  /** refusal: the reply to a malformed, unsupported or disallowed request. */
  function Request(config: Config, d: Dual, refusal: Option<byte>, primary: Attempt, fallback: Attempt, now: word64)
    : (Dual, byte)
  {
    if !Serving(d.state) then (d, GENERAL_FAILURE)
    else if refusal.Some? then (d, refusal.value)
    else match d.role
      case Some(Primary) => OnPrimary(config, d, primary, fallback, now)
      case Some(Fallback) => OnFallback(d, fallback, now)
      case None => (d, GENERAL_FAILURE)
  }

  /** Both upstreams are probed; listens: whether the local port could be bound. */
  function Started(config: Config, d: Dual, primaryUp: bool, fallbackUp: bool, listens: bool)
    : (Dual, Option<StartError>)
  {
    if d.listening || d.state == Starting || Serving(d.state) then (d, Some(AlreadyStarted))
    else if !primaryUp && !fallbackUp then (d.(state := Offline, role := None), Some(AllUpstreamsUnavailable))
    else
      var e := if primaryUp then d.(primary := d.primary.(responsive := true, failures := 0))
               else d.(fallback := d.fallback.(responsive := true, failures := 0),
                       primary := d.primary.(responsive := false, failures := config.maxFailures));
      if !listens then (e.(state := Offline), Some(ListenerBind))
      else if primaryUp then (e.(role := Some(Primary), state := Ready, listening := true), None)
      else (e.(role := Some(Fallback), state := Degraded, listening := true), None)
  }

  function Switchback(config: Config, d: Dual, primaryUp: bool, latency: word64, now: word64): (Dual, bool) {
    if d.role != Some(Fallback) || SaturatingSub(now, d.lastFailover) < config.cooldown then (d, false)
    else if primaryUp then
      (d.(primary := Served(d.primary, latency, now), role := Some(Primary), state := Ready), true)
    else (d.(primary := Missed(d.primary, now)), false)
  }

  datatype DualEvent =
    | StartProxy(primaryUp: bool, fallbackUp: bool, listens: bool)
    | Client(refusal: Option<byte>, primary: Attempt, fallback: Attempt, now: word64)
    | ProbePrimary(primaryUp: bool, latency: word64, now: word64)
    | Stop
    | ListenerLost

  function DualStep(config: Config, d: Dual, e: DualEvent): Dual {
    match e
    case StartProxy(primaryUp, fallbackUp, listens) => Started(config, d, primaryUp, fallbackUp, listens).0
    case Client(refusal, primary, fallback, now) => Request(config, d, refusal, primary, fallback, now).0
    case ProbePrimary(primaryUp, latency, now) => Switchback(config, d, primaryUp, latency, now).0
    case Stop => d.(listening := false, role := None, state := Stopped)
    case ListenerLost => if d.listening then d.(state := Offline) else d
  }

  function DualRun(config: Config, d: Dual, es: seq<DualEvent>): Dual {
    if es == [] then d else DualStep(config, DualRun(config, d, es[..|es| - 1]), es[|es| - 1])
  }

  // ---------------------------------------------------------------- the transport

  class DualRelayFailoverTransport {
    const config: Config
    var state: TransportState
    var activeRole: Option<Role>
    var primaryHealth: Health
    var fallbackHealth: Health
    var lastFailoverEpochSec: word64
    var listenerHandle: bool

    function Abstract(): Dual
      reads this
    {
      Dual(state, activeRole, primaryHealth, fallbackHealth, lastFailoverEpochSec, listenerHandle)
    }

    constructor (config: Config)
      ensures Abstract() == NEW_DUAL && this.config == config
    {
      this.config := config;
      state, activeRole, primaryHealth, fallbackHealth := Stopped, None, UNPROBED, UNPROBED;
      lastFailoverEpochSec, listenerHandle := 0, false;
    }

    method Start(primaryUp: bool, fallbackUp: bool, listens: bool) returns (error: Option<StartError>)
      modifies this
      ensures (Abstract(), error) == Started(config, old(Abstract()), primaryUp, fallbackUp, listens)
    {
      if listenerHandle || state == Starting || state == Ready || state == Degraded {
        return Some(AlreadyStarted);
      }
      state := Starting;
      var initial: Role;
      if primaryUp {
        primaryHealth := primaryHealth.(responsive := true, failures := 0);
        initial := Primary;
      } else if fallbackUp {
        fallbackHealth := fallbackHealth.(responsive := true, failures := 0);
        primaryHealth := primaryHealth.(responsive := false, failures := config.maxFailures);
        initial := Fallback;
      } else {
        state := Offline;
        activeRole := None;
        return Some(AllUpstreamsUnavailable);
      }
      if !listens {
        state := Offline;
        return Some(ListenerBind);
      }
      activeRole := Some(initial);
      state := if initial == Primary then Ready else Degraded;
      listenerHandle := true;
      return None;
    }

    method HandleFailoverClient(refusal: Option<byte>, primary: Attempt, fallback: Attempt, now: word64)
      returns (reply: byte)
      modifies this
      ensures (Abstract(), reply) == Request(config, old(Abstract()), refusal, primary, fallback, now)
    {
      if state != Ready && state != Degraded {
        return GENERAL_FAILURE;
      }
      if refusal.Some? {
        return refusal.value;
      }
      if activeRole == None {
        return GENERAL_FAILURE;
      }
      if activeRole == Some(Primary) {
        if primary.Answered? {
          var highLatency := config.latencyThreshold > 0 && primary.latency > config.latencyThreshold;
          primaryHealth := primaryHealth.(latency := primary.latency, lastProbe := now);
          if highLatency {
            primaryHealth := primaryHealth.(failures := SaturatingAdd1(primaryHealth.failures));
          } else {
            primaryHealth := primaryHealth.(failures := 0, responsive := true);
          }
          return primary.code;
        }
        primaryHealth := primaryHealth.(
          failures := SaturatingAdd1(primaryHealth.failures), responsive := false, lastProbe := now);
        if primaryHealth.failures >= config.Limit() {
          activeRole := Some(Fallback);
          state := Degraded;
          lastFailoverEpochSec := now;
        }
      }
      if fallback.Answered? {
        fallbackHealth := Health(0, fallback.latency, true, now);
        return fallback.code;
      }
      fallbackHealth := fallbackHealth.(
        failures := SaturatingAdd1(fallbackHealth.failures), responsive := false, lastProbe := now);
      state := Offline;
      activeRole := None;
      return REFUSED;
    }

    method ProbeAndMaybeSwitchback(primaryUp: bool, latency: word64, now: word64) returns (switched: bool)
      modifies this
      ensures (Abstract(), switched) == Switchback(config, old(Abstract()), primaryUp, latency, now)
    {
      if activeRole != Some(Fallback) {
        return false;
      }
      if SaturatingSub(now, lastFailoverEpochSec) < config.cooldown {
        return false;
      }
      if primaryUp {
        primaryHealth := Health(0, latency, true, now);
        activeRole := Some(Primary);
        state := Ready;
        return true;
      }
      primaryHealth := primaryHealth.(
        failures := SaturatingAdd1(primaryHealth.failures), responsive := false, lastProbe := now);
      return false;
    }

    method StopInternal()
      modifies this
      ensures Abstract() == DualStep(config, old(Abstract()), Stop)
    {
      listenerHandle := false;
      activeRole := None;
      state := Stopped;
    }
  }

  // ---------------------------------------------------------------- safety over runs

  ghost predicate Consistent(d: Dual) {
    && (d.state == Ready ==> d.role == Some(Primary))
    && (d.state == Degraded ==> d.role == Some(Fallback))
    && (d.role.Some? ==> d.listening && (d.state == Offline || Serving(d.state)))
    && d.state != Starting
  }

  lemma StepConsistent(config: Config, d: Dual, e: DualEvent)
    requires Consistent(d)
    ensures Consistent(DualStep(config, d, e))
  {
  }

  /** Ready means the primary is active and Degraded the fallback, in every run. */
  lemma {:induction false} RunConsistent(config: Config, es: seq<DualEvent>)
    ensures Consistent(DualRun(config, NEW_DUAL, es))
  {
    hide Consistent, DualStep;
    if es == [] {
      assert Consistent(NEW_DUAL) by { NewConsistent(); }
    } else {
      RunConsistent(config, es[..|es| - 1]);
      StepConsistent(config, DualRun(config, NEW_DUAL, es[..|es| - 1]), es[|es| - 1]);
    }
  }

  lemma NewConsistent()
    ensures Consistent(NEW_DUAL)
  {
  }

  /**
   Fail closed: offline and not on the fallback nothing changes, whatever clients and probes come, until start
   or stop.
   */
  lemma {:induction false} OfflineAbsorbs(config: Config, d: Dual, es: seq<DualEvent>)
    requires d.state == Offline && d.role != Some(Fallback)
    requires forall e <- es :: !e.StartProxy? && !e.Stop?
    ensures DualRun(config, d, es) == d
    ensures forall refusal, primary, fallback, now ::
              Request(config, DualRun(config, d, es), refusal, primary, fallback, now) == (d, GENERAL_FAILURE)
  {
    if es != [] {
      assert es[|es| - 1] in es && forall e <- es[..|es| - 1] :: e in es;
      OfflineAbsorbs(config, d, es[..|es| - 1]);
    }
  }

  /**
   Misses of the primary since it last answered in time, was started or probed well; maxFailures at a start
   without it.
   */
  function Misses(config: Config, es: seq<DualEvent>): nat {
    if es == [] then 0
    else
      var before, e := es[..|es| - 1], es[|es| - 1];
      var d, n := DualRun(config, NEW_DUAL, before), Misses(config, before);
      match e
      case StartProxy(primaryUp, fallbackUp, listens) =>
        if d.listening then n else if primaryUp then 0 else if fallbackUp then config.maxFailures else n
      case Client(refusal, primary, fallback, now) =>
        if d.state != Ready || refusal.Some? then n
        else if primary.Answered? && config.LatencyHealthy(primary.latency) then 0
        else n + 1
      case ProbePrimary(primaryUp, latency, now) =>
        if d.role != Some(Fallback) || (0 < config.cooldown && now < d.lastFailover + config.cooldown) then n
        else if primaryUp then 0
        else n + 1
      case Stop => n
      case ListenerLost => n
  }

  /** The primary's counter is that history, in 32 bits. */
  lemma {:induction false} CounterIsMisses(config: Config, es: seq<DualEvent>)
    ensures DualRun(config, NEW_DUAL, es).primary.failures
         == if Misses(config, es) < 0xFFFF_FFFF then Misses(config, es) else 0xFFFF_FFFF
  {
    if es != [] {
      RunConsistent(config, es[..|es| - 1]);
      CounterIsMisses(config, es[..|es| - 1]);
    }
  }

  /**
   The primary is left for the fallback only by a request: one that passed the policy, that the
   primary failed and the fallback answered, and whose miss brought the count to the limit.
   */
  lemma FallbackOnlyAtLimit(config: Config, es: seq<DualEvent>, e: DualEvent)
    requires DualRun(config, NEW_DUAL, es).role == Some(Primary)
    ensures DualStep(config, DualRun(config, NEW_DUAL, es), e).role == Some(Fallback) <==>
            && e.Client? && DualRun(config, NEW_DUAL, es).state == Ready && e.refusal.None?
            && e.primary.Failed? && e.fallback.Answered?
            && Misses(config, es) + 1 >= config.Limit()
  {
    RunConsistent(config, es);
    CounterIsMisses(config, es);
  }

  /** When a request last found the primary's misses at the limit, whether or not the fallback then answered. */
  function LastFailoverTime(config: Config, es: seq<DualEvent>): word64 {
    if es == [] then 0
    else
      var before, e := es[..|es| - 1], es[|es| - 1];
      if e.Client? && DualRun(config, NEW_DUAL, before).state == Ready && e.refusal.None? && e.primary.Failed?
         && Misses(config, before) + 1 >= config.Limit()
      then e.now else LastFailoverTime(config, before)
  }

  lemma {:induction false} FailoverTimeKept(config: Config, es: seq<DualEvent>)
    ensures DualRun(config, NEW_DUAL, es).lastFailover == LastFailoverTime(config, es)
  {
    if es != [] {
      var before := es[..|es| - 1];
      FailoverTimeKept(config, before);
      RunConsistent(config, before);
      CounterIsMisses(config, before);
    }
  }

  /** The fallback is left for the primary exactly by a good probe a whole cooldown after the last failover. */
  lemma BackOnlyAfterCooldown(config: Config, es: seq<DualEvent>, e: DualEvent)
    requires DualRun(config, NEW_DUAL, es).role == Some(Fallback)
    ensures DualStep(config, DualRun(config, NEW_DUAL, es), e).role == Some(Primary) <==>
            && e.ProbePrimary? && e.primaryUp
            && (config.cooldown == 0 || e.now >= LastFailoverTime(config, es) + config.cooldown)
  {
    RunConsistent(config, es);
    FailoverTimeKept(config, es);
  }

  /**
   From a healthy primary, requests that fail on it and are answered by the fallback: the limit's is the one
   that switches.
   */
  lemma {:induction false} FailuresSwitch(config: Config, d: Dual, es: seq<DualEvent>)
    requires d.state == Ready && d.role == Some(Primary) && d.primary.failures == 0 && |es| <= config.Limit()
    requires forall e <- es :: e.Client? && e.refusal.None? && e.primary.Failed? && e.fallback.Answered?
    ensures var t := DualRun(config, d, es);
      if |es| < config.Limit() then t.state == Ready && t.role == Some(Primary) && t.primary.failures == |es|
      else t.state == Degraded && t.role == Some(Fallback) && t.lastFailover == es[|es| - 1].now
  {
    if es != [] {
      assert es[|es| - 1] in es && forall e <- es[..|es| - 1] :: e in es;
      FailuresSwitch(config, d, es[..|es| - 1]);
    }
  }

  /** A role is given up for none only by a stop or a request that found the fallback failing. */
  lemma RoleLost(config: Config, es: seq<DualEvent>, e: DualEvent)
    requires DualRun(config, NEW_DUAL, es).role.Some?
    ensures var d := DualRun(config, NEW_DUAL, es);
      DualStep(config, d, e).role == None <==>
        || e.Stop?
        || (e.Client? && Serving(d.state) && e.refusal.None? && e.fallback.Failed?
            && (d.role == Some(Primary) ==> e.primary.Failed?))
  {
    RunConsistent(config, es);
  }

  /** A slow primary is counted but never left: however many answers come late, no request changes the role. */
  lemma {:induction false} SlowPrimaryStays(config: Config, d: Dual, es: seq<DualEvent>)
    requires d.state == Ready && d.role == Some(Primary)
    requires forall e <- es :: e.Client? && e.primary.Answered?
    ensures DualRun(config, d, es).state == Ready && DualRun(config, d, es).role == Some(Primary)
  {
    if es != [] {
      assert es[|es| - 1] in es && forall e <- es[..|es| - 1] :: e in es;
      SlowPrimaryStays(config, d, es[..|es| - 1]);
    }
  }

  /** The single-provider controller does leave it: the two disagree on a limit's worth of slow answers. */
  lemma {:induction false} SlowPrimaryLeft(config: Config, st: State, n: nat, latency: word64, now: word64)
    requires st.active == Some(Primary) && st.primary.failures == 0 && n < config.Limit()
    requires !config.LatencyHealthy(latency)
    ensures var slow := seq(n, i => Observe(true, latency, now, true, true));
      && Run(config, st, slow).active == Some(Primary) && Run(config, st, slow).primary.failures == n
      && (n + 1 == config.Limit() ==>
            Step(config, Run(config, st, slow), Observe(true, latency, now, true, true)).active == Some(Fallback))
  {
    var slow := seq(n, i => Observe(true, latency, now, true, true));
    if n > 0 {
      SlowPrimaryLeft(config, st, n - 1, latency, now);
      assert slow[..n - 1] == seq(n - 1, i => Observe(true, latency, now, true, true));
    }
  }

  /**
   Without a start or stop, Offline is left exactly by a good probe on the fallback, a cooldown after the
   last failover: the probe does not ask whether the listener still stands.
   */
  lemma OfflineLeft(config: Config, es: seq<DualEvent>, e: DualEvent)
    requires DualRun(config, NEW_DUAL, es).state == Offline && !e.StartProxy? && !e.Stop?
    ensures DualStep(config, DualRun(config, NEW_DUAL, es), e).state != Offline <==>
            && DualRun(config, NEW_DUAL, es).role == Some(Fallback)
            && e.ProbePrimary? && e.primaryUp
            && (config.cooldown == 0 || e.now >= LastFailoverTime(config, es) + config.cooldown)
  {
    RunConsistent(config, es);
    FailoverTimeKept(config, es);
  }

  /** Such a run: with its listener lost on the fallback, a good probe reports Ready again. */
  lemma LostListenerRevived(config: Config, latency: word64, now: word64)
    requires now >= config.cooldown
    ensures var es := [StartProxy(false, true, true), ListenerLost];
      && DualRun(config, NEW_DUAL, es).state == Offline
      && DualStep(config, DualRun(config, NEW_DUAL, es), ProbePrimary(true, latency, now)).state == Ready
  {
    var es := [StartProxy(false, true, true), ListenerLost];
    assert es[..1] == [StartProxy(false, true, true)] && es[..1][..0] == [];
    assert DualRun(config, NEW_DUAL, es[..1]) == DualStep(config, NEW_DUAL, es[0]);
  }

  // ---------------------------------------------------------------- the cooldown

  /** The time of the last request or probe. */
  function DualClock(es: seq<DualEvent>): word64 {
    if es == [] then 0 else DualTime(es[|es| - 1], DualClock(es[..|es| - 1]))
  }

  function DualTime(e: DualEvent, clock: word64): word64 {
    match e
    case Client(refusal, primary, fallback, now) => now
    case ProbePrimary(primaryUp, latency, now) => now
    case _ => clock
  }

  /** The clock never goes back. */
  ghost predicate DualAscends(es: seq<DualEvent>) {
    es != [] ==> DualAscends(es[..|es| - 1]) && DualClock(es[..|es| - 1]) <= DualClock(es)
  }

  predicate FailsOver(d: Dual, e: DualEvent, d': Dual) {
    e.Client? && d.role == Some(Primary) && d'.role == Some(Fallback)
  }

  /** The times of a run's failovers: requests that take it from the primary to the fallback. */
  function DualSwitches(config: Config, es: seq<DualEvent>): seq<word64> {
    if es == [] then []
    else
      var before, e := es[..|es| - 1], es[|es| - 1];
      DualSwitches(config, before)
      + if FailsOver(DualRun(config, NEW_DUAL, before), e, DualRun(config, NEW_DUAL, es)) then [e.now] else []
  }

  /** A start that makes the primary active less than a cooldown after the last failover. */
  predicate EarlyStart(config: Config, times: seq<word64>, d: Dual, clock: word64, e: DualEvent) {
    && e.StartProxy? && e.primaryUp && e.listens && Started(config, d, true, e.fallbackUp, true).1 == None
    && |times| > 0 && clock < times[|times| - 1] + config.cooldown
  }

  /** No start of the run is early. */
  ghost predicate NoEarlyStart(config: Config, es: seq<DualEvent>) {
    es != [] ==>
      var before := es[..|es| - 1];
      NoEarlyStart(config, before)
      && !EarlyStart(config, DualSwitches(config, before), DualRun(config, NEW_DUAL, before), DualClock(before),
          es[|es| - 1])
  }

  /** Failovers are a cooldown apart, and so is a primary that is active again from the last of them. */
  ghost predicate DualCooled(config: Config, times: seq<word64>, d: Dual, clock: word64) {
    && Spaced(times, config.cooldown)
    && (|times| > 0 ==> d.lastFailover >= times[|times| - 1] && clock >= times[|times| - 1])
    && (|times| > 0 && d.role == Some(Primary) ==> clock >= times[|times| - 1] + config.cooldown)
  }

  lemma SpacedMore(times: seq<word64>, gap: int, now: word64)
    requires Spaced(times, gap) && (|times| > 0 ==> now >= times[|times| - 1] + gap)
    ensures Spaced(times + [now], gap)
  {
  }

  lemma ClientCooled(config: Config, times: seq<word64>, d: Dual, clock: word64, e: DualEvent)
    requires DualCooled(config, times, d, clock) && clock <= DualTime(e, clock) && e.Client?
    ensures var d' := DualStep(config, d, e);
      DualCooled(config, times + if FailsOver(d, e, d') then [e.now] else [], d', DualTime(e, clock))
  {
    hide Request, Spaced;
    ClientTimes(config, d, e.refusal, e.primary, e.fallback, e.now);
    if FailsOver(d, e, DualStep(config, d, e)) {
      SpacedMore(times, config.cooldown, e.now);
    } else {
      assert times + [] == times;
    }
  }

  lemma StepCooled(config: Config, times: seq<word64>, d: Dual, clock: word64, e: DualEvent)
    requires Consistent(d) && DualCooled(config, times, d, clock) && clock <= DualTime(e, clock)
    requires !EarlyStart(config, times, d, clock, e)
    ensures var d' := DualStep(config, d, e);
      DualCooled(config, times + if FailsOver(d, e, d') then [e.now] else [], d', DualTime(e, clock))
  {
    hide Request, Spaced;
    if e.Client? {
      ClientCooled(config, times, d, clock, e);
    } else {
      assert times + [] == times;
    }
  }

  /** What a request can do to the role and the failover time. */
  lemma ClientTimes(config: Config, d: Dual, refusal: Option<byte>, primary: Attempt, fallback: Attempt, now: word64)
    ensures var d' := Request(config, d, refusal, primary, fallback, now).0;
      && (d'.role == d.role || d'.role == None || (d.role == Some(Primary) && d'.role == Some(Fallback)))
      && (d'.lastFailover == d.lastFailover || d'.lastFailover == now)
      && (d.role == Some(Primary) && d'.role == Some(Fallback) ==> d'.lastFailover == now)
  {
  }

  lemma {:induction false} RunCooled(config: Config, es: seq<DualEvent>)
    requires DualAscends(es) && NoEarlyStart(config, es)
    ensures DualCooled(config, DualSwitches(config, es), DualRun(config, NEW_DUAL, es), DualClock(es))
  {
    hide DualCooled, DualStep, EarlyStart, Consistent, FailsOver;
    if es == [] {
      assert DualCooled(config, [], NEW_DUAL, 0) by { NothingCooled(config); }
    } else {
      var before, e := es[..|es| - 1], es[|es| - 1];
      RunCooled(config, before);
      RunConsistent(config, before);
      StepCooled(config, DualSwitches(config, before), DualRun(config, NEW_DUAL, before), DualClock(before), e);
    }
  }

  lemma NothingCooled(config: Config)
    ensures DualCooled(config, [], NEW_DUAL, 0)
  {
  }

  /** With a clock that never goes back and no early start, k failovers take at least k - 1 cooldowns. */
  lemma FailoversSpan(config: Config, es: seq<DualEvent>)
    requires DualAscends(es) && NoEarlyStart(config, es)
    ensures var times := DualSwitches(config, es);
      && Spaced(times, config.cooldown)
      && (|times| > 0 ==> times[|times| - 1] - times[0] >= (|times| - 1) * config.cooldown)
  {
    hide DualAscends, NoEarlyStart;
    RunCooled(config, es);
    if |DualSwitches(config, es)| > 0 {
      SpacedSpan(DualSwitches(config, es), config.cooldown);
    }
  }

  /** No failover of any continuation without another start comes too soon after the last. */
  ghost predicate StaysSpaced(config: Config, es: seq<DualEvent>) {
    forall more: seq<DualEvent> | DualAscends(es + more) && (forall e <- more :: !e.StartProxy?) ::
      Spaced(DualSwitches(config, es + more), config.cooldown)
  }

  lemma OneMoreEvent(config: Config, es: seq<DualEvent>, e: DualEvent)
    ensures var d, d' := DualRun(config, NEW_DUAL, es), DualRun(config, NEW_DUAL, es + [e]);
      && d' == DualStep(config, d, e) && DualClock(es + [e]) == DualTime(e, DualClock(es))
      && DualSwitches(config, es + [e]) == DualSwitches(config, es) + (if FailsOver(d, e, d') then [e.now] else [])
      && (DualAscends(es + [e]) <==> DualAscends(es) && DualClock(es) <= DualTime(e, DualClock(es)))
  {
    assert (es + [e])[..|es|] == es;
  }

  lemma {:induction false} NoStartNoEarly(config: Config, es: seq<DualEvent>, more: seq<DualEvent>)
    requires NoEarlyStart(config, es) && forall e <- more :: !e.StartProxy?
    ensures NoEarlyStart(config, es + more)
  {
    var all := es + more;
    if more == [] {
      assert all == es;
    } else {
      var n := |more| - 1;
      assert more[n] in more && forall e <- more[..n] :: e in more;
      NoStartNoEarly(config, es, more[..n]);
      assert all[..|all| - 1] == es + more[..n];
    }
  }

  /** n requests that fail on the primary and are answered by the fallback, at one instant. */
  function Misfortunes(n: nat, now: word64): (es: seq<DualEvent>)
    ensures |es| == n && forall e <- es :: !e.StartProxy?
  {
    if n == 0 then [] else Misfortunes(n - 1, now) + [Client(None, Failed, Answered(0, 0), now)]
  }

  /** On a fresh primary, the limit's failed request is a failover, at its own time. */
  lemma {:induction false} MisfortunesSwitch(config: Config, es: seq<DualEvent>, n: nat, now: word64)
    requires DualRun(config, NEW_DUAL, es).state == Ready && DualRun(config, NEW_DUAL, es).role == Some(Primary)
    requires DualRun(config, NEW_DUAL, es).primary.failures == 0
    requires n <= config.Limit() && DualAscends(es) && DualClock(es) <= now
    ensures var all := es + Misfortunes(n, now); var d := DualRun(config, NEW_DUAL, all);
      && DualAscends(all) && DualClock(all) <= now
      && (n < config.Limit() ==> d.state == Ready && d.role == Some(Primary) && d.primary.failures == n)
      && DualSwitches(config, all) == DualSwitches(config, es) + if n < config.Limit() then [] else [now]
  {
    hide DualRun, DualSwitches, DualClock, DualAscends;
    if n == 0 {
      assert es + Misfortunes(0, now) == es && DualSwitches(config, es) + [] == DualSwitches(config, es);
    } else {
      MisfortunesSwitch(config, es, n - 1, now);
      var before, e := es + Misfortunes(n - 1, now), Client(None, Failed, Answered(0, 0), now);
      assert es + Misfortunes(n, now) == before + [e];
      assert DualSwitches(config, es) + [] == DualSwitches(config, es);
      OneMoreEvent(config, before, e);
    }
  }

  /**
   A start keeps the cooldown exactly when it does not make the primary active within a cooldown of the last
   failover.
   */
  lemma StartStaysSpaced(config: Config, es: seq<DualEvent>, primaryUp: bool, fallbackUp: bool, listens: bool)
    requires DualAscends(es) && NoEarlyStart(config, es)
    ensures var start := StartProxy(primaryUp, fallbackUp, listens);
      StaysSpaced(config, es + [start]) <==>
      !EarlyStart(config, DualSwitches(config, es), DualRun(config, NEW_DUAL, es), DualClock(es), start)
  {
    var start := StartProxy(primaryUp, fallbackUp, listens);
    var es' := es + [start];
    assert es'[..|es'| - 1] == es;
    if EarlyStart(config, DualSwitches(config, es), DualRun(config, NEW_DUAL, es), DualClock(es), start) {
      EarlyStartBreaks(config, es, start);
    } else {
      forall more: seq<DualEvent> | DualAscends(es' + more) && (forall e <- more :: !e.StartProxy?)
        ensures Spaced(DualSwitches(config, es' + more), config.cooldown)
      {
        NoStartNoEarly(config, es', more);
        FailoversSpan(config, es' + more);
      }
    }
  }

  lemma EarlyStartBreaks(config: Config, es: seq<DualEvent>, start: DualEvent)
    requires DualAscends(es)
    requires EarlyStart(config, DualSwitches(config, es), DualRun(config, NEW_DUAL, es), DualClock(es), start)
    ensures !StaysSpaced(config, es + [start])
  {
    hide DualRun, DualSwitches, DualClock, DualAscends, Misfortunes;
    var now, times := DualClock(es), DualSwitches(config, es);
    OneMoreEvent(config, es, start);
    assert times + [] == times;
    MisfortunesSwitch(config, es + [start], config.Limit(), now);
    var bad := DualSwitches(config, es + [start] + Misfortunes(config.Limit(), now));
    assert bad == times + [now];
    assert bad[|times|] < bad[|times| - 1] + config.cooldown;
  }

  // ---------------------------------------------------------------- what is tried, and what clients are told

  predicate Cooled(config: Config, d: Dual, now: word64) {
    now >= d.lastFailover + config.cooldown || config.cooldown == 0
  }

  /** The try that an event makes at one of the upstreams. */
  function Tried(config: Config, d: Dual, e: DualEvent, role: Role): Option<Attempt> {
    match e
    case Client(refusal, primary, fallback, now) =>
      if !Serving(d.state) || refusal.Some? then None
      else if role == Primary then (if d.role == Some(Primary) then Some(primary) else None)
      else if d.role == Some(Fallback) || (d.role == Some(Primary) && primary.Failed?) then Some(fallback)
      else None
    case ProbePrimary(primaryUp, latency, now) =>
      if role == Primary && d.role == Some(Fallback) && Cooled(config, d, now)
      then Some(if primaryUp then Answered(0, latency) else Failed) else None
    case _ => None
  }

  function HealthOf(d: Dual, role: Role): Health {
    match role
    case Primary => d.primary
    case Fallback => d.fallback
  }

  /** The latency of the last answer of an upstream. */
  function LastLatency(config: Config, es: seq<DualEvent>, role: Role): word64 {
    if es == [] then 0
    else match Tried(config, DualRun(config, NEW_DUAL, es[..|es| - 1]), es[|es| - 1], role)
      case Some(Answered(_, latency)) => latency
      case _ => LastLatency(config, es[..|es| - 1], role)
  }

  /** The time of the last try at an upstream. */
  function LastTry(config: Config, es: seq<DualEvent>, role: Role): word64 {
    if es == [] then 0
    else if Tried(config, DualRun(config, NEW_DUAL, es[..|es| - 1]), es[|es| - 1], role).Some?
    then DualTime(es[|es| - 1], 0)
    else LastTry(config, es[..|es| - 1], role)
  }

  /** An answer that is too slow to count for the primary. */
  predicate Slow(config: Config, a: Attempt, role: Role) {
    a.Answered? && role == Primary && config.latencyThreshold > 0 && a.latency > config.latencyThreshold
  }

  /** Did the last thing learnt of an upstream speak for it? A try, or a start; slow answers say nothing. */
  function Responds(config: Config, es: seq<DualEvent>, role: Role): bool {
    if es == [] then false
    else
      var before, e := es[..|es| - 1], es[|es| - 1];
      var d, known := DualRun(config, NEW_DUAL, before), Responds(config, before, role);
      match e
      case StartProxy(primaryUp, fallbackUp, _) =>
        if d.listening then known
        else if role == Primary then (if primaryUp then true else if fallbackUp then false else known)
        else known || (!primaryUp && fallbackUp)
      case Client(_, _, _, _) =>
        (match Tried(config, d, e, role)
         case None => known
         case Some(a) => if Slow(config, a, role) then known else a.Answered?)
      case _ =>
        (match Tried(config, d, e, role)
         case None => known
         case Some(a) => a.Answered?)
  }

  /** In every run each upstream's health shows its last answer, its last try, and what was last learnt of it. */
  lemma {:induction false} HealthTells(config: Config, es: seq<DualEvent>, role: Role)
    ensures var h := HealthOf(DualRun(config, NEW_DUAL, es), role);
      h.latency == LastLatency(config, es, role) && h.lastProbe == LastTry(config, es, role)
      && h.responsive == Responds(config, es, role)
  {
    if es != [] {
      HealthTells(config, es[..|es| - 1], role);
      RunConsistent(config, es[..|es| - 1]);
    }
  }

  /** Failed tries at the fallback since it last answered or was started. */
  function FallbackMisses(config: Config, es: seq<DualEvent>): nat {
    if es == [] then 0
    else
      var before, e := es[..|es| - 1], es[|es| - 1];
      var d, n := DualRun(config, NEW_DUAL, before), FallbackMisses(config, before);
      if e.StartProxy? && !d.listening && !e.primaryUp && e.fallbackUp then 0
      else match Tried(config, d, e, Fallback)
        case None => n
        case Some(Answered(_, _)) => 0
        case Some(Failed) => n + 1
  }

  lemma {:induction false} FallbackCounter(config: Config, es: seq<DualEvent>)
    ensures DualRun(config, NEW_DUAL, es).fallback.failures
         == if FallbackMisses(config, es) < 0xFFFF_FFFF then FallbackMisses(config, es) else 0xFFFF_FFFF
  {
    if es != [] {
      FallbackCounter(config, es[..|es| - 1]);
      RunConsistent(config, es[..|es| - 1]);
    }
  }

  /**
   What a client is told, in every run: 1, general failure, unless the relay serves; its own refusal; the code of the
   primary if that is tried and answers, or else of the fallback; and 5, connection refused, when neither does, which
   takes the relay offline.
   */
  lemma ReplyExactly(config: Config, es: seq<DualEvent>, e: DualEvent)
    requires e.Client?
    ensures var d := DualRun(config, NEW_DUAL, es);
      var (d', reply) := Request(config, d, e.refusal, e.primary, e.fallback, e.now);
      var primary, fallback := Tried(config, d, e, Primary), Tried(config, d, e, Fallback);
      if !Serving(d.state) then reply == 1 && d' == d
      else if e.refusal.Some? then reply == e.refusal.value && d' == d
      else if primary.Some? && primary.value.Answered? then reply == primary.value.code
      else fallback.Some? && if fallback.value.Answered? then reply == fallback.value.code
                             else reply == 5 && d'.state == Offline && d'.role == None
  {
    RunConsistent(config, es);
  }

  /**
   A start fails exactly when the relay has its listener already, or finds neither upstream, or no port; the last two
   leave it offline. Otherwise it serves, on the primary if that is up.
   */
  lemma StartExactly(config: Config, es: seq<DualEvent>, primaryUp: bool, fallbackUp: bool, listens: bool)
    ensures var d := DualRun(config, NEW_DUAL, es);
      var (d', error) := Started(config, d, primaryUp, fallbackUp, listens);
      && (error == Some(AlreadyStarted) <==> d.listening) && (d.listening ==> d' == d)
      && (error == Some(AllUpstreamsUnavailable) <==> !d.listening && !primaryUp && !fallbackUp)
      && (error == Some(ListenerBind) <==> !d.listening && (primaryUp || fallbackUp) && !listens)
      && (!d.listening && error.Some? ==> d'.state == Offline && d'.role == None && !d'.listening)
      && (error == None ==> d'.listening && d'.role == Some(if primaryUp then Primary else Fallback)
                            && d'.state == (if primaryUp then Ready else Degraded))
  {
    RunConsistent(config, es);
  }
}
