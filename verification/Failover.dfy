/** The failover controller (crates/webgate-transport/src/failover.rs). */
module TransportFailover {
  import opened Wrappers
  import opened Words

  datatype Role = Primary | Fallback

  datatype TransportState = Stopped | Starting | Ready | Degraded | Offline

  datatype Health = Health(failures: word32, latency: word64, responsive: bool, lastProbe: word64)

  const UNPROBED := Health(0, 0, false, 0)

  datatype Config = Config(maxFailures: word32, latencyThreshold: word64, cooldown: word64) {
    function Limit(): (n: word32)
      ensures n >= 1 && n >= maxFailures && (n == 1 || n == maxFailures)
    {
      if maxFailures > 1 then maxFailures else 1
    }

    predicate LatencyHealthy(latency: word64) {
      latencyThreshold == 0 || latency <= latencyThreshold
    }
  }

  function SaturatingAdd1(n: word32): word32 {
    if n == 0xFFFF_FFFF then n else n + 1
  }

  function SaturatingSub(a: word64, b: word64): word64 {
    if a < b then 0 else a - b
  }

  /** The fields of the controller; the providers are inputs of each call. */
  datatype State = State(active: Option<Role>, primary: Health, fallback: Health, lastFailover: word64) {
    function Of(role: Role): Health {
      match role
      case Primary => primary
      case Fallback => fallback
    }

    function Failures(): nat {
      match active
      case Some(Primary) => primary.failures
      case Some(Fallback) => fallback.failures
      case None => 0
    }
  }

  const NEW := State(None, UNPROBED, UNPROBED, 0)

  /** A call, with what the two providers report when it is made. */
  datatype Event =
    | Start(primaryReady: bool, fallbackReady: bool)
    | Observe(success: bool, latency: word64, now: word64, primaryReady: bool, fallbackReady: bool)
    | Probe(success: bool, now: word64, primaryReady: bool)
    | Shutdown

  /** Is the observation a healthy one of that provider? */
  predicate Healthy(config: Config, e: Event, role: Role)
    requires e.Observe?
  {
    e.success && (if role == Primary then e.primaryReady else e.fallbackReady) && config.LatencyHealthy(e.latency)
  }

  function Observed(h: Health, healthy: bool, latency: word64, now: word64): Health {
    if healthy then Health(0, latency, true, now)
    else Health(SaturatingAdd1(h.failures), latency, h.responsive, now)
  }

  function Step(config: Config, st: State, e: Event): State {
    match e
    case Start(primaryReady, fallbackReady) =>
      if primaryReady then State(Some(Primary), UNPROBED.(responsive := true), UNPROBED, st.lastFailover)
      else if fallbackReady then State(Some(Fallback), UNPROBED, UNPROBED.(responsive := true), st.lastFailover)
      else State(None, UNPROBED, UNPROBED, st.lastFailover)
    case Observe(success, latency, now, primaryReady, fallbackReady) =>
      (match st.active
       case None => st
       case Some(Primary) =>
         var h := Observed(st.primary, Healthy(config, e, Primary), latency, now);
         if Healthy(config, e, Primary) || h.failures < config.Limit() then st.(primary := h)
         else if fallbackReady then
           State(Some(Fallback), h.(responsive := false), st.fallback.(failures := 0, responsive := true), now)
         else State(None, h.(responsive := false), st.fallback.(responsive := false), st.lastFailover)
       case Some(Fallback) =>
         var h := Observed(st.fallback, Healthy(config, e, Fallback), latency, now);
         if Healthy(config, e, Fallback) || h.failures < config.Limit() then st.(fallback := h)
         else st.(active := None, fallback := h.(responsive := false)))
    case Probe(success, now, primaryReady) =>
      if st.active == Some(Fallback) && SaturatingSub(now, st.lastFailover) >= config.cooldown && success
          && primaryReady
      then st.(active := Some(Primary), primary := st.primary.(failures := 0, responsive := true, lastProbe := now))
      else st
    case Shutdown =>
      st.(active := None, primary := st.primary.(responsive := false), fallback := st.fallback.(responsive := false))
  }

  function Run(config: Config, st: State, es: seq<Event>): State {
    if es == [] then st else Step(config, Run(config, st, es[..|es| - 1]), es[|es| - 1])
  }

  // ---------------------------------------------------------------- the controller

  class Provider {
    var state: TransportState
    var localProxy: Option<word16>

    constructor (state: TransportState, localProxy: Option<word16>)
      ensures this.state == state && this.localProxy == localProxy
    {
      this.state, this.localProxy := state, localProxy;
    }

    predicate Ready()
      reads this
    {
      state == TransportState.Ready && localProxy.Some?
    }

    method Stop()
      modifies this
      ensures state == Stopped && localProxy == old(localProxy)
    {
      state := Stopped;
    }
  }

  class TransportFailoverController {
    const primary: Provider
    const fallback: Provider
    const config: Config
    var activeRole: Option<Role>
    var primaryHealth: Health
    var fallbackHealth: Health
    var lastFailoverEpochSec: word64

    function Abstract(): State
      reads this
    {
      State(activeRole, primaryHealth, fallbackHealth, lastFailoverEpochSec)
    }

    constructor (primary: Provider, fallback: Provider, config: Config)
      ensures Abstract() == NEW && this.primary == primary && this.fallback == fallback && this.config == config
    {
      this.primary, this.fallback, this.config := primary, fallback, config;
      activeRole, primaryHealth, fallbackHealth, lastFailoverEpochSec := None, UNPROBED, UNPROBED, 0;
    }

    method Start() returns (state: TransportState)
      modifies this
      ensures Abstract() == Step(config, old(Abstract()), Event.Start(primary.Ready(), fallback.Ready()))
      ensures state == if activeRole.Some? then Ready else Offline
    {
      activeRole := None;
      primaryHealth := UNPROBED;
      fallbackHealth := UNPROBED;
      if primary.Ready() {
        activeRole := Some(Primary);
        primaryHealth := primaryHealth.(responsive := true);
        return Ready;
      }
      if fallback.Ready() {
        activeRole := Some(Fallback);
        fallbackHealth := fallbackHealth.(responsive := true);
        return Ready;
      }
      return Offline;
    }

    function ProviderOf(role: Role): Provider {
      match role
      case Primary => primary
      case Fallback => fallback
    }

    /** Fail closed: an endpoint is handed out only for an active provider that is ready. */
    method ActiveProxyEndpoint() returns (endpoint: Option<word16>)
      ensures endpoint.Some? <==> activeRole.Some? && ProviderOf(activeRole.value).Ready()
      ensures endpoint.Some? ==> endpoint == ProviderOf(activeRole.value).localProxy
    {
      match activeRole
      case Some(Primary) =>
        endpoint := if primary.Ready() then primary.localProxy else None;
      case Some(Fallback) =>
        endpoint := if fallback.Ready() then fallback.localProxy else None;
      case None =>
        endpoint := None;
    }

    method AggregateState() returns (state: TransportState)
      ensures state == Ready || state == Degraded || state == Offline
      ensures state == Offline <==> activeRole.None? || !ProviderOf(activeRole.value).Ready()
      ensures state == Ready ==> Abstract().Failures() == 0
      ensures state == Degraded ==> Abstract().Failures() > 0
    {
      match activeRole
      case Some(Primary) =>
        state := if !primary.Ready() then Offline else if primaryHealth.failures > 0 then Degraded else Ready;
      case Some(Fallback) =>
        state := if !fallback.Ready() then Offline else if fallbackHealth.failures > 0 then Degraded else Ready;
      case None =>
        state := Offline;
    }

    method RecordObservation(success: bool, latency: word64, now: word64)
      modifies this
      ensures Abstract()
           == Step(config, old(Abstract()), Observe(success, latency, now, primary.Ready(), fallback.Ready()))
    {
      var healthyLatency := config.latencyThreshold == 0 || latency <= config.latencyThreshold;
      var fallbackReady := fallback.Ready();
      match activeRole
      case Some(Primary) =>
        primaryHealth := primaryHealth.(lastProbe := now, latency := latency);
        if success && primary.Ready() && healthyLatency {
          primaryHealth := primaryHealth.(failures := 0, responsive := true);
        } else {
          primaryHealth := primaryHealth.(failures := SaturatingAdd1(primaryHealth.failures));
          if primaryHealth.failures >= config.Limit() {
            primaryHealth := primaryHealth.(responsive := false);
            TriggerFailoverToFallback(now, fallbackReady);
          }
        }
      case Some(Fallback) =>
        fallbackHealth := fallbackHealth.(lastProbe := now, latency := latency);
        if success && fallbackReady && healthyLatency {
          fallbackHealth := fallbackHealth.(failures := 0, responsive := true);
        } else {
          fallbackHealth := fallbackHealth.(failures := SaturatingAdd1(fallbackHealth.failures));
          if fallbackHealth.failures >= config.Limit() {
            fallbackHealth := fallbackHealth.(responsive := false);
            activeRole := None;
          }
        }
      case None =>
    }

    method TriggerFailoverToFallback(now: word64, fallbackReady: bool)
      modifies this
      ensures primaryHealth == old(primaryHealth)
      ensures activeRole == if fallbackReady then Some(Fallback) else None
      ensures lastFailoverEpochSec == if fallbackReady then now else old(lastFailoverEpochSec)
      ensures fallbackHealth == if fallbackReady then old(fallbackHealth).(failures := 0, responsive := true)
                                else old(fallbackHealth).(responsive := false)
    {
      if !fallbackReady {
        activeRole := None;
        fallbackHealth := fallbackHealth.(responsive := false);
        return;
      }
      activeRole := Some(Fallback);
      lastFailoverEpochSec := now;
      fallbackHealth := fallbackHealth.(failures := 0, responsive := true);
    }

    method ProbeStandbyPrimary(success: bool, now: word64) returns (switched: bool)
      modifies this
      ensures Abstract() == Step(config, old(Abstract()), Probe(success, now, primary.Ready()))
      ensures switched <==> old(activeRole) == Some(Fallback) && activeRole == Some(Primary)
    {
      if activeRole != Some(Fallback) {
        return false;
      }
      var sinceFailover := SaturatingSub(now, lastFailoverEpochSec);
      if sinceFailover < config.cooldown {
        return false;
      }
      if success && primary.Ready() {
        primaryHealth := primaryHealth.(failures := 0, responsive := true, lastProbe := now);
        activeRole := Some(Primary);
        return true;
      }
      return false;
    }

    method ShutdownAll()
      modifies this, primary, fallback
      ensures Abstract() == Step(config, old(Abstract()), Shutdown)
      ensures primary.state == Stopped && fallback.state == Stopped
    {
      activeRole := None;
      primary.Stop();
      fallback.Stop();
      primaryHealth := primaryHealth.(responsive := false);
      fallbackHealth := fallbackHealth.(responsive := false);
    }
  }

  // ---------------------------------------------------------------- the counter is the history

  /** The provider that a call makes active, if it makes one active. */
  predicate Activates(before: State, e: Event, after: State) {
    after.active.Some? && (e.Start? || after.active != before.active)
  }

  /** How many observations in a row, up to the last and since the active provider became active, were unhealthy. */
  function Streak(config: Config, st: State, es: seq<Event>): nat {
    if es == [] then 0
    else
      var before, e := es[..|es| - 1], es[|es| - 1];
      var s, t := Run(config, st, before), Run(config, st, es);
      if t.active.None? || Activates(s, e, t) then 0
      else if !e.Observe? then Streak(config, st, before)
      else if Healthy(config, e, t.active.value) then 0
      else Streak(config, st, before) + 1
  }

  /** The active provider's counter is its unhealthy streak, and stays below the limit. */
  lemma {:induction false} CounterIsStreak(config: Config, es: seq<Event>)
    ensures Run(config, NEW, es).active.Some? ==> Run(config, NEW, es).Failures() == Streak(config, NEW, es)
    ensures Run(config, NEW, es).Failures() < config.Limit()
  {
    if es != [] {
      CounterIsStreak(config, es[..|es| - 1]);
    }
  }

  /** Only a provider believed to respond is ever active. */
  lemma {:induction false} ActiveResponds(config: Config, es: seq<Event>)
    ensures var t := Run(config, NEW, es);
      && (t.active == Some(Primary) ==> t.primary.responsive)
      && (t.active == Some(Fallback) ==> t.fallback.responsive)
  {
    if es != [] {
      ActiveResponds(config, es[..|es| - 1]);
    }
  }

  /** In every run the primary is marked responsive exactly while it is active; with none active neither is. */
  lemma {:induction false} ResponsiveExactly(config: Config, es: seq<Event>)
    ensures var t := Run(config, NEW, es);
      && (t.primary.responsive <==> t.active == Some(Primary))
      && (t.active == Some(Fallback) ==> t.fallback.responsive)
      && (t.active == None ==> !t.fallback.responsive)
  {
    if es != [] {
      ResponsiveExactly(config, es[..|es| - 1]);
    }
  }

  /** An observation counts against a provider exactly when it fails, finds it not ready, or is too slow. */
  lemma UnhealthyExactly(config: Config, e: Event, role: Role)
    requires e.Observe?
    ensures !Healthy(config, e, role) <==>
      || !e.success || (role == Primary && !e.primaryReady) || (role == Fallback && !e.fallbackReady)
      || (config.latencyThreshold > 0 && e.latency > config.latencyThreshold)
  {
  }

  /**
   A provider is left by an observation exactly when that makes its streak reach the limit; the
   primary then for a ready fallback, and otherwise for nothing. It is marked as not responding.
   */
  lemma SwitchAtLimit(config: Config, es: seq<Event>, e: Event)
    requires e.Observe? && Run(config, NEW, es).active.Some?
    ensures var s, t := Run(config, NEW, es), Step(config, Run(config, NEW, es), e);
      && (t.active != s.active <==>
           !Healthy(config, e, s.active.value) && Streak(config, NEW, es) + 1 >= config.Limit())
      && (t.active != s.active ==>
           t.active == if s.active == Some(Primary) && e.fallbackReady then Some(Fallback) else None)
      && (t.active != s.active ==> !t.Of(s.active.value).responsive)
  {
    CounterIsStreak(config, es);
  }

  /** Once no provider is active, none is until the next start. */
  lemma {:induction false} NoneAbsorbs(config: Config, st: State, es: seq<Event>)
    requires st.active == None && forall e <- es :: !e.Start?
    ensures Run(config, st, es).active == None
  {
    if es != [] {
      var before := es[..|es| - 1];
      assert es[|es| - 1] in es && forall e <- before :: e in es;
      NoneAbsorbs(config, st, before);
    }
  }

  /** A provider is made active only when it is ready, and start takes the primary if that is. */
  lemma ActivatedReady(config: Config, st: State, e: Event)
    ensures var t := Step(config, st, e);
      && (Activates(st, e, t) && t.active == Some(Primary) ==> (e.Start? || e.Probe?) && e.primaryReady)
      && (Activates(st, e, t) && t.active == Some(Fallback) ==> (e.Start? || e.Observe?) && e.fallbackReady)
      && (e.Start? ==> (t.active == Some(Primary) <==> e.primaryReady))
      && (e.Start? ==> (t.active == Some(Fallback) <==> !e.primaryReady && e.fallbackReady))
      && (e.Shutdown? ==> t.active == None)
  {
  }

  /** What one more call makes of a provider's last observation; a switch back counts as a probe. */
  function Noted(s: State, e: Event, t: State, role: Role, last: (word64, word64)): (word64, word64) {
    if e.Start? then (0, 0)
    else if e.Observe? && s.active == Some(role) then (e.latency, e.now)
    else if e.Probe? && role == Primary && s.active == Some(Fallback) && t.active == Some(Primary) then (last.0, e.now)
    else last
  }

  /** Latency and time of the last observation of a provider since the last start. */
  function Last(config: Config, es: seq<Event>, role: Role): (word64, word64) {
    if es == [] then (0, 0)
    else
      var before := es[..|es| - 1];
      Noted(Run(config, NEW, before), es[|es| - 1], Run(config, NEW, es), role, Last(config, before, role))
  }

  lemma StepNoted(config: Config, s: State, e: Event, role: Role)
    ensures var t := Step(config, s, e); var h, g := s.Of(role), t.Of(role);
      (g.latency, g.lastProbe) == Noted(s, e, t, role, (h.latency, h.lastProbe))
  {
  }

  /** In every run each provider's health shows its last observation. */
  lemma {:induction false} HealthIsLast(config: Config, es: seq<Event>, role: Role)
    ensures var h := Run(config, NEW, es).Of(role); (h.latency, h.lastProbe) == Last(config, es, role)
  {
    if es != [] {
      hide Step, Noted;
      HealthIsLast(config, es[..|es| - 1], role);
      StepNoted(config, Run(config, NEW, es[..|es| - 1]), es[|es| - 1], role);
    }
  }

  // ---------------------------------------------------------------- the cooldown

  function TimeOf(e: Event): word64 {
    if e.Observe? || e.Probe? then e.now else 0
  }

  /** The time of the last call that carries one. */
  function Clock(es: seq<Event>): word64 {
    if es == [] then 0
    else if es[|es| - 1].Observe? || es[|es| - 1].Probe? then TimeOf(es[|es| - 1])
    else Clock(es[..|es| - 1])
  }

  /** The times of the failovers of a run: observations that take it from the primary to the fallback. */
  function Switches(config: Config, st: State, es: seq<Event>): seq<word64> {
    if es == [] then []
    else
      var before, e := es[..|es| - 1], es[|es| - 1];
      Switches(config, st, before)
      + if e.Observe? && Run(config, st, before).active == Some(Primary) && Run(config, st, es).active == Some(Fallback)
        then [TimeOf(e)] else []
  }

  /** The failover time that is kept is that of the last failover. */
  lemma {:induction false} FailoverTime(config: Config, es: seq<Event>)
    ensures var times := Switches(config, NEW, es);
      Run(config, NEW, es).lastFailover == if times == [] then 0 else times[|times| - 1]
  {
    if es != [] {
      FailoverTime(config, es[..|es| - 1]);
    }
  }

  /**
   The fallback is left for the primary exactly by a start that finds the primary ready, or by a good probe that finds
   it ready a whole cooldown after the last failover.
   */
  lemma BackOnlyAfterCooldown(config: Config, es: seq<Event>, e: Event)
    requires Run(config, NEW, es).active == Some(Fallback)
    ensures var times := Switches(config, NEW, es);
      Step(config, Run(config, NEW, es), e).active == Some(Primary) <==>
        || (e.Start? && e.primaryReady)
        || (e.Probe? && e.success && e.primaryReady
            && (config.cooldown == 0 || e.now >= (if times == [] then 0 else times[|times| - 1]) + config.cooldown))
  {
    FailoverTime(config, es);
  }

  /** The clock never goes back. */
  ghost predicate ClockAscends(es: seq<Event>) {
    es != [] ==> ClockAscends(es[..|es| - 1]) && Clock(es[..|es| - 1]) <= Clock(es)
  }

  ghost predicate Spaced(times: seq<word64>, gap: int) {
    forall i :: 0 < i < |times| ==> times[i] >= times[i - 1] + gap
  }

  /** Switches are a cooldown apart, and so is a primary that is active again from the last of them. */
  ghost predicate CooledDown(config: Config, times: seq<word64>, end: State, clock: word64) {
    && Spaced(times, config.cooldown)
    && (|times| > 0 ==> end.lastFailover == times[|times| - 1] <= clock)
    && (|times| > 0 && end.active == Some(Primary) ==> clock >= times[|times| - 1] + config.cooldown)
  }

  /** A start finds the primary ready too early: inactive, and less than a cooldown after the last failover. */
  predicate Early(config: Config, times: seq<word64>, st: State, clock: word64, e: Event) {
    e.Start? && e.primaryReady && st.active != Some(Primary) && |times| > 0
        && clock < times[|times| - 1] + config.cooldown
  }

  lemma StepCooledDown(config: Config, times: seq<word64>, st: State, clock: word64, e: Event, clock': word64)
    requires CooledDown(config, times, st, clock) && clock <= clock' && !Early(config, times, st, clock, e)
    requires clock' == if e.Observe? || e.Probe? then TimeOf(e) else clock
    ensures var st' := Step(config, st, e);
      var more := if e.Observe? && st.active == Some(Primary) && st'.active == Some(Fallback) then [TimeOf(e)] else [];
      CooledDown(config, times + more, st', clock')
  {
  }

  /** No start of the run is early. */
  ghost predicate GentleStarts(config: Config, st: State, es: seq<Event>) {
    es != [] ==>
      var before := es[..|es| - 1];
      GentleStarts(config, st, before)
      && !Early(config, Switches(config, st, before), Run(config, st, before), Clock(before), es[|es| - 1])
  }

  lemma {:induction false} NoStartGentle(config: Config, st: State, es: seq<Event>)
    requires forall e <- es :: !e.Start?
    ensures GentleStarts(config, st, es)
  {
    if es != [] {
      assert es[|es| - 1] in es && forall x <- es[..|es| - 1] :: x in es;
      NoStartGentle(config, st, es[..|es| - 1]);
    }
  }

  lemma {:induction false} RunCooledDown(config: Config, st: State, es: seq<Event>)
    requires ClockAscends(es) && GentleStarts(config, st, es)
    ensures CooledDown(config, Switches(config, st, es), Run(config, st, es), Clock(es))
  {
    hide CooledDown, Step, Early;
    if es == [] {
      assert CooledDown(config, [], st, 0) by { NoSwitchYet(config, st); }
    } else {
      var n := |es| - 1;
      RunCooledDown(config, st, es[..n]);
      StepCooledDown(config, Switches(config, st, es[..n]), Run(config, st, es[..n]), Clock(es[..n]), es[n], Clock(es));
    }
  }

  lemma NoSwitchYet(config: Config, st: State)
    ensures CooledDown(config, [], st, 0)
  {
  }

  lemma {:induction false} SpacedSpan(times: seq<word64>, gap: nat)
    requires Spaced(times, gap) && |times| > 0
    ensures times[|times| - 1] - times[0] >= (|times| - 1) * gap
  {
    if |times| > 1 {
      var k := |times| - 1;
      SpacedSpan(times[..k], gap);
      assert (k - 1) * gap + gap == k * gap;
    }
  }

  /** With a clock that never goes back and no early start, k switches take at least k - 1 cooldowns. */
  lemma GentleSpan(config: Config, st: State, es: seq<Event>)
    requires ClockAscends(es) && GentleStarts(config, st, es)
    ensures var times := Switches(config, st, es);
      && Spaced(times, config.cooldown)
      && (|times| > 0 ==> times[|times| - 1] - times[0] >= (|times| - 1) * config.cooldown)
  {
    hide GentleStarts, ClockAscends;
    RunCooledDown(config, st, es);
    if |Switches(config, st, es)| > 0 {
      SpacedSpan(Switches(config, st, es), config.cooldown);
    }
  }

  /** So with no restart at all. */
  lemma SwitchesSpan(config: Config, st: State, es: seq<Event>)
    requires ClockAscends(es) && (forall e <- es :: !e.Start?) && |Switches(config, st, es)| > 0
    ensures var times := Switches(config, st, es);
      times[|times| - 1] - times[0] >= (|times| - 1) * config.cooldown
  {
    NoStartGentle(config, st, es);
    GentleSpan(config, st, es);
  }

  // ---------------------------------------------------------------- restarts

  /** n failed observations at one instant, with a ready fallback. */
  function Fails(n: nat, now: word64): (es: seq<Event>)
    ensures |es| == n && forall e <- es :: !e.Start?
  {
    if n == 0 then [] else Fails(n - 1, now) + [Observe(false, 0, now, true, true)]
  }

  /** On a primary without failures, the limit's failure switches, at its own time. */
  lemma {:induction false} FailsSwitch(config: Config, st: State, es: seq<Event>, n: nat, now: word64)
    requires n <= config.Limit() && Run(config, st, es).active == Some(Primary)
        && Run(config, st, es).primary.failures == 0
    ensures var t := Run(config, st, es + Fails(n, now));
      && t.active == Some(if n < config.Limit() then Primary else Fallback)
      && (n < config.Limit() ==> t.primary.failures == n)
    ensures Switches(config, st, es + Fails(n, now))
         == Switches(config, st, es) + if n < config.Limit() then [] else [now]
  {
    hide Run, Switches, Step;
    var all := es + Fails(n, now);
    if n == 0 {
      assert all == es && Switches(config, st, es) + [] == Switches(config, st, es);
    } else {
      FailsSwitch(config, st, es, n - 1, now);
      var before := es + Fails(n - 1, now);
      assert all == before + [Observe(false, 0, now, true, true)];
      hide Fails;
      OneMore(config, st, before, Observe(false, 0, now, true, true));
      FailOnce(config, Run(config, st, before), now);
      assert Switches(config, st, before) == Switches(config, st, es);
    }
  }

  lemma OneMore(config: Config, st: State, es: seq<Event>, e: Event)
    ensures var s, t := Run(config, st, es), Run(config, st, es + [e]);
      && t == Step(config, s, e)
      && Switches(config, st, es + [e]) == Switches(config, st, es)
         + if e.Observe? && s.active == Some(Primary) && t.active == Some(Fallback) then [TimeOf(e)] else []
  {
    assert (es + [e])[..|es|] == es;
  }

  lemma FailOnce(config: Config, s: State, now: word64)
    requires s.active == Some(Primary) && s.primary.failures < config.Limit()
    ensures var t := Step(config, s, Observe(false, 0, now, true, true)); var n := s.primary.failures + 1;
      t.active == Some(if n < config.Limit() then Primary else Fallback) && t.primary.failures == n
  {
  }

  lemma {:induction false} FailsAscend(es: seq<Event>, n: nat, now: word64)
    requires ClockAscends(es) && Clock(es) <= now
    ensures ClockAscends(es + Fails(n, now)) && Clock(es + Fails(n, now)) == if n == 0 then Clock(es) else now
  {
    var all := es + Fails(n, now);
    if n == 0 {
      assert all == es;
    } else {
      FailsAscend(es, n - 1, now);
      assert all[..|all| - 1] == es + Fails(n - 1, now);
    }
  }

  lemma {:induction false} GentleExtends(config: Config, st: State, es: seq<Event>, more: seq<Event>)
    requires GentleStarts(config, st, es) && forall e <- more :: !e.Start?
    ensures GentleStarts(config, st, es + more)
  {
    var all := es + more;
    if more == [] {
      assert all == es;
    } else {
      var n := |more| - 1;
      assert more[n] in more && forall e <- more[..n] :: e in more;
      GentleExtends(config, st, es, more[..n]);
      assert all[..|all| - 1] == es + more[..n];
    }
  }

  /** No failover of any continuation without another start comes too soon after the last. */
  ghost predicate KeepsSpacing(config: Config, st: State, es: seq<Event>) {
    forall more: seq<Event> | ClockAscends(es + more) && (forall e <- more :: !e.Start?) ::
      Spaced(Switches(config, st, es + more), config.cooldown)
  }

  /**
   A restart keeps the cooldown exactly when it does not find the primary ready and inactive within a
   cooldown of the last failover: otherwise some continuation fails over too soon.
   */
  lemma RestartKeepsSpacing(config: Config, st: State, es: seq<Event>, primaryReady: bool, fallbackReady: bool)
    requires ClockAscends(es) && GentleStarts(config, st, es)
    ensures KeepsSpacing(config, st, es + [Start(primaryReady, fallbackReady)]) <==>
            !Early(config, Switches(config, st, es), Run(config, st, es), Clock(es), Start(primaryReady, fallbackReady))
  {
    var start := Start(primaryReady, fallbackReady);
    var es' := es + [start];
    assert es'[..|es'| - 1] == es;
    if Early(config, Switches(config, st, es), Run(config, st, es), Clock(es), start) {
      EarlyBreaksSpacing(config, st, es, es', fallbackReady);
    } else {
      forall more: seq<Event> | ClockAscends(es' + more) && (forall e <- more :: !e.Start?)
        ensures Spaced(Switches(config, st, es' + more), config.cooldown)
      {
        GentleExtends(config, st, es', more);
        GentleSpan(config, st, es' + more);
      }
    }
  }

  lemma EarlyBreaksSpacing(config: Config, st: State, es: seq<Event>, es': seq<Event>, fallbackReady: bool)
    requires ClockAscends(es) && es' == es + [Start(true, fallbackReady)]
    requires Early(config, Switches(config, st, es), Run(config, st, es), Clock(es), Start(true, fallbackReady))
    ensures !KeepsSpacing(config, st, es')
  {
    hide Fails, Step, Run, Switches, Clock, ClockAscends;
    AfterStart(config, st, es, fallbackReady);
    var now, n := Clock(es), config.Limit();
    var times := Switches(config, st, es);
    FailsSwitch(config, st, es', n, now);
    FailsAscend(es', n, now);
    var bad := Switches(config, st, es' + Fails(n, now));
    assert bad == times + [now];
    assert bad[|times|] < bad[|times| - 1] + config.cooldown;
  }

  /** For every limit: two failovers at one instant, with a restart between them. */
  lemma RestartSkipsCooldown(config: Config, st: State, now: word64)
    requires config.cooldown > 0 && st.active == Some(Primary) && st.primary.failures == 0
    ensures var fails := Fails(config.Limit(), now);
      Switches(config, st, fails + [Start(true, true)] + fails) == [now, now]
  {
    hide Fails, Step, Run, Switches;
    var n := config.Limit();
    var first := Fails(n, now);
    assert Run(config, st, []) == st && Switches(config, st, []) == [] by { NothingYet(config, st); }
    FailsSwitch(config, st, [], n, now);
    assert [] + first == first && [] + [now] == [now] && [now] + [now] == [now, now];
    AfterStart(config, st, first, true);
    FailsSwitch(config, st, first + [Start(true, true)], n, now);
  }

  lemma NothingYet(config: Config, st: State)
    ensures Run(config, st, []) == st && Switches(config, st, []) == []
  {
  }

  /** A start with the primary ready is no failover, and begins on a primary without failures. */
  lemma AfterStart(config: Config, st: State, es: seq<Event>, fallbackReady: bool)
    ensures var es' := es + [Start(true, fallbackReady)];
      && Switches(config, st, es') == Switches(config, st, es) && Clock(es') == Clock(es)
      && Run(config, st, es').active == Some(Primary) && Run(config, st, es').primary.failures == 0
      && (ClockAscends(es) ==> ClockAscends(es'))
  {
    var es' := es + [Start(true, fallbackReady)];
    assert es'[..|es'| - 1] == es;
  }
}
