/**
 What the service registry promises (server/pkg/registry/service_registry.go,
 server/pkg/domain/service.go), as a machine over values: one step a call.
 Upstream parsing, trimming and the store's failures are parameters.
 */
module RegistrySpec {
  import opened Decimals
  import opened Words
  import opened Wrappers

  type Time = int

  /** domain.ProtectedService; startedAt is the time its field refers to. */
  datatype Service = Service(
    id: string,
    tenantId: string,
    workspaceId: string,
    name: string,
    slug: string,
    description: string,
    upstreamUrl: string,
    port: int,
    executablePath: string,
    execArgs: seq<string>,
    workingDir: string,
    autoStart: bool,
    processState: string,
    processPid: int,
    startedAt: Option<Time>,
    publicPath: string,
    status: string,
    version: word64,
    createdAt: Time,
    updatedAt: Time)

  datatype Invalid = InvalidServiceId | InvalidWorkspaceId | InvalidSlug | InvalidUpstreamUrl

  datatype RegistryError =
    | NotFound
    | AlreadyExists
    | SlugCollision
    | Validation(reason: Invalid)
    | Rejected(reason: Invalid)
    | StoreFailed

  /** strings.TrimSpace, CanonicalizeUpstreamURL, and whether the store's k-th call commits. */
  datatype Environment = Environment(
    trim: string -> string,
    canonicalize: string -> Option<string>,
    commits: nat -> bool)

  const STOPPED := "STOPPED"

  function Loopback(port: nat): string {
    "http://127.0.0.1:" + Decimal(port)
  }

  function NextVersion(v: word64): word64 {
    (v + 1) % 0x1_0000_0000_0000_0000
  }

  predicate BadSlug(slug: string) {
    slug == "" || exists c <- slug :: c in " /\\?#"
  }

  /** ProtectedService.Validate: it may also fill in and rewrite fields. */
  function Validate(env: Environment, s: Service): Result<Service, Invalid> {
    if env.trim(s.id) == "" then Err(InvalidServiceId)
    else if env.trim(s.workspaceId) == "" then Err(InvalidWorkspaceId)
    else if BadSlug(env.trim(s.slug)) then Err(InvalidSlug)
    else
      var url := if s.port > 0 && env.trim(s.upstreamUrl) == "" then Loopback(s.port) else s.upstreamUrl;
      match env.canonicalize(url)
      case None => Err(InvalidUpstreamUrl)
      case Some(c) => Ok(s.(upstreamUrl := c, processState := if s.processState == "" then STOPPED else s.processState))
  }

  /** The snapshot the store gets: without process state. */
  function Durable(s: Service): Service {
    s.(processState := STOPPED, processPid := 0, startedAt := None)
  }

  /** saved is the store's content, None without persistence; calls counts store calls. */
  datatype State = State(services: map<string, Service>, saved: Option<map<string, Service>>, calls: nat)

  predicate SlugTaken(services: map<string, Service>, slug: string) {
    exists id <- services :: services[id].slug == slug
  }

  datatype Call =
    | Restore(services: seq<Option<Service>>)
    | Register(service: Option<Service>, now: Time)
    | UpdateStatus(id: string, status: string, now: Time)
    | UpdateRoute(id: string, upstreamUrl: string, now: Time)
    | UpdateExecutable(id: string, port: int, execPath: string, execArgs: seq<string>, now: Time)
    | UpdateProcessRuntime(id: string, processState: string, pid: int, startedAt: Option<Time>, now: Time)
    | UpdateFull(id: string, full: Full, now: Time)
    | Unregister(id: string)

  datatype Full = Full(
    name: string,
    slug: string,
    description: string,
    port: int,
    execPath: string,
    execArgs: seq<string>,
    workingDir: string,
    autoStart: bool)

  datatype Outcome = Outcome(state: State, error: Option<RegistryError>)

  function Refuse(st: State, e: RegistryError): Outcome {
    Outcome(st, Some(e))
  }

  /** Persist first; memory follows only when the store committed. */
  function Commit(env: Environment, st: State, s: Service): Outcome {
    if st.saved.None? then Outcome(st.(services := st.services[s.id := s]), None)
    else if env.commits(st.calls) && env.trim(s.id) != "" then
      Outcome(State(st.services[s.id := s], Some(st.saved.value[s.id := Durable(s)]), st.calls + 1), None)
    else Refuse(st.(calls := st.calls + 1), StoreFailed)
  }

  /** The check of one more row: against validation, then the ids and slugs before it. */
  function Admit(env: Environment, done: map<string, Service>, row: Option<Service>): Result<Service, RegistryError> {
    if row.None? then Err(Validation(InvalidServiceId))
    else match Validate(env, Durable(row.value))
      case Err(e) => Err(Validation(e))
      case Ok(c) =>
        if c.id in done then Err(AlreadyExists)
        else if SlugTaken(done, c.slug) then Err(SlugCollision)
        else Ok(c)
  }

  function RestoreFrom(env: Environment, done: map<string, Service>, rows: seq<Option<Service>>)
    : Result<map<string, Service>, RegistryError>
    decreases |rows|
  {
    if rows == [] then Ok(done)
    else match Admit(env, done, rows[0])
      case Err(e) => Err(e)
      case Ok(c) => RestoreFrom(env, done[c.id := c], rows[1..])
  }

  function Bumped(s: Service, now: Time): Service {
    s.(version := NextVersion(s.version), updatedAt := now)
  }

  function WithExecutable(s: Service, port: int, execPath: string, execArgs: seq<string>): Service {
    s.(port := port, executablePath := execPath,
       execArgs := if |execArgs| > 0 then execArgs else s.execArgs,
       upstreamUrl := if port > 0 then Loopback(port) else s.upstreamUrl)
  }

  function WithFull(s: Service, f: Full): Service {
    s.(name := f.name, slug := f.slug, description := f.description, port := f.port,
       executablePath := f.execPath, execArgs := f.execArgs, workingDir := f.workingDir, autoStart := f.autoStart,
       upstreamUrl := if f.port > 0 then Loopback(f.port) else s.upstreamUrl)
  }

  /** The service a registration or a configuration update is about to commit. */
  function Candidate(env: Environment, services: map<string, Service>, call: Call): Result<Service, RegistryError> {
    match call
    case Register(service, now) =>
      (match Admit(env, services, service)
       case Err(e) => Err(e)
       case Ok(c) => Ok(c.(createdAt := now, updatedAt := now, version := 1)))
    case UpdateStatus(id, status, now) =>
      if id !in services then Err(NotFound) else Ok(Bumped(services[id].(status := status), now))
    case UpdateRoute(id, url, now) =>
      (match env.canonicalize(url)
       case None => Err(Rejected(InvalidUpstreamUrl))
       case Some(c) => if id !in services then Err(NotFound) else Ok(Bumped(services[id].(upstreamUrl := c), now)))
    case UpdateExecutable(id, port, execPath, execArgs, now) =>
      if id !in services then Err(NotFound) else Ok(Bumped(WithExecutable(services[id], port, execPath, execArgs), now))
    case UpdateFull(id, full, now) =>
      if id !in services then Err(NotFound)
      else if full.slug != services[id].slug && SlugTaken(services, full.slug) then Err(SlugCollision)
      else (match Validate(env, Bumped(WithFull(services[id], full), now))
            case Err(e) => Err(Validation(e))
            case Ok(c) => Ok(c))
    case _ => Err(NotFound)
  }

  predicate Configures(call: Call) {
    call.UpdateStatus? || call.UpdateRoute? || call.UpdateExecutable? || call.UpdateFull?
  }

  /** The store trims the id it is asked to delete; it does not when it saves. */
  function Unregistered(env: Environment, st: State, id: string): Outcome {
    if id !in st.services then Refuse(st, NotFound)
    else if st.saved.None? then Outcome(st.(services := st.services - {id}), None)
    else if env.commits(st.calls) && env.trim(id) != "" then
      Outcome(State(st.services - {id}, Some(st.saved.value - {env.trim(id)}), st.calls + 1), None)
    else Refuse(st.(calls := st.calls + 1), StoreFailed)
  }

  function Step(env: Environment, st: State, call: Call): Outcome {
    match call
    case Restore(services) =>
      (match RestoreFrom(env, map[], services)
       case Err(e) => Refuse(st, e)
       case Ok(m) => Outcome(st.(services := m), None))
    case UpdateProcessRuntime(id, processState, pid, startedAt, now) =>
      if id !in st.services then Refuse(st, NotFound)
      else
        var s := st.services[id].(processState := processState, processPid := pid, startedAt := startedAt,
            updatedAt := now);
        Outcome(st.(services := st.services[id := s]), None)
    case Unregister(id) => Unregistered(env, st, id)
    case _ =>
      (match Candidate(env, st.services, call)
       case Err(e) => Refuse(st, e)
       case Ok(c) => Commit(env, st, c))
  }

  function Run(env: Environment, st: State, calls: seq<Call>): State {
    if calls == [] then st else Step(env, Run(env, st, calls[..|calls| - 1]), calls[|calls| - 1]).state
  }

  // ---------------------------------------------------------------- invariants

  /** Keyed by their own ids, no two with one slug. */
  ghost predicate Indexed(services: map<string, Service>) {
    && (forall id <- services :: services[id].id == id)
    && (forall i <- services, j <- services :: services[i].slug == services[j].slug ==> i == j)
  }

  /** Everything Validate demands but the upstream. */
  predicate Named(env: Environment, s: Service) {
    env.trim(s.id) != "" && env.trim(s.workspaceId) != "" && !BadSlug(env.trim(s.slug))
  }

  ghost predicate WellFormed(env: Environment, services: map<string, Service>) {
    Indexed(services) && forall id <- services :: Named(env, services[id])
  }

  /** Equal but for UpdatedAt, which runtime updates move without a write. */
  predicate Same(a: Service, b: Service) {
    a.(updatedAt := 0) == b.(updatedAt := 0)
  }

  /** The store holds exactly the durable snapshots of memory. */
  ghost predicate Synced(st: State) {
    st.saved.Some? ==>
      && st.saved.value.Keys == st.services.Keys
      && forall id <- st.services :: Same(st.saved.value[id], Durable(st.services[id]))
  }

  /** A call that failed leaves memory and store as they were. */
  lemma FailureChangesNothing(env: Environment, st: State, call: Call)
    requires Step(env, st, call).error.Some?
    ensures Step(env, st, call).state == st.(calls := Step(env, st, call).state.calls)
  {
  }

  lemma PutWellFormed(env: Environment, services: map<string, Service>, s: Service)
    requires WellFormed(env, services) && Named(env, s)
    requires forall id <- services :: services[id].slug == s.slug ==> id == s.id
    ensures WellFormed(env, services[s.id := s])
  {
    hide Named;
  }

  /** What a committed service must satisfy to keep the registry well formed. */
  lemma CommitKeeps(env: Environment, st: State, s: Service)
    requires WellFormed(env, st.services) && Named(env, s)
    requires forall id <- st.services :: st.services[id].slug == s.slug ==> id == s.id
    ensures WellFormed(env, Commit(env, st, s).state.services)
    ensures Synced(st) ==> Synced(Commit(env, st, s).state)
  {
    hide WellFormed;
    PutWellFormed(env, st.services, s);
  }

  lemma ValidateKeeps(env: Environment, s: Service)
    requires Validate(env, s).Ok?
    ensures Named(env, Validate(env, s).value)
    ensures Validate(env, s).value == s.(upstreamUrl := Validate(env, s).value.upstreamUrl,
                                         processState := Validate(env, s).value.processState)
    ensures s.processState != "" ==> Validate(env, s).value.processState == s.processState
  {
  }

  lemma {:induction false} RestoreWellFormed(env: Environment, done: map<string, Service>,
                                             services: seq<Option<Service>>)
    requires WellFormed(env, done) && RestoreFrom(env, done, services).Ok?
    ensures WellFormed(env, RestoreFrom(env, done, services).value)
    decreases |services|
  {
    if services != [] {
      var c := Validate(env, Durable(services[0].value)).value;
      ValidateKeeps(env, Durable(services[0].value));
      assert WellFormed(env, done[c.id := c]) by { hide Validate, RestoreFrom, Named; }
      RestoreWellFormed(env, done[c.id := c], services[1..]);
    }
  }

  /** What is about to be committed fits the registry and keeps its id. */
  lemma CandidateFits(env: Environment, services: map<string, Service>, call: Call)
    requires WellFormed(env, services) && Candidate(env, services, call).Ok?
    ensures var c := Candidate(env, services, call).value;
      && Named(env, c)
      && (forall id <- services :: services[id].slug == c.slug ==> id == c.id)
      && if call.Register? then call.service.Some? && c.id == call.service.value.id && c.id !in services
          && c.version == 1
         else Configures(call) && call.id in services && c.id == call.id
              && c.version == NextVersion(services[call.id].version)
  {
    hide BadSlug, Loopback, Validate;
    match call
    case Register(service, now) => ValidateKeeps(env, Durable(service.value));
    case UpdateFull(id, full, now) => ValidateKeeps(env, Bumped(WithFull(services[id], full), now));
    case _ =>
  }

  /** Every call keeps the registry well formed. */
  lemma StepWellFormed(env: Environment, st: State, call: Call)
    requires WellFormed(env, st.services)
    ensures WellFormed(env, Step(env, st, call).state.services)
  {
    hide Candidate, Commit, RestoreFrom, Named;
    if call.Restore? {
      if RestoreFrom(env, map[], call.services).Ok? {
        RestoreWellFormed(env, map[], call.services);
      }
    } else if call.UpdateProcessRuntime? {
      SameNames(env, st, call);
    } else if !call.Unregister? && Candidate(env, st.services, call).Ok? {
      CandidateFits(env, st.services, call);
      CommitKeeps(env, st, Candidate(env, st.services, call).value);
    }
  }

  lemma SameNames(env: Environment, st: State, call: Call)
    requires WellFormed(env, st.services) && call.UpdateProcessRuntime?
    ensures WellFormed(env, Step(env, st, call).state.services)
    ensures Synced(st) ==> Synced(Step(env, st, call).state)
  {
    if call.id in st.services {
      var s := st.services[call.id].(processState := call.processState, processPid := call.pid,
                                     startedAt := call.startedAt, updatedAt := call.now);
      assert s.id == call.id && Named(env, s);
      hide WellFormed, Named;
      SlugStays(env, st.services, s);
      PutWellFormed(env, st.services, s);
    }
  }

  lemma SlugStays(env: Environment, services: map<string, Service>, s: Service)
    requires WellFormed(env, services) && s.id in services && services[s.id].slug == s.slug
    ensures forall id <- services :: services[id].slug == s.slug ==> id == s.id
  {
    hide Named;
  }

  /** The ids a call brings in carry no surrounding white space. */
  ghost predicate Trimmed(env: Environment, call: Call) {
    call.Register? && call.service.Some? ==> env.trim(call.service.value.id) == call.service.value.id
  }

  ghost predicate TrimmedIds(env: Environment, st: State) {
    forall id <- st.services :: env.trim(id) == id
  }

  /** Any call but Restore keeps store and memory together, when ids are trimmed. */
  lemma StepSynced(env: Environment, st: State, call: Call)
    requires WellFormed(env, st.services) && TrimmedIds(env, st) && Synced(st)
    requires !call.Restore? && Trimmed(env, call)
    ensures Synced(Step(env, st, call).state) && TrimmedIds(env, Step(env, st, call).state)
  {
    hide Candidate, Commit, Named;
    if call.UpdateProcessRuntime? {
      SameNames(env, st, call);
    } else if call.Unregister? {
      RemovalSynced(env, st, call.id);
    } else if Candidate(env, st.services, call).Ok? {
      var c := Candidate(env, st.services, call).value;
      CandidateFits(env, st.services, call);
      hide WellFormed, Synced;
      CommitKeeps(env, st, c);
      CommitIds(env, st, c);
    }
  }

  lemma RemovalSynced(env: Environment, st: State, id: string)
    requires TrimmedIds(env, st) && Synced(st)
    ensures Synced(Unregistered(env, st, id).state) && TrimmedIds(env, Unregistered(env, st, id).state)
  {
  }

  lemma CommitIds(env: Environment, st: State, s: Service)
    ensures Commit(env, st, s).state.services.Keys <= st.services.Keys + {s.id}
  {
  }

  /**
   Removing a service from memory and store alike keeps them together exactly when its id carries
   no surrounding white space: the store deletes the trimmed key.
   */
  lemma UnregisterSynced(env: Environment, st: State, id: string)
    requires WellFormed(env, st.services) && Synced(st) && st.saved.Some?
    requires Step(env, st, Unregister(id)).error.None?
    ensures Synced(Step(env, st, Unregister(id)).state) <==> env.trim(id) == id
  {
    var after := Step(env, st, Unregister(id)).state;
    if env.trim(id) != id {
      assert id in after.saved.value && id !in after.services;
    }
  }

  /** If the trimmed id is registered too, it is that service whose row goes. */
  lemma UnregisterTakesAnother(env: Environment, st: State, id: string)
    requires WellFormed(env, st.services) && Synced(st) && st.saved.Some?
    requires id in st.services && env.trim(id) in st.services && env.trim(id) != id
    requires Step(env, st, Unregister(id)).error.None?
    ensures var after := Step(env, st, Unregister(id)).state;
      && env.trim(id) in after.services && env.trim(id) !in after.saved.value
      && id !in after.services && id in after.saved.value
  {
  }

  const EMPTY: map<string, Service> := map[]

  /** Over any calls, whatever the store's failures, from a registry that agrees with its store. */
  lemma {:induction false} RunInvariant(env: Environment, st: State, calls: seq<Call>)
    requires WellFormed(env, st.services)
    ensures WellFormed(env, Run(env, st, calls).services)
    ensures TrimmedIds(env, st) && Synced(st) && (forall c <- calls :: !c.Restore? && Trimmed(env, c)) ==>
              Synced(Run(env, st, calls)) && TrimmedIds(env, Run(env, st, calls))
  {
    hide WellFormed, Synced, TrimmedIds, Trimmed, Step;
    if calls != [] {
      var before, call := calls[..|calls| - 1], calls[|calls| - 1];
      RunInvariant(env, st, before);
      StepWellFormed(env, Run(env, st, before), call);
      if TrimmedIds(env, st) && Synced(st) && forall c <- calls :: !c.Restore? && Trimmed(env, c) {
        assert forall c <- before :: c in calls;
        StepSynced(env, Run(env, st, before), call);
      }
    }
  }

  /**
   From an empty registry, any service whose id the store trims can be registered and removed, and stays in the
   store.
   */
  lemma UntrimmedStays(env: Environment, s: Service, now: Time)
    requires Validate(env, Durable(s)).Ok? && env.trim(s.id) != s.id && env.commits(0) && env.commits(1)
    ensures var start, calls := State(EMPTY, Some(EMPTY), 0), [Register(Some(s), now), Unregister(s.id)];
      var between, after := Run(env, start, calls[..1]), Run(env, start, calls);
      && Synced(start) && Step(env, start, calls[0]).error.None? && Step(env, between, calls[1]).error.None?
      && s.id !in after.services && after.saved.Some? && s.id in after.saved.value && !Synced(after)
  {
    var start, register := State(EMPTY, Some(EMPTY), 0), Register(Some(s), now);
    var calls := [register, Unregister(s.id)];
    assert calls[..1] == [register] && [register][..0] == [];
    var between := Step(env, start, register).state;
    assert Run(env, start, calls[..1]) == between;
    FirstRegistered(env, s, now);
  }

  lemma FirstRegistered(env: Environment, s: Service, now: Time)
    requires Validate(env, Durable(s)).Ok? && env.commits(0)
    ensures var out := Step(env, State(EMPTY, Some(EMPTY), 0), Register(Some(s), now));
      && out.error.None? && out.state.calls == 1 && out.state.saved.Some?
      && s.id in out.state.services && s.id in out.state.saved.value
  {
  }

  /** Such a registry exists: a store that trims " a" to "a". */
  lemma UntrimmedExample()
    ensures exists env: Environment, s: Service ::
      Validate(env, Durable(s)).Ok? && s.id == " a" && env.trim(s.id) == "a" && env.commits(0) && env.commits(1)
  {
    var env := Environment(x => if x == " a" then "a" else x, url => Some(url), k => true);
    var s := Service(" a", "t", "w", "n", "s", "", "u", 0, "", [], "", false, "", 0, None, "", "", 0, 0, 0);
    assert env.trim(s.slug) == "s" && !BadSlug("s");
    assert Validate(env, Durable(s)).Ok? && env.trim(s.id) == "a";
  }

  // ---------------------------------------------------------------- versions

  predicate ConfigUpdate(call: Call, id: string) {
    Configures(call) && call.id == id
  }

  predicate Registers(call: Call, id: string) {
    call.Register? && call.service.Some? && call.service.value.id == id
  }

  /** Successful configuration updates of a service since it was last registered. */
  function Updates(env: Environment, st: State, calls: seq<Call>, id: string): nat {
    if calls == [] then 0
    else
      var before, call := calls[..|calls| - 1], calls[|calls| - 1];
      var n := Updates(env, st, before, id);
      if Step(env, Run(env, st, before), call).error.Some? then n
      else if Registers(call, id) then 0
      else if ConfigUpdate(call, id) then n + 1
      else n
  }

  /** One call moves a version only when it configures that service, and then by one. */
  lemma StepVersion(env: Environment, st: State, call: Call, id: string)
    requires WellFormed(env, st.services) && !call.Restore?
    requires id in Step(env, st, call).state.services
    ensures var out := Step(env, st, call);
      if out.error.None? && Registers(call, id) then out.state.services[id].version == 1 && id !in st.services
      else && id in st.services
           && out.state.services[id].version
              == if out.error.None? && ConfigUpdate(call, id) then NextVersion(st.services[id].version)
                 else st.services[id].version
  {
    hide Candidate;
    if !call.UpdateProcessRuntime? && !call.Unregister? && Candidate(env, st.services, call).Ok? {
      CandidateFits(env, st.services, call);
    }
  }

  /** Version is one more than the successful configuration updates since registration, in 64 bits. */
  lemma {:induction false} VersionCounts(env: Environment, st: State, calls: seq<Call>, id: string)
    requires st.services == EMPTY && (forall c <- calls :: !c.Restore?)
    requires id in Run(env, st, calls).services
    ensures Run(env, st, calls).services[id].version == (1 + Updates(env, st, calls, id)) % 0x1_0000_0000_0000_0000
  {
    hide Step, WellFormed, ConfigUpdate, Registers;
    if calls != [] {
      var before, call := calls[..|calls| - 1], calls[|calls| - 1];
      assert call in calls && forall c <- before :: c in calls;
      assert WellFormed(env, st.services) by { EmptyWellFormed(env); }
      RunInvariant(env, st, before);
      StepVersion(env, Run(env, st, before), call, id);
      if !(Step(env, Run(env, st, before), call).error.None? && Registers(call, id)) {
        VersionCounts(env, st, before, id);
      }
    }
  }

  lemma EmptyWellFormed(env: Environment)
    ensures WellFormed(env, EMPTY)
  {
  }

  // ---------------------------------------------------------------- restarting

  /** What is used of the URL library: canonical forms are fixed and visible, loopback ports are 16 bits. */
  ghost predicate Lawful(env: Environment) {
    && (forall u :: env.canonicalize(u).Some? ==>
          var c := env.canonicalize(u).value; env.canonicalize(c) == Some(c) && env.trim(c) != "")
    && (forall p: nat :: p > 0 ==>
          env.canonicalize(Loopback(p)) == if p <= 65535 then Some(Loopback(p)) else None)
  }

  predicate Canonical(env: Environment, s: Service) {
    env.canonicalize(s.upstreamUrl) == Some(s.upstreamUrl)
  }

  ghost predicate AllCanonical(env: Environment, services: map<string, Service>) {
    forall id <- services :: Canonical(env, services[id])
  }

  /** Validate changes nothing exactly when the upstream is already canonical. */
  lemma ValidateFixed(env: Environment, s: Service)
    requires Lawful(env) && Named(env, s) && s.processState != ""
    ensures Validate(env, s) == Ok(s) <==> Canonical(env, s)
  {
    hide BadSlug, Loopback;
    if env.canonicalize(s.upstreamUrl) == Some(s.upstreamUrl) {
      assert env.trim(s.upstreamUrl) != "";
    }
  }

  /** The store's rows, in some order. */
  ghost predicate Lists(rows: seq<Option<Service>>, saved: map<string, Service>) {
    && (forall i :: 0 <= i < |rows| ==>
          rows[i].Some? && rows[i].value.id in saved && saved[rows[i].value.id] == rows[i].value)
    && (forall i, j :: 0 <= i < j < |rows| ==> rows[i].value.id != rows[j].value.id)
    && (forall id <- saved :: exists i :: 0 <= i < |rows| && rows[i].value.id == id)
  }

  /** The rows from the i-th on are restored one by one, each as it is. */
  lemma {:induction false} RestoreRows(env: Environment, done: map<string, Service>, rows: seq<Option<Service>>,
                                       saved: map<string, Service>, i: nat)
    requires i <= |rows| && Lists(rows, saved) && WellFormed(env, saved) && Lawful(env) && AllCanonical(env, saved)
    requires forall id <- saved :: Durable(saved[id]) == saved[id]
    requires forall id <- done :: id in saved && done[id] == saved[id]
    requires forall j :: 0 <= j < |rows| ==> (rows[j].value.id in done <==> j < i)
    ensures RestoreFrom(env, done, rows[i..]) == Ok(saved)
    decreases |rows| - i
  {
    hide Named, Canonical, Validate, Lawful, Durable;
    if i == |rows| {
      assert done == saved;
    } else {
      var s := rows[i].value;
      assert rows[i..][0] == rows[i] && rows[i..][1..] == rows[i + 1..];
      RestoreRow(env, done, saved, s);
      RestoreRows(env, done[s.id := s], rows, saved, i + 1);
    }
  }

  lemma RestoreRow(env: Environment, done: map<string, Service>, saved: map<string, Service>, s: Service)
    requires WellFormed(env, saved) && Lawful(env) && AllCanonical(env, saved) && Durable(s) == s
    requires forall id <- done :: id in saved && done[id] == saved[id]
    requires s.id in saved && saved[s.id] == s && s.id !in done
    ensures Validate(env, Durable(s)) == Ok(s) && !SlugTaken(done, s.slug)
  {
    hide Named, Canonical, Validate, Lawful;
    StoppedState(s);
    ValidateFixed(env, s);
  }

  lemma StoppedState(s: Service)
    requires Durable(s) == s
    ensures s.processState != ""
  {
  }

  /** A row Validate refuses or rewrites shows in what is restored. */
  lemma {:induction false} RestoreShows(env: Environment, done: map<string, Service>, rows: seq<Option<Service>>,
                                        k: nat)
    requires k < |rows| && rows[k].Some? && RestoreFrom(env, done, rows).Ok?
    ensures var m := RestoreFrom(env, done, rows).value; var v := Validate(env, Durable(rows[k].value));
      v.Ok? && v.value.id in m && m[v.value.id] == v.value
    decreases |rows|
  {
    hide Validate, Durable, SlugTaken;
    var c := Validate(env, Durable(rows[0].value)).value;
    if k == 0 {
      RestoreGrows(env, done[c.id := c], rows[1..], c.id);
    } else {
      RestoreShows(env, done[c.id := c], rows[1..], k - 1);
    }
  }

  lemma {:induction false} RestoreGrows(env: Environment, done: map<string, Service>, rows: seq<Option<Service>>,
                                        id: string)
    requires id in done && RestoreFrom(env, done, rows).Ok?
    ensures id in RestoreFrom(env, done, rows).value && RestoreFrom(env, done, rows).value[id] == done[id]
    decreases |rows|
  {
    hide Validate, Durable, SlugTaken;
    if rows != [] {
      var c := Validate(env, Durable(rows[0].value)).value;
      RestoreGrows(env, done[c.id := c], rows[1..], id);
    }
  }

  ghost predicate DurableRows(saved: map<string, Service>) {
    forall id <- saved :: Durable(saved[id]) == saved[id]
  }

  /**
   Restarting from the store's rows, in whatever order they come, brings back exactly what was
   saved if and only if every saved upstream is canonical.
   */
  lemma RestartRestores(env: Environment, saved: map<string, Service>, rows: seq<Option<Service>>)
    requires Lawful(env) && WellFormed(env, saved) && DurableRows(saved) && Lists(rows, saved)
    ensures RestoreFrom(env, map[], rows) == Ok(saved) <==> AllCanonical(env, saved)
  {
    hide Lawful, Validate, Named, Durable, Canonical, RestoreFrom;
    if AllCanonical(env, saved) {
      RestoreRows(env, map[], rows, saved, 0);
      assert rows[0..] == rows;
    }
    if RestoreFrom(env, map[], rows) == Ok(saved) {
      forall id <- saved ensures Canonical(env, saved[id]) {
        var k :| 0 <= k < |rows| && rows[k].value.id == id;
        RestoreShows(env, map[], rows, k);
        var s := saved[id];
        assert rows[k].value == s && Durable(s) == s;
        ValidatedId(env, s);
        StoppedState(s);
        ValidateFixed(env, s);
      }
    }
  }

  lemma ValidatedId(env: Environment, s: Service)
    requires Validate(env, s).Ok?
    ensures Validate(env, s).value.id == s.id
  {
  }

  /** UpdateExecutable does not validate: a port of more than 16 bits leaves a service no restart accepts. */
  lemma ExecutablePort(env: Environment, st: State, id: string, port: int, path: string, args: seq<string>, now: Time)
    requires Lawful(env) && WellFormed(env, st.services) && AllCanonical(env, st.services)
    requires Step(env, st, UpdateExecutable(id, port, path, args, now)).error.None?
    ensures AllCanonical(env, Step(env, st, UpdateExecutable(id, port, path, args, now)).state.services)
        <==> port <= 65535
  {
    hide Loopback;
    var s := Bumped(WithExecutable(st.services[id], port, path, args), now);
    assert s.id == id;
    var after := Step(env, st, UpdateExecutable(id, port, path, args, now)).state.services;
    assert after == st.services[id := s];
    assert port > 65535 ==> !Canonical(env, after[id]);
  }

  lemma ValidatedCanonical(env: Environment, s: Service)
    requires Lawful(env) && Validate(env, s).Ok?
    ensures Canonical(env, Validate(env, s).value)
  {
    hide BadSlug, Loopback;
  }

  lemma {:induction false} RestoreCanonical(env: Environment, done: map<string, Service>, rows: seq<Option<Service>>)
    requires Lawful(env) && AllCanonical(env, done) && RestoreFrom(env, done, rows).Ok?
    ensures AllCanonical(env, RestoreFrom(env, done, rows).value)
    decreases |rows|
  {
    hide Validate, Canonical, Lawful, SlugTaken;
    if rows != [] {
      var c := Validate(env, Durable(rows[0].value)).value;
      ValidatedCanonical(env, Durable(rows[0].value));
      RestoreCanonical(env, done[c.id := c], rows[1..]);
    }
  }

  /** The only way to a service that does not restart is an executable's port of more than 16 bits. */
  ghost predicate PortFits(call: Call) {
    call.UpdateExecutable? ==> call.port <= 65535
  }

  lemma StepCanonical(env: Environment, st: State, call: Call)
    requires Lawful(env) && AllCanonical(env, st.services) && PortFits(call)
    ensures AllCanonical(env, Step(env, st, call).state.services)
  {
    hide Candidate, Loopback, Lawful;
    if call.Restore? {
      if RestoreFrom(env, map[], call.services).Ok? {
        RestoreCanonical(env, map[], call.services);
      }
    } else if !call.UpdateProcessRuntime? && !call.Unregister? && Candidate(env, st.services, call).Ok? {
      CandidateCanonical(env, st.services, call);
    }
  }

  lemma CandidateCanonical(env: Environment, services: map<string, Service>, call: Call)
    requires Lawful(env) && AllCanonical(env, services) && PortFits(call) && Candidate(env, services, call).Ok?
    ensures Canonical(env, Candidate(env, services, call).value)
  {
    hide Loopback, Validate;
    match call
    case Register(service, now) => ValidatedCanonical(env, Durable(service.value));
    case UpdateFull(id, full, now) => ValidatedCanonical(env, Bumped(WithFull(services[id], full), now));
    case _ =>
  }

  lemma {:induction false} RunCanonical(env: Environment, st: State, calls: seq<Call>)
    requires Lawful(env) && AllCanonical(env, st.services) && forall c <- calls :: PortFits(c)
    ensures AllCanonical(env, Run(env, st, calls).services)
  {
    hide Step, Lawful, AllCanonical, PortFits;
    if calls != [] {
      var before, call := calls[..|calls| - 1], calls[|calls| - 1];
      assert call in calls && forall c <- before :: c in calls;
      RunCanonical(env, st, before);
      StepCanonical(env, Run(env, st, before), call);
    }
  }

  /** Rows that agree with memory are durable, well formed and canonical when memory is. */
  lemma SyncedRows(env: Environment, st: State)
    requires st.saved.Some? && Synced(st) && WellFormed(env, st.services)
    ensures WellFormed(env, st.saved.value) && DurableRows(st.saved.value)
    ensures AllCanonical(env, st.services) ==> AllCanonical(env, st.saved.value)
  {
    var saved := st.saved.value;
    hide BadSlug;
    forall id <- saved
      ensures saved[id].id == id && Named(env, saved[id]) && Durable(saved[id]) == saved[id]
      ensures saved[id].slug == st.services[id].slug && saved[id].upstreamUrl == st.services[id].upstreamUrl
    {
      SameFields(saved[id], Durable(st.services[id]));
    }
  }

  lemma SameFields(a: Service, b: Service)
    requires Same(a, b)
    ensures a.id == b.id && a.workspaceId == b.workspaceId && a.slug == b.slug && a.upstreamUrl == b.upstreamUrl
    ensures Durable(b) == b ==> Durable(a) == a
  {
    assert a.(updatedAt := 0).id == b.(updatedAt := 0).id;
  }

  /**
   Restart after any run: with trimmed ids and 16-bit executable ports, the rows the store holds
   after any calls and failures are memory's durable snapshots, and restoring them succeeds and
   brings exactly them back.
   */
  lemma RestartAfterRun(env: Environment, calls: seq<Call>, rows: seq<Option<Service>>)
    requires Lawful(env) && forall c <- calls :: !c.Restore? && Trimmed(env, c) && PortFits(c)
    requires var end := Run(env, State(EMPTY, Some(EMPTY), 0), calls); end.saved.Some? ==> Lists(rows, end.saved.value)
    ensures var end := Run(env, State(EMPTY, Some(EMPTY), 0), calls);
      && end.saved.Some? && Synced(end)
      && RestoreFrom(env, map[], rows) == Ok(end.saved.value)
  {
    hide Step, Lawful, Trimmed, RestoreFrom, Lists, WellFormed, DurableRows, AllCanonical;
    var start := State(EMPTY, Some(EMPTY), 0);
    var end := Run(env, start, calls);
    EmptyWellFormed(env);
    assert AllCanonical(env, EMPTY) by { EmptyCanonical(env); }
    RunInvariant(env, start, calls);
    RunCanonical(env, start, calls);
    KeepsStore(env, start, calls);
    SyncedRows(env, end);
    RestartRestores(env, end.saved.value, rows);
  }

  lemma EmptyCanonical(env: Environment)
    ensures AllCanonical(env, EMPTY)
  {
  }

  lemma {:induction false} KeepsStore(env: Environment, st: State, calls: seq<Call>)
    ensures Run(env, st, calls).saved.Some? <==> st.saved.Some?
  {
    hide Candidate, RestoreFrom;
    if calls != [] {
      KeepsStore(env, st, calls[..|calls| - 1]);
    }
  }
}
