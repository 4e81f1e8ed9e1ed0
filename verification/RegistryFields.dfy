/**
 What each call of the service registry does to each field of a service
 (server/pkg/registry/service_registry.go:76-297): set once, a field keeps its value until it is set again.
 */
module RegistryFields {
  import opened Decimals
  import opened Words
  import opened Wrappers
  import opened RegistrySpec

  datatype Field =
    | TenantId
    | WorkspaceId
    | Name
    | Slug
    | Description
    | UpstreamUrl
    | Port
    | ExecutablePath
    | ExecArgs
    | WorkingDir
    | AutoStart
    | ProcessState
    | ProcessPid
    | StartedAt
    | PublicPath
    | Status
    | CreatedAt
  {
    /** Fields of the running process stay out of the store. */
    predicate Stored() {
      !ProcessState? && !ProcessPid? && !StartedAt?
    }
  }

  datatype Value =
    | Text(text: string)
    | Texts(texts: seq<string>)
    | Number(number: int)
    | Flag(flag: bool)
    | Moment(time: Option<Time>)

  function Read(s: Service, f: Field): Value {
    match f
    case TenantId => Text(s.tenantId)
    case WorkspaceId => Text(s.workspaceId)
    case Name => Text(s.name)
    case Slug => Text(s.slug)
    case Description => Text(s.description)
    case UpstreamUrl => Text(s.upstreamUrl)
    case Port => Number(s.port)
    case ExecutablePath => Text(s.executablePath)
    case ExecArgs => Texts(s.execArgs)
    case WorkingDir => Text(s.workingDir)
    case AutoStart => Flag(s.autoStart)
    case ProcessState => Text(s.processState)
    case ProcessPid => Number(s.processPid)
    case StartedAt => Moment(s.startedAt)
    case PublicPath => Text(s.publicPath)
    case Status => Text(s.status)
    case CreatedAt => Number(s.createdAt)
  }

  // ---------------------------------------------------------------- what a call asks for

  /** The upstream a registration asks for: the one given, or its own port's. */
  function AskedUrl(env: Environment, s: Service): string {
    if env.trim(s.upstreamUrl) != "" || s.port <= 0 then s.upstreamUrl else Loopback(s.port)
  }

  function CanonicalText(env: Environment, url: string): Option<Value> {
    match env.canonicalize(url)
    case None => None
    case Some(c) => Some(Text(c))
  }

  /** The value a call asks a field to have; None when it leaves the field alone. */
  function Asked(env: Environment, call: Call, f: Field): Option<Value> {
    match call
    case Register(service, now) =>
      if service.None? then None
      else (match f
        case UpstreamUrl => CanonicalText(env, AskedUrl(env, service.value))
        case ProcessState => Some(Text(STOPPED))
        case ProcessPid => Some(Number(0))
        case StartedAt => Some(Moment(None))
        case CreatedAt => Some(Number(now))
        case _ => Some(Read(service.value, f)))
    case UpdateStatus(id, status, now) => if f.Status? then Some(Text(status)) else None
    case UpdateRoute(id, url, now) => if f.UpstreamUrl? then CanonicalText(env, url) else None
    case UpdateExecutable(id, port, execPath, execArgs, now) =>
      (match f
       case Port => Some(Number(port))
       case ExecutablePath => Some(Text(execPath))
       case ExecArgs => if execArgs == [] then None else Some(Texts(execArgs))
       case UpstreamUrl => if port > 0 then Some(Text(Loopback(port))) else None
       case _ => None)
    case UpdateFull(id, full, now) =>
      (match f
       case Name => Some(Text(full.name))
       case Slug => Some(Text(full.slug))
       case Description => Some(Text(full.description))
       case Port => Some(Number(full.port))
       case ExecutablePath => Some(Text(full.execPath))
       case ExecArgs => Some(Texts(full.execArgs))
       case WorkingDir => Some(Text(full.workingDir))
       case AutoStart => Some(Flag(full.autoStart))
       case UpstreamUrl => if full.port > 0 then Some(Text(Loopback(full.port))) else None
       case _ => None)
    case UpdateProcessRuntime(id, processState, pid, startedAt, now) =>
      (match f
       case ProcessState => Some(Text(processState))
       case ProcessPid => Some(Number(pid))
       case StartedAt => Some(Moment(startedAt))
       case _ => None)
    case _ => None
  }

  /** The id a call is about. */
  function Subject(call: Call): Option<string> {
    match call
    case Restore(_) => None
    case Register(service, _) => if service.Some? then Some(service.value.id) else None
    case UpdateStatus(id, _, _) => Some(id)
    case UpdateRoute(id, _, _) => Some(id)
    case UpdateExecutable(id, _, _, _, _) => Some(id)
    case UpdateProcessRuntime(id, _, _, _, _) => Some(id)
    case UpdateFull(id, _, _) => Some(id)
    case Unregister(id) => Some(id)
  }

  // ---------------------------------------------------------------- one call

  /** Canonicalising the upstream again would leave it, or fail. */
  predicate Plain(env: Environment, s: Service) {
    env.canonicalize(s.upstreamUrl).Some? ==> env.canonicalize(s.upstreamUrl).value == s.upstreamUrl
  }

  ghost predicate AllPlain(env: Environment, services: map<string, Service>) {
    forall id <- services :: Plain(env, services[id])
  }

  /** The field is as asked, or else as it was; validation fills in an empty process state. */
  ghost predicate Obeys(env: Environment, call: Call, f: Field, was: Option<Service>, s: Service) {
    match Asked(env, call, f)
    case Some(v) => Read(s, f) == v
    case None => was.Some? && (Read(s, f) == Read(was.value, f) || (f.ProcessState? && was.value.processState == ""))
  }

  lemma RegisterField(env: Environment, services: map<string, Service>, call: Call, f: Field)
    requires call.Register? && Candidate(env, services, call).Ok?
    ensures call.service.Some? && Candidate(env, services, call).value.id == call.service.value.id
    ensures Asked(env, call, f).Some? && Obeys(env, call, f, None, Candidate(env, services, call).value)
  {
    hide BadSlug, Loopback, SlugTaken;
    var s := Candidate(env, services, call).value;
    var d := Durable(call.service.value);
    assert s == d.(upstreamUrl := s.upstreamUrl, createdAt := call.now, updatedAt := call.now, version := 1);
    assert env.canonicalize(AskedUrl(env, call.service.value)) == Some(s.upstreamUrl);
    hide Candidate, Validate, Admit;
    match f
    case _ =>
  }

  lemma UpdateField(env: Environment, services: map<string, Service>, call: Call, f: Field)
    requires (call.UpdateStatus? || call.UpdateRoute? || call.UpdateExecutable?) && Candidate(env, services, call).Ok?
    ensures call.id in services
    ensures Obeys(env, call, f, Some(services[call.id]), Candidate(env, services, call).value)
  {
    hide Loopback, NextVersion;
    match f
    case _ =>
  }

  lemma FullField(env: Environment, services: map<string, Service>, call: Call, f: Field)
    requires call.UpdateFull? && Lawful(env) && AllPlain(env, services) && Candidate(env, services, call).Ok?
    ensures call.id in services
    ensures Obeys(env, call, f, Some(services[call.id]), Candidate(env, services, call).value)
  {
    hide BadSlug, Loopback, Lawful, SlugTaken;
    var s := Candidate(env, services, call).value;
    var w := Bumped(WithFull(services[call.id], call.full), call.now);
    FullUrl(env, services[call.id], call.full, call.now);
    ValidateKeeps(env, w);
    assert s == w.(upstreamUrl := s.upstreamUrl, processState := s.processState);
    hide Candidate, Validate;
    match f
    case _ =>
  }

  /** What is to be committed has each field as asked, or as it was. */
  lemma CandidateField(env: Environment, services: map<string, Service>, call: Call, f: Field)
    requires Lawful(env) && Indexed(services) && AllPlain(env, services) && Candidate(env, services, call).Ok?
    ensures var s := Candidate(env, services, call).value;
      && Subject(call) == Some(s.id)
      && Obeys(env, call, f, if s.id in services then Some(services[s.id]) else None, s)
  {
    hide Obeys, Lawful, AllPlain, Asked, Validate, Admit;
    if call.Register? {
      RegisterField(env, services, call, f);
      NewId(env, services, call);
    } else if call.UpdateFull? {
      FullField(env, services, call, f);
      FullId(env, services, call);
    } else {
      UpdateField(env, services, call, f);
    }
  }

  lemma NewId(env: Environment, services: map<string, Service>, call: Call)
    requires call.Register? && Candidate(env, services, call).Ok?
    ensures Candidate(env, services, call).value.id !in services
  {
    hide Validate, SlugTaken;
  }

  lemma FullId(env: Environment, services: map<string, Service>, call: Call)
    requires call.UpdateFull? && Indexed(services) && Candidate(env, services, call).Ok?
    ensures Candidate(env, services, call).value.id == call.id
  {
    hide BadSlug, Loopback, SlugTaken;
  }

  /** A loopback upstream is left as it is by validation, and so is the old one. */
  lemma FullUrl(env: Environment, s: Service, full: Full, now: Time)
    requires Lawful(env) && Plain(env, s) && Validate(env, Bumped(WithFull(s, full), now)).Ok?
    ensures Validate(env, Bumped(WithFull(s, full), now)).value.upstreamUrl
         == if full.port > 0 then Loopback(full.port) else s.upstreamUrl
  {
    hide BadSlug, Loopback;
  }

  /** What a call stamps on the service it changes. */
  function Stamp(call: Call): Time {
    match call
    case Register(_, now) => now
    case UpdateStatus(_, _, now) => now
    case UpdateRoute(_, _, now) => now
    case UpdateExecutable(_, _, _, _, now) => now
    case UpdateProcessRuntime(_, _, _, _, now) => now
    case UpdateFull(_, _, now) => now
    case _ => 0
  }

  lemma CandidateStamp(env: Environment, services: map<string, Service>, call: Call)
    requires Candidate(env, services, call).Ok?
    ensures Candidate(env, services, call).value.updatedAt == Stamp(call)
  {
    hide BadSlug, Loopback, SlugTaken;
  }

  lemma RuntimeField(env: Environment, st: State, call: Call, f: Field)
    requires call.UpdateProcessRuntime? && call.id in st.services
    ensures var s := Step(env, st, call).state.services[call.id];
      Obeys(env, call, f, Some(st.services[call.id]), s) && s.updatedAt == call.now
  {
    match f
    case _ =>
  }

  function Slotted(services: map<string, Service>, id: string): Option<Service> {
    if id in services then Some(services[id]) else None
  }

  /**
   A call that succeeds sets every field of its service as asked and leaves the rest of it, the time stamp and
   version apart; the store gets the durable snapshot of configuration updates.
   */
  lemma StepFields(env: Environment, st: State, call: Call, id: string, f: Field)
    requires Lawful(env) && Indexed(st.services) && AllPlain(env, st.services) && !call.Unregister?
    requires Step(env, st, call).error.None? && Subject(call) == Some(id)
    ensures var after := Step(env, st, call).state;
      && id in after.services && after.services[id].updatedAt == Stamp(call)
      && Obeys(env, call, f, Slotted(st.services, id), after.services[id])
      && (after.saved.Some? && !call.UpdateProcessRuntime? ==>
            id in after.saved.value && after.saved.value[id] == Durable(after.services[id]))
  {
    hide Obeys, Lawful, Indexed, AllPlain, Asked, Candidate;
    if call.UpdateProcessRuntime? {
      RuntimeField(env, st, call, f);
    } else {
      CandidateField(env, st.services, call, f);
      CandidateStamp(env, st.services, call);
    }
  }

  /** A call changes no service but its own, neither in memory nor in the store; one that fails changes none. */
  lemma OthersKept(env: Environment, st: State, call: Call, id: string)
    requires Lawful(env) && Indexed(st.services) && AllPlain(env, st.services) && !call.Restore?
    requires Step(env, st, call).error.Some? || Subject(call) != Some(id)
    ensures var after := Step(env, st, call).state;
      && Slotted(after.services, id) == Slotted(st.services, id)
      && after.saved.Some? == st.saved.Some?
      && (after.saved.Some? && (call.Unregister? ==> env.trim(call.id) != id) ==>
            Slotted(after.saved.value, id) == Slotted(st.saved.value, id))
  {
    hide Lawful, Indexed, AllPlain, Candidate;
    if !call.Unregister? && !call.UpdateProcessRuntime? && Candidate(env, st.services, call).Ok? {
      CandidateField(env, st.services, call, Name);
    }
  }

  /** A removal that succeeds takes the service out of memory, and the row of the trimmed id out of the store. */
  lemma Removed(env: Environment, st: State, id: string)
    requires Step(env, st, Unregister(id)).error.None?
    ensures var after := Step(env, st, Unregister(id)).state;
      id in st.services && id !in after.services && (after.saved.Some? ==> env.trim(id) !in after.saved.value)
  {
  }

  // ---------------------------------------------------------------- texts

  /** A slug is bad when it is empty or holds a space, a slash, a backslash, a question mark or a number sign. */
  lemma SlugExactly(slug: string)
    ensures BadSlug(slug)
      <==> slug == "" || ' ' in slug || '/' in slug || '\\' in slug || '?' in slug || '#' in slug
  {
    assert forall c <- " /\\?#" :: c == ' ' || c == '/' || c == '\\' || c == '?' || c == '#';
    var bad := " /\\?#";
    assert bad[0] == ' ' && bad[1] == '/' && bad[2] == '\\' && bad[3] == '?' && bad[4] == '#';
  }

  /** The upstream of a port names the loopback host, and the port can be read off it. */
  lemma LoopbackText(port: nat)
    ensures var url := Loopback(port);
      |url| > 17 && url[..17] == "http://127.0.0.1:" && AllDigits(url[17..]) && Numeral(url[17..]) == port
  {
    DecimalNumeral(port);
    assert Loopback(port)[17..] == Decimal(port);
  }

  // ---------------------------------------------------------------- when a call succeeds

  /** The store takes one more write. */
  predicate Stores(env: Environment, st: State, id: string) {
    st.saved.None? || (env.commits(st.calls) && env.trim(id) != "")
  }

  /** What must hold for a call to succeed. */
  predicate Grants(env: Environment, st: State, call: Call) {
    match call
    case Restore(rows) => RestoreFrom(env, map[], rows).Ok?
    case Register(service, _) =>
      && service.Some? && Named(env, service.value) && env.canonicalize(AskedUrl(env, service.value)).Some?
      && service.value.id !in st.services && !SlugTaken(st.services, service.value.slug)
      && Stores(env, st, service.value.id)
    case UpdateRoute(id, url, _) => id in st.services && env.canonicalize(url).Some? && Stores(env, st, id)
    case UpdateFull(id, full, _) =>
      && id in st.services && (full.slug == st.services[id].slug || !SlugTaken(st.services, full.slug))
      && Named(env, st.services[id].(slug := full.slug)) && Stores(env, st, id)
      && env.canonicalize(AskedUrl(env, WithFull(st.services[id], full))).Some?
    case UpdateProcessRuntime(id, _, _, _, _) => id in st.services
    case _ => Subject(call).value in st.services && Stores(env, st, Subject(call).value)
  }

  lemma SucceedsExactly(env: Environment, st: State, call: Call)
    requires Indexed(st.services)
    ensures Step(env, st, call).error.None? <==> Grants(env, st, call)
  {
    hide BadSlug, Loopback, RestoreFrom;
  }

  /** The first fault validation finds in a service. */
  predicate FirstFault(env: Environment, s: Service, reason: Invalid) {
    match reason
    case InvalidServiceId => env.trim(s.id) == ""
    case InvalidWorkspaceId => env.trim(s.id) != "" && env.trim(s.workspaceId) == ""
    case InvalidSlug => env.trim(s.id) != "" && env.trim(s.workspaceId) != "" && BadSlug(env.trim(s.slug))
    case InvalidUpstreamUrl => Named(env, s) && env.canonicalize(AskedUrl(env, s)).None?
  }

  /** No fault at all. */
  predicate Sound(env: Environment, s: Service) {
    Named(env, s) && env.canonicalize(AskedUrl(env, s)).Some?
  }

  /** What each error of a call says about it. */
  predicate Explains(env: Environment, st: State, call: Call, e: RegistryError) {
    match e
    case NotFound =>
      !call.Register? && Subject(call).Some? && Subject(call).value !in st.services
      && (call.UpdateRoute? ==> env.canonicalize(call.upstreamUrl).Some?)
    case Rejected(reason) =>
      call.UpdateRoute? && reason == InvalidUpstreamUrl && env.canonicalize(call.upstreamUrl).None?
    case AlreadyExists =>
      call.Register? && call.service.Some? && Sound(env, call.service.value) && call.service.value.id in st.services
    case SlugCollision =>
      || (call.Register? && call.service.Some? && Sound(env, call.service.value)
          && call.service.value.id !in st.services && SlugTaken(st.services, call.service.value.slug))
      || (call.UpdateFull? && call.id in st.services && call.full.slug != st.services[call.id].slug
          && SlugTaken(st.services, call.full.slug))
    case Validation(reason) =>
      || (call.Register? && if call.service.None? then reason == InvalidServiceId
                            else FirstFault(env, call.service.value, reason))
      || (call.UpdateFull? && call.id in st.services
          && FirstFault(env, WithFull(st.services[call.id], call.full), reason)
          && (call.full.slug == st.services[call.id].slug || !SlugTaken(st.services, call.full.slug)))
    case StoreFailed =>
      !call.UpdateProcessRuntime? && Subject(call).Some?
      && Grants(env, st.(saved := None), call) && !Stores(env, st, Subject(call).value)
  }

  /** A call that fails names what is wrong with it, the first thing the code looks at first. */
  lemma FailsFor(env: Environment, st: State, call: Call)
    requires Indexed(st.services) && !call.Restore? && Step(env, st, call).error.Some?
    ensures Explains(env, st, call, Step(env, st, call).error.value)
  {
    hide BadSlug, Loopback;
  }

  // ---------------------------------------------------------------- runs

  lemma CandidatePlain(env: Environment, services: map<string, Service>, call: Call)
    requires Lawful(env) && AllPlain(env, services) && Candidate(env, services, call).Ok?
    ensures Plain(env, Candidate(env, services, call).value)
  {
    hide BadSlug, Loopback, SlugTaken;
    match call
    case Register(service, now) => ValidatedCanonical(env, Durable(service.value));
    case UpdateFull(id, full, now) => ValidatedCanonical(env, Bumped(WithFull(services[id], full), now));
    case _ =>
  }

  lemma StepPlain(env: Environment, st: State, call: Call)
    requires Lawful(env) && AllPlain(env, st.services) && !call.Restore?
    ensures AllPlain(env, Step(env, st, call).state.services)
  {
    hide Lawful, Candidate;
    if !call.Unregister? && !call.UpdateProcessRuntime? && Candidate(env, st.services, call).Ok? {
      CandidatePlain(env, st.services, call);
    }
  }

  lemma {:induction false} RunPlain(env: Environment, st: State, calls: seq<Call>)
    requires Lawful(env) && AllPlain(env, st.services) && forall c <- calls :: !c.Restore?
    ensures AllPlain(env, Run(env, st, calls).services)
  {
    hide Step, Lawful, AllPlain;
    if calls != [] {
      var before, call := calls[..|calls| - 1], calls[|calls| - 1];
      assert call in calls && forall c <- before :: c in calls;
      RunPlain(env, st, before);
      StepPlain(env, Run(env, st, before), call);
    }
  }

  /** The call leaves the field of that service alone, or fails. */
  predicate Leaves(env: Environment, st: State, call: Call, id: string, f: Field) {
    Step(env, st, call).error.Some? || Subject(call) != Some(id) || (!call.Unregister? && Asked(env, call, f).None?)
  }

  ghost predicate AllLeave(env: Environment, st: State, calls: seq<Call>, id: string, f: Field) {
    forall k :: 0 <= k < |calls| ==> Leaves(env, Run(env, st, calls[..k]), calls[k], id, f)
  }

  lemma StepLeaves(env: Environment, st: State, call: Call, id: string, f: Field)
    requires Lawful(env) && Indexed(st.services) && AllPlain(env, st.services) && !call.Restore?
    requires Leaves(env, st, call, id, f) && id in st.services
    requires f.ProcessState? ==> st.services[id].processState != ""
    ensures var after := Step(env, st, call).state.services;
      id in after && Read(after[id], f) == Read(st.services[id], f)
  {
    hide Lawful, Indexed, AllPlain, Step, Asked;
    if Step(env, st, call).error.Some? || Subject(call) != Some(id) {
      OthersKept(env, st, call, id);
    } else {
      StepFields(env, st, call, id, f);
    }
  }

  lemma KeptState(s: Service, s': Service, f: Field)
    requires Read(s', f) == Read(s, f) && (f.ProcessState? ==> s.processState != "")
    ensures f.ProcessState? ==> s'.processState != ""
  {
  }

  /** Over calls that leave it alone a field keeps its value. */
  lemma {:induction false} RunLeaves(env: Environment, st: State, calls: seq<Call>, id: string, f: Field)
    requires Lawful(env) && WellFormed(env, st.services) && AllPlain(env, st.services)
    requires (forall c <- calls :: !c.Restore?) && AllLeave(env, st, calls, id, f) && id in st.services
    requires f.ProcessState? ==> st.services[id].processState != ""
    ensures var after := Run(env, st, calls).services; id in after && Read(after[id], f) == Read(st.services[id], f)
  {
    hide Step, Lawful, AllPlain, WellFormed, Leaves, Indexed, Read, Synced;
    if calls != [] {
      var last := |calls| - 1;
      var before, call := calls[..last], calls[last];
      assert call in calls && forall c <- before :: c in calls;
      assert AllLeave(env, st, before, id, f) by {
        assert forall k :: 0 <= k < last ==> before[..k] == calls[..k];
      }
      RunLeaves(env, st, before, id, f);
      RunPlain(env, st, before);
      RunInvariant(env, st, before);
      WellIndexed(env, Run(env, st, before).services);
      KeptState(st.services[id], Run(env, st, before).services[id], f);
      StepLeaves(env, Run(env, st, before), call, id, f);
    }
  }

  lemma WellIndexed(env: Environment, services: map<string, Service>)
    requires WellFormed(env, services)
    ensures Indexed(services)
  {
    hide Indexed;
  }

  lemma {:induction false} RunSplit(env: Environment, st: State, before: seq<Call>, after: seq<Call>)
    ensures Run(env, st, before + after) == Run(env, Run(env, st, before), after)
  {
    hide Step;
    if after == [] {
      assert before + after == before;
    } else {
      var last := |after| - 1;
      assert (before + after)[..|before + after| - 1] == before + after[..last];
      RunSplit(env, st, before, after[..last]);
    }
  }

  lemma RunOne(env: Environment, st: State, call: Call)
    ensures Run(env, st, [call]) == Step(env, st, call).state
  {
    assert [call][..0] == [];
  }

  lemma ReadState(s: Service, f: Field)
    ensures f.ProcessState? && Read(s, f) != Text("") ==> s.processState != ""
  {
  }

  lemma StoredField(st: State, id: string, f: Field)
    requires Synced(st) && st.saved.Some? && id in st.services && f.Stored()
    ensures id in st.saved.value && Read(st.saved.value[id], f) == Read(st.services[id], f)
  {
    var a, b := st.saved.value[id], Durable(st.services[id]);
    assert Same(a, b);
    assert Read(a, f) == Read(a.(updatedAt := 0), f) && Read(b, f) == Read(b.(updatedAt := 0), f);
  }

  /**
   Over every run: a field has the value that the last successful call to set it asked for, in memory, and in the
   store as long as that follows.
   */
  lemma FieldLasts(env: Environment, st: State, before: seq<Call>, call: Call, after: seq<Call>, id: string, f: Field)
    requires Lawful(env) && WellFormed(env, st.services) && AllPlain(env, st.services)
    requires forall c <- before + [call] + after :: !c.Restore?
    requires Step(env, Run(env, st, before), call).error.None? && Subject(call) == Some(id) && !call.Unregister?
    requires Asked(env, call, f).Some? && (f.ProcessState? ==> Asked(env, call, f).value != Text(""))
    requires AllLeave(env, Step(env, Run(env, st, before), call).state, after, id, f)
    ensures var end := Run(env, st, before + [call] + after);
      && id in end.services && Read(end.services[id], f) == Asked(env, call, f).value
      && (Synced(end) && end.saved.Some? && f.Stored() ==>
            id in end.saved.value && Read(end.saved.value[id], f) == Asked(env, call, f).value)
  {
    hide Step, Lawful, AllPlain, WellFormed, Asked, Read, AllLeave;
    var middle := Run(env, st, before);
    var made := Step(env, middle, call).state;
    assert forall c <- before :: c in before + [call] + after;
    assert forall c <- after :: c in before + [call] + after;
    assert call in before + [call] + after;
    RunPlain(env, st, before);
    RunInvariant(env, st, before);
    WellIndexed(env, middle.services);
    StepFields(env, middle, call, id, f);
    StepPlain(env, middle, call);
    StepWellFormed(env, middle, call);
    RunSplit(env, st, before + [call], after);
    RunSplit(env, st, before, [call]);
    RunOne(env, middle, call);
    ReadState(made.services[id], f);
    RunLeaves(env, made, after, id, f);
    var end := Run(env, made, after);
    if Synced(end) && end.saved.Some? && f.Stored() {
      StoredField(end, id, f);
    }
  }
}
