/** The service registry over its heap of shared objects (server/pkg/registry/service_registry.go). */
module ServiceRegistries {
  import opened Wrappers
  import opened Words
  import opened RegistrySpec

  /** A shared ProtectedService: what the source's maps and callers refer to. */
  class ServiceRef {
    var it: Service

    constructor (it: Service)
      ensures this.it == it
    {
      this.it := it;
    }
  }

  /** The durable store: a call commits or leaves everything as it was. */
  class Store {
    const env: Environment
    var saved: map<string, Service>
    var calls: nat

    constructor (env: Environment)
      ensures this.env == env && saved == EMPTY && calls == 0
    {
      this.env, saved, calls := env, EMPTY, 0;
    }

    method SaveService(s: Service) returns (ok: bool)
      modifies this
      ensures ok == (env.commits(old(calls)) && env.trim(s.id) != "") && calls == old(calls) + 1
      ensures saved == if ok then old(saved)[s.id := Durable(s)] else old(saved)
    {
      ok := env.commits(calls) && env.trim(s.id) != "";
      calls := calls + 1;
      if ok {
        saved := saved[s.id := Durable(s)];
      }
    }

    method DeleteService(id: string) returns (ok: bool)
      modifies this
      ensures ok == (env.commits(old(calls)) && env.trim(id) != "") && calls == old(calls) + 1
      ensures saved == if ok then old(saved) - {env.trim(id)} else old(saved)
    {
      ok := env.commits(calls) && env.trim(id) != "";
      calls := calls + 1;
      if ok {
        saved := saved - {env.trim(id)};
      }
    }
  }

  /** Both maps hold the same objects, each under its own id and slug. */
  ghost predicate Agree(byId: map<string, ServiceRef>, bySlug: map<string, ServiceRef>)
    reads byId.Values, bySlug.Values
  {
    && (forall id <- byId :: byId[id].it.id == id && byId[id].it.slug in bySlug && bySlug[byId[id].it.slug] == byId[id])
    && (forall slug <- bySlug ::
          bySlug[slug].it.slug == slug && bySlug[slug].it.id in byId && byId[bySlug[slug].it.id] == bySlug[slug])
  }

  ghost function ServicesOf(byId: map<string, ServiceRef>): map<string, Service>
    reads byId.Values
  {
    map id | id in byId :: byId[id].it
  }

  /** A slug is in the index exactly when a registered service has it. */
  lemma SlugIndex(byId: map<string, ServiceRef>, bySlug: map<string, ServiceRef>, slug: string)
    requires Agree(byId, bySlug)
    ensures slug in bySlug <==> SlugTaken(ServicesOf(byId), slug)
    ensures slug in bySlug ==> bySlug[slug].it.id in byId && byId[bySlug[slug].it.id] == bySlug[slug]
  {
    if slug in bySlug {
      assert ServicesOf(byId)[bySlug[slug].it.id].slug == slug;
    }
  }

  /** Entering an object under a free id and slug. */
  lemma AgreeInsert(byId: map<string, ServiceRef>, bySlug: map<string, ServiceRef>, c: ServiceRef)
    requires Agree(byId, bySlug) && c.it.id !in byId && c.it.slug !in bySlug
    ensures Agree(byId[c.it.id := c], bySlug[c.it.slug := c])
    ensures ServicesOf(byId[c.it.id := c]) == ServicesOf(byId)[c.it.id := c.it]
  {
  }

  function WithoutSlug(bySlug: map<string, ServiceRef>, before: string, after: string): map<string, ServiceRef> {
    if before != after then bySlug - {before} else bySlug
  }

  /** Putting one object in the place of another, whose slug it may leave. */
  lemma AgreeReplace(byId: map<string, ServiceRef>, bySlug: map<string, ServiceRef>, previous: ServiceRef,
                     c: ServiceRef)
    requires Agree(byId, bySlug) && c.it.id in byId && byId[c.it.id] == previous
    requires c.it.slug in bySlug ==> bySlug[c.it.slug] == previous
    ensures Agree(byId[c.it.id := c], WithoutSlug(bySlug, previous.it.slug, c.it.slug)[c.it.slug := c])
    ensures ServicesOf(byId[c.it.id := c]) == ServicesOf(byId)[c.it.id := c.it]
  {
  }

  lemma AgreeRemove(byId: map<string, ServiceRef>, bySlug: map<string, ServiceRef>, id: string)
    requires Agree(byId, bySlug) && id in byId
    ensures Agree(byId - {id}, bySlug - {byId[id].it.slug})
    ensures ServicesOf(byId - {id}) == ServicesOf(byId) - {id}
  {
  }

  lemma AgreeKeys(byId: map<string, ServiceRef>, bySlug: map<string, ServiceRef>, id: string)
    requires Agree(byId, bySlug) && id in byId
    ensures byId[id].it.id == id && byId[id].it.slug in bySlug && bySlug[byId[id].it.slug] == byId[id]
    ensures id in ServicesOf(byId) && ServicesOf(byId)[id] == byId[id].it
  {
  }

  /** The checks a new row goes through, on a detached durable copy. */
  method Admitted(env: Environment, service: ServiceRef?, byId: map<string, ServiceRef>,
                  bySlug: map<string, ServiceRef>)
    returns (r: Result<Service, RegistryError>)
    requires Agree(byId, bySlug)
    ensures r == Admit(env, ServicesOf(byId), if service == null then None else Some(service.it))
    ensures r.Ok? ==> r.value.id !in byId && r.value.slug !in bySlug
  {
    hide Validate, Agree, SlugTaken;
    if service == null {
      return Err(Validation(InvalidServiceId));
    }
    var validated := Validate(env, Durable(service.it));
    if validated.Err? {
      return Err(Validation(validated.error));
    }
    var c := validated.value;
    if c.id in byId {
      return Err(AlreadyExists);
    }
    SlugIndex(byId, bySlug, c.slug);
    if c.slug in bySlug {
      return Err(SlugCollision);
    }
    r := Ok(c);
  }

  /** Admit one row and enter it under its id and slug. */
  method Enter(env: Environment, service: ServiceRef?, byId: map<string, ServiceRef>, bySlug: map<string, ServiceRef>)
    returns (error: Option<RegistryError>, ids: map<string, ServiceRef>, slugs: map<string, ServiceRef>)
    requires Agree(byId, bySlug)
    ensures Agree(ids, slugs) && fresh(ids.Values - byId.Values)
    ensures match Admit(env, ServicesOf(byId), if service == null then None else Some(service.it))
      case Ok(c) => error == None && ServicesOf(ids) == ServicesOf(byId)[c.id := c]
      case Err(e) => error == Some(e)
  {
    hide Admit, Agree, ServicesOf;
    ids, slugs := byId, bySlug;
    var admitted := Admitted(env, service, byId, bySlug);
    if admitted.Err? {
      return Some(admitted.error), ids, slugs;
    }
    var candidate := new ServiceRef(admitted.value);
    AgreeInsert(byId, bySlug, candidate);
    ids, slugs := byId[candidate.it.id := candidate], bySlug[candidate.it.slug := candidate];
    error := None;
  }

  /** Writing one registered object, its id and slug apart, keeps both indexes; was holds the values before. */
  lemma AgreeWrite(byId: map<string, ServiceRef>, bySlug: map<string, ServiceRef>, was: map<ServiceRef, Service>,
                   id: string)
    requires Noted(byId, bySlug, was) && id in byId
    requires byId[id].it.id == was[byId[id]].id && byId[id].it.slug == was[byId[id]].slug
    requires forall s <- was :: s != byId[id] ==> s.it == was[s]
    ensures Agree(byId, bySlug)
  {
  }

  lemma ServicesWrite(byId: map<string, ServiceRef>, was: map<ServiceRef, Service>, id: string)
    requires id in byId && byId.Values <= was.Keys
    requires forall i <- byId :: i != id ==> byId[i] != byId[id]
    requires forall s <- was :: s != byId[id] ==> s.it == was[s]
    ensures ServicesOf(byId) == (map i | i in byId :: was[byId[i]])[id := byId[id].it]
  {
  }

  /** Agree, of values noted down earlier. */
  ghost predicate Noted(byId: map<string, ServiceRef>, bySlug: map<string, ServiceRef>, was: map<ServiceRef, Service>) {
    && (forall id <- byId ::
          byId[id] in was && was[byId[id]].id == id && was[byId[id]].slug in bySlug
          && bySlug[was[byId[id]].slug] == byId[id])
    && (forall slug <- bySlug ::
          bySlug[slug] in was && was[bySlug[slug]].slug == slug && was[bySlug[slug]].id in byId
          && byId[was[bySlug[slug]].id] == bySlug[slug])
  }

  lemma AgreeNoted(byId: map<string, ServiceRef>, bySlug: map<string, ServiceRef>, was: map<ServiceRef, Service>)
    requires Agree(byId, bySlug) && was == map s | s in byId.Values :: s.it
    ensures Noted(byId, bySlug, was)
    ensures ServicesOf(byId) == map i | i in byId :: was[byId[i]]
  {
  }

  class ServiceRegistry {
    const env: Environment
    const persistence: Store?
    var byId: map<string, ServiceRef>
    var bySlug: map<string, ServiceRef>

    ghost predicate Valid()
      reads this, byId.Values, bySlug.Values
    {
      (persistence != null ==> persistence.env == env) && Agree(byId, bySlug)
    }

    ghost function Saved(): Option<map<string, Service>>
      reads persistence
    {
      if persistence == null then None else Some(persistence.saved)
    }

    /** The registry and its store as a state of the specification. */
    ghost function Abstract(): State
      reads this, byId.Values, persistence
    {
      State(ServicesOf(byId), Saved(), if persistence == null then 0 else persistence.calls)
    }

    constructor (env: Environment, persistence: Store?)
      requires persistence != null ==> persistence.env == env
      ensures Valid() && this.persistence == persistence && this.env == env
      ensures ServicesOf(byId) == EMPTY
    {
      this.env, this.persistence, byId, bySlug := env, persistence, map[], map[];
    }

    method SaveServiceLocked(s: Service) returns (ok: bool)
      requires persistence != null ==> persistence.env == env
      modifies persistence
      ensures var out := Commit(env, old(Abstract()), s);
        && ok == out.error.None? && Saved() == out.state.saved && Abstract().calls == out.state.calls
        && out.error == (if ok then None else Some(StoreFailed))
        && out.state.services == if ok then old(Abstract()).services[s.id := s] else old(Abstract()).services
    {
      hide ServicesOf, Durable;
      ok := true;
      if persistence != null {
        ok := persistence.SaveService(s);
      }
    }

    /** Swap one object for another in both indexes. */
    method ReplaceServiceLocked(previous: ServiceRef, candidate: ServiceRef)
      requires Valid() && candidate.it.id in byId && byId[candidate.it.id] == previous
      requires candidate.it.slug in bySlug ==> bySlug[candidate.it.slug] == previous
      modifies this
      ensures Valid() && byId == old(byId)[candidate.it.id := candidate]
      ensures ServicesOf(byId) == old(ServicesOf(byId))[candidate.it.id := candidate.it]
    {
      hide Agree, ServicesOf;
      AgreeReplace(byId, bySlug, previous, candidate);
      if previous.it.slug != candidate.it.slug {
        bySlug := bySlug - {previous.it.slug};
      }
      byId := byId[candidate.it.id := candidate];
      bySlug := bySlug[candidate.it.slug := candidate];
    }

    /** Persist, then enter a new object under a free id and slug. */
    method CommitNew(c: Service) returns (error: Option<RegistryError>)
      requires Valid() && c.id !in byId && c.slug !in bySlug
      modifies this, persistence
      ensures Valid() && Outcome(Abstract(), error) == Commit(env, old(Abstract()), c)
      ensures error.Some? ==> byId == old(byId) && bySlug == old(bySlug)
      ensures fresh(byId.Values - old(byId.Values))
    {
      hide Agree, ServicesOf, Commit;
      var ok := SaveServiceLocked(c);
      if !ok {
        return Some(StoreFailed);
      }
      var candidate := new ServiceRef(c);
      AgreeInsert(byId, bySlug, candidate);
      byId := byId[c.id := candidate];
      bySlug := bySlug[c.slug := candidate];
      error := None;
    }

    /** Persist, then put a new object in place of a registered one. */
    method CommitReplacement(previous: ServiceRef, c: Service) returns (error: Option<RegistryError>)
      requires Valid() && c.id in byId && byId[c.id] == previous
      requires c.slug in bySlug ==> bySlug[c.slug] == previous
      modifies this, persistence
      ensures Valid() && Outcome(Abstract(), error) == Commit(env, old(Abstract()), c)
      ensures error.Some? ==> byId == old(byId) && bySlug == old(bySlug)
      ensures fresh(byId.Values - old(byId.Values))
    {
      hide Agree, ServicesOf, Commit;
      var ok := SaveServiceLocked(c);
      if !ok {
        return Some(StoreFailed);
      }
      var candidate := new ServiceRef(c);
      ReplaceServiceLocked(previous, candidate);
      error := None;
    }

    method Register(service: ServiceRef?, now: Time) returns (error: Option<RegistryError>)
      requires Valid()
      modifies this, persistence
      ensures Valid()
      ensures Outcome(Abstract(), error)
           == Step(env, old(Abstract()), Call.Register(if service == null then None else Some(old(service.it)), now))
      ensures error.Some? ==> byId == old(byId) && bySlug == old(bySlug)
      ensures fresh(byId.Values - old(byId.Values))
    {
      hide Admit, Commit, Agree;
      var admitted := Admitted(env, service, byId, bySlug);
      if admitted.Err? {
        return Some(admitted.error);
      }
      var c := admitted.value.(createdAt := now, updatedAt := now, version := 1);
      error := CommitNew(c);
    }

    /** A detached copy: never an object the registry keeps. */
    method GetById(id: string) returns (r: Result<ServiceRef, RegistryError>)
      requires Valid()
      ensures r.Ok? <==> id in ServicesOf(byId)
      ensures r.Ok? ==> fresh(r.value) && r.value.it == ServicesOf(byId)[id]
      ensures r.Err? ==> r.error == NotFound
    {
      if id !in byId {
        return Err(NotFound);
      }
      var copy := new ServiceRef(byId[id].it);
      r := Ok(copy);
    }

    method ResolveBySlug(slug: string) returns (r: Result<ServiceRef, RegistryError>)
      requires Valid()
      ensures r.Ok? <==> SlugTaken(ServicesOf(byId), slug)
      ensures r.Ok? ==> fresh(r.value) && r.value.it.slug == slug && r.value.it in ServicesOf(byId).Values
      ensures r.Err? ==> r.error == NotFound
    {
      SlugIndex(byId, bySlug, slug);
      if slug !in bySlug {
        return Err(NotFound);
      }
      assert ServicesOf(byId)[bySlug[slug].it.id] == bySlug[slug].it;
      var copy := new ServiceRef(bySlug[slug].it);
      r := Ok(copy);
    }

    /** One detached copy of every service. */
    method List() returns (list: seq<ServiceRef>)
      requires Valid()
      ensures |list| == |byId| && (forall i :: 0 <= i < |list| ==> fresh(list[i]))
      ensures forall i :: 0 <= i < |list| ==> list[i].it.id in byId && list[i].it == byId[list[i].it.id].it
      ensures forall i, j :: 0 <= i < j < |list| ==> list[i].it.id != list[j].it.id
    {
      hide Agree;
      list := [];
      var left := byId.Keys;
      while left != {}
        invariant left <= byId.Keys && |list| + |left| == |byId.Keys|
        invariant forall i :: 0 <= i < |list| ==> fresh(list[i])
        invariant forall i :: 0 <= i < |list| ==> list[i].it.id in byId && list[i].it.id !in left
        invariant forall i :: 0 <= i < |list| ==> list[i].it == byId[list[i].it.id].it
        invariant forall i, j :: 0 <= i < j < |list| ==> list[i].it.id != list[j].it.id
      {
        var id :| id in left;
        AgreeKeys(byId, bySlug, id);
        var copy := new ServiceRef(byId[id].it);
        list := list + [copy];
        left := left - {id};
      }
    }

    method UpdateStatus(id: string, status: string, now: Time) returns (error: Option<RegistryError>)
      requires Valid()
      modifies this, persistence
      ensures Valid() && Outcome(Abstract(), error) == Step(env, old(Abstract()), Call.UpdateStatus(id, status, now))
      ensures error.Some? ==> byId == old(byId) && bySlug == old(bySlug)
      ensures fresh(byId.Values - old(byId.Values))
    {
      hide Commit, Agree;
      if id !in byId {
        return Some(NotFound);
      }
      AgreeKeys(byId, bySlug, id);
      error := CommitReplacement(byId[id], Bumped(byId[id].it.(status := status), now));
    }

    method UpdateRoute(id: string, upstreamUrl: string, now: Time) returns (error: Option<RegistryError>)
      requires Valid()
      modifies this, persistence
      ensures Valid()
          && Outcome(Abstract(), error) == Step(env, old(Abstract()), Call.UpdateRoute(id, upstreamUrl, now))
      ensures error.Some? ==> byId == old(byId) && bySlug == old(bySlug)
      ensures fresh(byId.Values - old(byId.Values))
    {
      hide Commit, Agree;
      var canonical := env.canonicalize(upstreamUrl);
      if canonical.None? {
        return Some(Rejected(InvalidUpstreamUrl));
      }
      if id !in byId {
        return Some(NotFound);
      }
      AgreeKeys(byId, bySlug, id);
      error := CommitReplacement(byId[id], Bumped(byId[id].it.(upstreamUrl := canonical.value), now));
    }

    method UpdateExecutable(id: string, port: int, execPath: string, execArgs: seq<string>, now: Time)
      returns (error: Option<RegistryError>)
      requires Valid()
      modifies this, persistence
      ensures Valid()
      ensures Outcome(Abstract(), error)
           == Step(env, old(Abstract()), Call.UpdateExecutable(id, port, execPath, execArgs, now))
      ensures error.Some? ==> byId == old(byId) && bySlug == old(bySlug)
      ensures fresh(byId.Values - old(byId.Values))
    {
      hide Commit, Agree, Loopback;
      if id !in byId {
        return Some(NotFound);
      }
      AgreeKeys(byId, bySlug, id);
      error := CommitReplacement(byId[id], Bumped(WithExecutable(byId[id].it, port, execPath, execArgs), now));
    }

    method UpdateFull(id: string, full: Full, now: Time) returns (error: Option<RegistryError>)
      requires Valid()
      modifies this, persistence
      ensures Valid() && Outcome(Abstract(), error) == Step(env, old(Abstract()), Call.UpdateFull(id, full, now))
      ensures error.Some? ==> byId == old(byId) && bySlug == old(bySlug)
      ensures fresh(byId.Values - old(byId.Values))
    {
      hide Commit, Agree, Loopback, Validate, SlugTaken;
      if id !in byId {
        return Some(NotFound);
      }
      var svc := byId[id];
      AgreeKeys(byId, bySlug, id);
      SlugIndex(byId, bySlug, full.slug);
      if full.slug != svc.it.slug && full.slug in bySlug {
        return Some(SlugCollision);
      }
      var validated := Validate(env, Bumped(WithFull(svc.it, full), now));
      if validated.Err? {
        return Some(Validation(validated.error));
      }
      ValidateKeeps(env, Bumped(WithFull(svc.it, full), now));
      error := CommitReplacement(svc, validated.value);
    }

    /** Process state is written into the registered object itself, and nowhere else. */
    method UpdateProcessRuntime(id: string, processState: string, pid: int, startedAt: Option<Time>, now: Time)
      returns (error: Option<RegistryError>)
      requires Valid()
      modifies byId.Values
      ensures Valid() && byId == old(byId) && bySlug == old(bySlug)
      ensures forall s <- byId.Values :: s.it != old(s.it) ==> id in byId && s == byId[id]
      ensures Outcome(Abstract(), error)
           == Step(env, old(Abstract()), Call.UpdateProcessRuntime(id, processState, pid, startedAt, now))
    {
      hide Agree, ServicesOf, Noted;
      IdIndex(byId, id);
      if id !in byId {
        return Some(NotFound);
      }
      AgreeKeys(byId, bySlug, id);
      var svc := byId[id];
      ghost var was := map s | s in byId.Values :: s.it;
      AgreeNoted(byId, bySlug, was);
      svc.it := svc.it.(processState := processState, processPid := pid, startedAt := startedAt, updatedAt := now);
      AgreeWrite(byId, bySlug, was, id);
      ServicesWrite(byId, was, id);
      error := None;
    }

    method Unregister(id: string) returns (error: Option<RegistryError>)
      requires Valid()
      modifies this, persistence
      ensures Valid() && Outcome(Abstract(), error) == Step(env, old(Abstract()), Call.Unregister(id))
      ensures error.Some? ==> byId == old(byId) && bySlug == old(bySlug)
      ensures byId.Values <= old(byId.Values)
    {
      hide Agree, ServicesOf;
      IdIndex(byId, id);
      if id !in byId {
        return Some(NotFound);
      }
      var svc := byId[id];
      AgreeRemove(byId, bySlug, id);
      FewerValues(byId, id);
      if persistence != null {
        var ok := persistence.DeleteService(id);
        if !ok {
          return Some(StoreFailed);
        }
      }
      byId := byId - {id};
      bySlug := bySlug - {svc.it.slug};
      error := None;
    }

    /** Rebuild both maps from the store's rows; any bad row leaves the registry as it was. */
    method Restore(services: seq<ServiceRef?>) returns (error: Option<RegistryError>)
      requires Valid()
      modifies this
      ensures Valid() && Outcome(Abstract(), error) == Step(env, old(Abstract()), Call.Restore(old(Values(services))))
      ensures error.Some? ==> byId == old(byId) && bySlug == old(bySlug)
      ensures error.None? ==> fresh(byId.Values)
    {
      hide RestoreFrom, Agree, ServicesOf;
      var ids: map<string, ServiceRef>, slugs: map<string, ServiceRef>;
      error, ids, slugs := Rebuild(env, services);
      if error.None? {
        byId := ids;
        bySlug := slugs;
      }
    }
  }

  /** Both maps from scratch, before anything of the registry changes. */
  method Rebuild(env: Environment, services: seq<ServiceRef?>)
    returns (error: Option<RegistryError>, ids: map<string, ServiceRef>, slugs: map<string, ServiceRef>)
    ensures Agree(ids, slugs) && fresh(ids.Values)
    ensures match RestoreFrom(env, map[], Values(services))
      case Ok(m) => error == None && ServicesOf(ids) == m
      case Err(e) => error == Some(e)
  {
    hide Admit, Agree, ServicesOf;
    ids, slugs := map[], map[];
    AgreeEmpty();
    ghost var rows := Values(services);
    for i := 0 to |services|
      invariant Agree(ids, slugs) && fresh(ids.Values) && Values(services) == rows
      invariant RestoreFrom(env, map[], rows) == RestoreFrom(env, ServicesOf(ids), rows[i..])
    {
      assert rows[i..][0] == rows[i] && rows[i..][1..] == rows[i + 1..];
      error, ids, slugs := Enter(env, services[i], ids, slugs);
      if error.Some? {
        return;
      }
    }
    assert rows[|services|..] == [];
    error := None;
  }

  ghost function Values(services: seq<ServiceRef?>): (rows: seq<Option<Service>>)
    reads set s: ServiceRef | s in services
    ensures |rows| == |services|
    ensures forall i :: 0 <= i < |rows| ==> rows[i] == if services[i] == null then None else Some(services[i].it)
  {
    if services == [] then []
    else [if services[0] == null then None else Some(services[0].it)] + Values(services[1..])
  }

  lemma AgreeEmpty()
    ensures Agree(map[], map[]) && ServicesOf(map[]) == map[]
  {
  }

  lemma FewerValues(byId: map<string, ServiceRef>, id: string)
    ensures (byId - {id}).Values <= byId.Values
  {
  }

  lemma IdIndex(byId: map<string, ServiceRef>, id: string)
    ensures id in byId <==> id in ServicesOf(byId)
  {
  }
}
