/** Monotonic model revisions in tenant caches (zanzibar/zanzibar.go, zanzibar/model_cache.go). */
module ModelFence {
  import opened AuthModel

  /** A model source and the revision it was committed under. */
  datatype Entry = Entry(source: string, revision: int)

  type Cache = map<string, Entry>

  datatype FenceError = NoTenant | BadRevision | DoesNotCompile | StoreFailed

  /** The cache after an activation: only a newer revision gets in. */
  function Activated(c: Cache, tenantID: string, e: Entry): Cache {
    if tenantID in c && e.revision <= c[tenantID].revision then c else c[tenantID := e]
  }

  /** The tenant's own model, or else the default one, which is kept under the empty tenant ID. */
  function Served(c: Cache, tenantID: string): Option<Entry> {
    if tenantID in c then Some(c[tenantID]) else if "" in c then Some(c[""]) else None
  }

  class ModelEngine {
    var cache: Cache
    var defaultModel: Option<Entry>
    const compiles: string -> bool

    ghost predicate Valid() reads this {
      "" !in cache
    }

    /** All the fenced lines of this engine, the default model's under the empty tenant ID. */
    ghost function Lines(): Cache reads this {
      if defaultModel.Some? then cache["" := defaultModel.value] else cache
    }

    constructor (compiles: string -> bool)
      ensures Valid() && Lines() == map[] && this.compiles == compiles
    {
      cache := map[];
      defaultModel := None;
      this.compiles := compiles;
    }

    function Resolve(tenantID: string): (r: Option<Entry>)
      reads this
      requires Valid()
      ensures r == Served(Lines(), tenantID)
      ensures tenantID in cache ==> r == Some(cache[tenantID])
      ensures tenantID !in cache ==> r == defaultModel
    {
      if tenantID != "" && tenantID in cache then Some(cache[tenantID]) else defaultModel
    }

    /** The default model is one more fenced line; tenants' entries stay as they are. */
    method ActivateModel(source: string, revision: int) returns (err: Option<FenceError>)
      requires Valid()
      modifies `defaultModel
      ensures Valid()
      ensures err == if revision <= 0 then Some(BadRevision)
                     else if !compiles(source) then Some(DoesNotCompile) else None
      ensures Lines() == if err.None? then Activated(old(Lines()), "", Entry(source, revision)) else old(Lines())
      ensures err.None? && (old(defaultModel).None? || revision > old(defaultModel).value.revision) ==>
        defaultModel == Some(Entry(source, revision))
      ensures old(defaultModel).Some? && revision <= old(defaultModel).value.revision ==>
        defaultModel == old(defaultModel)
    {
      if revision <= 0 { return Some(BadRevision); }
      if !compiles(source) { return Some(DoesNotCompile); }
      if defaultModel.Some? && revision <= defaultModel.value.revision { return None; }
      defaultModel := Some(Entry(source, revision));
      return None;
    }

    method ActivateModelForTenant(tenantID: string, source: string, revision: int) returns (err: Option<FenceError>)
      requires Valid()
      modifies `cache
      ensures Valid()
      ensures err == if tenantID == "" then Some(NoTenant) else if revision <= 0 then Some(BadRevision)
                     else if !compiles(source) then Some(DoesNotCompile) else None
      ensures Lines() == if err.None? then Activated(old(Lines()), tenantID, Entry(source, revision)) else old(Lines())
      ensures err.None? && (tenantID !in old(cache) || revision > old(cache)[tenantID].revision) ==>
        cache == old(cache)[tenantID := Entry(source, revision)]
      ensures tenantID in old(cache) && revision <= old(cache)[tenantID].revision ==> cache == old(cache)
    {
      if tenantID == "" { return Some(NoTenant); }
      if revision <= 0 { return Some(BadRevision); }
      if !compiles(source) { return Some(DoesNotCompile); }
      if tenantID in cache && revision <= cache[tenantID].revision { return None; }
      cache := cache[tenantID := Entry(source, revision)];
      return None;
    }

    /** Why a refresh with this answer of the store fails, if it does. */
    ghost function RefreshError(tenantID: string, got: Option<Entry>): Option<FenceError> {
      if tenantID == "" then Some(NoTenant)
      else if got.None? then Some(StoreFailed)
      else if got.value == Entry("", 0) then None
      else if got.value.source == "" || got.value.revision <= 0 then Some(BadRevision)
      else if !compiles(got.value.source) then Some(DoesNotCompile) else None
    }

    /** got is the store's answer; an empty source at revision 0 means nothing is persisted. */
    method RefreshModelForTenant(tenantID: string, got: Option<Entry>) returns (r: Result<Option<Entry>, FenceError>)
      requires Valid()
      modifies `cache
      ensures Valid()
      ensures match RefreshError(tenantID, got)
              case Some(e) => r == Err(e) && Lines() == old(Lines())
              case None =>
                && r == Ok(Served(Lines(), tenantID))
                && (if got.value == Entry("", 0) then Lines() == old(Lines())
                    else Lines() == Activated(old(Lines()), tenantID, got.value)
                         && r.value.Some? && r.value.value.revision >= got.value.revision)
      ensures r.Ok? ==>
        && tenantID != "" && got.Some?
        && (|| got.value == Entry("", 0)
            || (got.value.source != "" && got.value.revision > 0 && compiles(got.value.source)))
    {
      if tenantID == "" { return Err(NoTenant); }
      if got.None? { return Err(StoreFailed); }
      var stored := got.value;
      if stored.source == "" && stored.revision == 0 { return Ok(Resolve(tenantID)); }
      if stored.source == "" || stored.revision <= 0 { return Err(BadRevision); }
      var err := ActivateModelForTenant(tenantID, stored.source, stored.revision);
      if err.Some? { return Err(err.value); }
      return Ok(Resolve(tenantID));
    }

    /** Why a persisted entry cannot be loaded, if it cannot. */
    ghost function EntryError(tenantID: string, e: Entry): Option<FenceError> {
      if e.source == "" || e.revision <= 0 then Some(BadRevision)
      else if tenantID == "" then Some(NoTenant)
      else if !compiles(e.source) then Some(DoesNotCompile) else None
    }

    /** Startup: every persisted model goes through the fence, until one is unusable. */
    method LoadPersistedModels(listed: Option<map<string, Entry>>) returns (err: Option<FenceError>)
      requires Valid()
      modifies `cache
      ensures Valid()
      ensures forall t <- old(Lines()) :: t in Lines() && old(Lines())[t].revision <= Lines()[t].revision
      ensures forall t <- Lines() :: (t in old(Lines()) && Lines()[t] == old(Lines())[t])
                                     || (listed.Some? && t in listed.value && Lines()[t] == listed.value[t])
      ensures listed.None? ==> err == Some(StoreFailed) && Lines() == old(Lines())
      ensures listed.Some? ==>
        && (err.None? <==> forall t <- listed.value :: EntryError(t, listed.value[t]).None?)
        && (err.Some? ==> exists t <- listed.value :: EntryError(t, listed.value[t]) == err)
        && (err.None? ==> forall t <- listed.value :: t in Lines() && listed.value[t].revision <= Lines()[t].revision)
        && (err.None? ==> forall t <- listed.value ::
              && t != "" && listed.value[t].source != "" && listed.value[t].revision > 0
              && compiles(listed.value[t].source))
    {
      if listed.None? { return Some(StoreFailed); }
      var models := listed.value;
      var left := models.Keys;
      while left != {}
        invariant left <= models.Keys && Valid()
        invariant forall t <- old(Lines()) :: t in Lines() && old(Lines())[t].revision <= Lines()[t].revision
        invariant forall t <- Lines() :: (t in old(Lines()) && Lines()[t] == old(Lines())[t])
                                         || (t in models && Lines()[t] == models[t])
        invariant forall t | t in models && t !in left ::
          EntryError(t, models[t]).None? && t in Lines() && models[t].revision <= Lines()[t].revision
      {
        var t :| t in left;
        left := left - {t};
        if models[t].source == "" || models[t].revision <= 0 { return Some(BadRevision); }
        err := ActivateModelForTenant(t, models[t].source, models[t].revision);
        if err.Some? { return err; }
      }
      return None;
    }
  }

  // ---- many engines over one store ----

  /**
   * committed: everything ever saved; latest: what the store returns now; held: answers an engine has read or been
   * handed by a save and may activate at any later time; caches: the lines of each engine. The default model is the
   * line of the empty tenant ID, saved by the control plane and handed out by its updates.
   */
  datatype Sys = Sys(
    committed: set<(string, Entry)>, latest: map<string, Entry>,
    held: set<(nat, string, Entry)>, caches: map<nat, Cache>)

  datatype Action =
    | Save(engine: nat, tenantID: string, entry: Entry)
    | Fetch(engine: nat, tenantID: string)
    | Activate(engine: nat, tenantID: string, entry: Entry)

  const START := Sys({}, map[], {}, map[])

  function CacheOf(s: Sys, engine: nat): Cache {
    if engine in s.caches then s.caches[engine] else map[]
  }

  /** A save gets a revision above all earlier ones of the tenant; an activation uses an answer the engine holds. */
  predicate Enabled(s: Sys, a: Action) {
    match a
    case Save(_, t, e) => e.revision > 0 && (t in s.latest ==> e.revision > s.latest[t].revision)
    case Fetch(_, t) => t in s.latest
    case Activate(n, t, e) => (n, t, e) in s.held
  }

  function Next(s: Sys, a: Action): Sys
    requires Enabled(s, a)
  {
    match a
    case Save(n, t, e) =>
      s.(committed := s.committed + {(t, e)}, latest := s.latest[t := e], held := s.held + {(n, t, e)})
    case Fetch(n, t) => s.(held := s.held + {(n, t, s.latest[t])})
    case Activate(n, t, e) => s.(caches := s.caches[n := Activated(CacheOf(s, n), t, e)])
  }

  ghost predicate Run(states: seq<Sys>, actions: seq<Action>) {
    && |states| == |actions| + 1 && states[0] == START
    && forall i | 0 <= i < |actions| :: Enabled(states[i], actions[i]) && states[i + 1] == Next(states[i], actions[i])
  }

  /** Revisions identify sources, the store is at the top, and everything held or cached was committed. */
  ghost predicate Sound(s: Sys) {
    && (forall t, e, e' | (t, e) in s.committed && (t, e') in s.committed :: e.revision == e'.revision ==> e == e')
    && (forall t, e | (t, e) in s.committed :: t in s.latest && 0 < e.revision <= s.latest[t].revision)
    && (forall t <- s.latest :: (t, s.latest[t]) in s.committed)
    && (forall n, t, e | (n, t, e) in s.held :: (t, e) in s.committed)
    && (forall n, t | n in s.caches && t in s.caches[n] :: (t, s.caches[n][t]) in s.committed)
  }

  lemma SaveSound(s: Sys, n: nat, t: string, e: Entry)
    requires Sound(s) && Enabled(s, Save(n, t, e))
    ensures Sound(Next(s, Save(n, t, e)))
  {
  }

  lemma FetchSound(s: Sys, n: nat, t: string)
    requires Sound(s) && Enabled(s, Fetch(n, t))
    ensures Sound(Next(s, Fetch(n, t)))
  {
  }

  lemma ActivateSound(s: Sys, n: nat, t: string, e: Entry)
    requires Sound(s) && Enabled(s, Activate(n, t, e))
    ensures Sound(Next(s, Activate(n, t, e)))
  {
    var s' := Next(s, Activate(n, t, e));
    forall m, u | m in s'.caches && u in s'.caches[m] ensures (u, s'.caches[m][u]) in s'.committed {
      if m == n { assert u == t || u in CacheOf(s, n); }
    }
  }

  lemma NextSound(s: Sys, a: Action)
    requires Sound(s) && Enabled(s, a)
    ensures Sound(Next(s, a))
  {
    hide Sound, Next, Enabled;
    match a
    case Save(n, t, e) => SaveSound(s, n, t, e);
    case Fetch(n, t) => FetchSound(s, n, t);
    case Activate(n, t, e) => ActivateSound(s, n, t, e);
  }

  lemma {:induction false} RunSound(states: seq<Sys>, actions: seq<Action>, i: nat)
    requires Run(states, actions) && i < |states|
    ensures Sound(states[i])
  {
    if i > 0 {
      RunSound(states, actions, i - 1);
      NextSound(states[i - 1], actions[i - 1]);
    }
  }

  /** Whatever is cached was committed under exactly that revision, and is no newer than the store. */
  lemma CachedWasCommitted(states: seq<Sys>, actions: seq<Action>, i: nat, engine: nat, tenantID: string)
    requires Run(states, actions) && i < |states| && tenantID in CacheOf(states[i], engine)
    ensures
      var s, e := states[i], CacheOf(states[i], engine)[tenantID];
      && (tenantID, e) in s.committed
      && (forall e' | (tenantID, e') in s.committed && e'.revision == e.revision :: e' == e)
      && tenantID in s.latest && e.revision <= s.latest[tenantID].revision
      && (e.revision == s.latest[tenantID].revision ==> e == s.latest[tenantID])
  {
    RunSound(states, actions, i);
  }

  /** A tenant's cached revision never falls and an equal revision is the same model, across any interleaving. */
  lemma {:induction false} CacheNeverGoesBack(states: seq<Sys>, actions: seq<Action>, i: nat, j: nat,
                                              engine: nat, tenantID: string)
    requires Run(states, actions) && i <= j < |states| && tenantID in CacheOf(states[i], engine)
    ensures
      var before, after := CacheOf(states[i], engine), CacheOf(states[j], engine);
      && tenantID in after && before[tenantID].revision <= after[tenantID].revision
      && (before[tenantID].revision == after[tenantID].revision ==> before[tenantID] == after[tenantID])
    decreases j - i
  {
    if i < j {
      CacheNeverGoesBack(states, actions, i, j - 1, engine, tenantID);
      assert states[j] == Next(states[j - 1], actions[j - 1]);
    }
  }

  /** Once an engine has activated an answer it read, it serves at least that revision from then on. */
  lemma RefreshTakesHold(states: seq<Sys>, actions: seq<Action>, i: nat, j: nat)
    requires Run(states, actions) && i < j < |states| && actions[i].Activate?
    ensures
      var a := actions[i];
      var c := CacheOf(states[j], a.engine);
      a.tenantID in c && c[a.tenantID].revision >= a.entry.revision
  {
    assert states[i + 1] == Next(states[i], actions[i]);
    CacheNeverGoesBack(states, actions, i + 1, j, actions[i].engine, actions[i].tenantID);
  }

  /** The revision a tenant is served never falls, except when its first own model takes over from the default. */
  lemma ServedNeverGoesBack(states: seq<Sys>, actions: seq<Action>, i: nat, j: nat, engine: nat, tenantID: string)
    requires Run(states, actions) && i <= j < |states|
    requires Served(CacheOf(states[i], engine), tenantID).Some?
    requires tenantID in CacheOf(states[i], engine) || tenantID !in CacheOf(states[j], engine)
    ensures
      var before, after := Served(CacheOf(states[i], engine), tenantID), Served(CacheOf(states[j], engine), tenantID);
      && after.Some? && before.value.revision <= after.value.revision
      && (before.value.revision == after.value.revision ==> before == after)
  {
    var line := if tenantID in CacheOf(states[i], engine) then tenantID else "";
    CacheNeverGoesBack(states, actions, i, j, engine, line);
  }

  /** The exception is real: revisions of the default and of a tenant are counted apart. */
  lemma FirstOwnModelMayBeOlder()
    ensures exists states: seq<Sys>, actions: seq<Action>, i: nat, j: nat ::
      && Run(states, actions) && i < j < |states|
      && var before, after := Served(CacheOf(states[i], 0), "t"), Served(CacheOf(states[j], 0), "t");
         before.Some? && after.Some? && after.value.revision < before.value.revision
  {
    var base, own := Entry("base", 5), Entry("own", 1);
    var actions := [Save(0, "", base), Activate(0, "", base), Save(0, "t", own), Activate(0, "t", own)];
    var s1 := Next(START, actions[0]);
    var s2 := Next(s1, actions[1]);
    var s3 := Next(s2, actions[2]);
    var s4 := Next(s3, actions[3]);
    var states := [START, s1, s2, s3, s4];
    assert Run(states, actions);
    assert Served(CacheOf(states[2], 0), "t") == Some(base) && Served(CacheOf(states[4], 0), "t") == Some(own);
  }
}
