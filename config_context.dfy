/**
 * The configuration-only runtime context: loading a policy registers the configuration model
 * for the configured environment under the policy's patch identifier; invoking looks up the
 * configuration matching a business event.
 */
module ConfigContext {
  import opened Wrappers
  import opened Entities
  import opened Errors
  import opened PolicyErrors
  import opened PolicyResults
  import opened ConfigManagement

  /**
   * `ConfigManagementModel.getConfiguration(businessEventName, strategy)`, a library call: the
   * configuration map of the use case matching the event, if any.
   */
  type ConfigMatcher = (ConfigModel, string) -> Option<map<string, Value>>

  /** The context's maps: its own copy of the models, the latest info per entity id, and the config service's map. */
  datatype ConfigContextState = ConfigContextState(
    configItems: map<string, ConfigModel>,
    latestLoaded: map<string, EntityInfo>,
    configurations: map<string, ConfigModel>)

  /**
   * The context's invariant: its own copy of the models mirrors the config service, and every
   * latest-loaded info is filed under its own entity id.
   */
  ghost predicate ContextValid(st: ConfigContextState) {
    st.configItems == st.configurations &&
    forall id | id in st.latestLoaded :: st.latestLoaded[id].id == id
  }

  /** The outcome of a load or unload: the new maps and the exception thrown, if any. */
  datatype ConfigReaction = ConfigReaction(state: ConfigContextState, thrown: Option<Exception>)

  /**
   * `load`: a policy with a configuration model for the environment is registered under its
   * patch identifier and becomes its entity's latest version; a policy without one changes
   * nothing; any other kind of entity is refused.
   */
  function LoadStep(env: Option<string>, st: ConfigContextState, entity: Entity): (r: ConfigReaction)
    ensures entity.OtherKind? ==> r == ConfigReaction(st, Some(UnsupportedEntityType(entity.info)))
    ensures entity.Policy? ==> r.thrown.None?
    ensures entity.Policy? && entity.ConfigManagementModelForEnv(env).None? ==> r.state == st
    ensures entity.Policy? && entity.ConfigManagementModelForEnv(env).Some? ==>
      var p := PatchIdentifier(entity.info.version);
      var m := entity.ConfigManagementModelForEnv(env).value;
      p in r.state.configurations && r.state.configurations[p] == m &&
      entity.info.id in r.state.latestLoaded && r.state.latestLoaded[entity.info.id] == entity.info &&
      r.state.configItems.Keys == st.configItems.Keys + {p}
    // nothing else changes: no earlier patch of the entity is cleaned up
    ensures entity.Policy? && entity.ConfigManagementModelForEnv(env).Some? ==>
      var p := PatchIdentifier(entity.info.version);
      var m := entity.ConfigManagementModelForEnv(env).value;
      r.state == ConfigContextState(st.configItems[p := m], st.latestLoaded[entity.info.id := entity.info], st.configurations[p := m])
  {
    if entity.OtherKind? then ConfigReaction(st, Some(UnsupportedEntityType(entity.info)))
    else
      match entity.ConfigManagementModelForEnv(env)
      case None => ConfigReaction(st, None)
      case Some(m) =>
        var p := PatchIdentifier(entity.info.version);
        ConfigReaction(
          ConfigContextState(st.configItems[p := m], st.latestLoaded[entity.info.id := entity.info], st.configurations[p := m]),
          None)
  }

  /**
   * `unload`: when the patch is registered, its model is dropped from both maps and the
   * info's entity id is forgotten, whichever version that id last loaded.
   */
  function UnloadStep(st: ConfigContextState, info: EntityInfo): (r: ConfigContextState)
    ensures PatchIdentifier(info.version) !in st.configItems ==> r == st
    ensures PatchIdentifier(info.version) in st.configItems ==>
      PatchIdentifier(info.version) !in r.configItems &&
      PatchIdentifier(info.version) !in r.configurations &&
      info.id !in r.latestLoaded
    // only that patch and that entity id are dropped
    ensures PatchIdentifier(info.version) in st.configItems ==>
      var p := PatchIdentifier(info.version);
      r == ConfigContextState(st.configItems - {p}, st.latestLoaded - {info.id}, st.configurations - {p})
  {
    var p := PatchIdentifier(info.version);
    if p in st.configItems then
      ConfigContextState(st.configItems - {p}, st.latestLoaded - {info.id}, st.configurations - {p})
    else st
  }

  lemma LoadValid(env: Option<string>, st: ConfigContextState, entity: Entity)
    requires ContextValid(st)
    ensures ContextValid(LoadStep(env, st, entity).state)
  {
  }

  lemma UnloadValid(st: ConfigContextState, info: EntityInfo)
    requires ContextValid(st)
    ensures ContextValid(UnloadStep(st, info))
  {
  }

  /** `getLoadedEntities`: the latest info of every entity id. */
  function LoadedEntities(st: ConfigContextState): (infos: set<EntityInfo>)
    ensures forall id | id in st.latestLoaded :: st.latestLoaded[id] in infos
    ensures forall info | info in infos :: exists id | id in st.latestLoaded :: st.latestLoaded[id] == info
  {
    st.latestLoaded.Values
  }

  function MissingConfigMessage(businessEventName: string): string {
    "Could not find config with the use case name '" + businessEventName + "' in requested policy."
  }

  /**
   * `invoke`: the configuration of the patch that matches the business event; a missing
   * configuration, no match and an empty match are all reported as a missing config.
   */
  function InvokeOn(matcher: ConfigMatcher, st: ConfigContextState, policyVersion: LogicalVersion, businessEventName: string)
    : (r: PolicyResult<map<string, Value>>)
    ensures r.Success? <==>
      var p := PatchIdentifier(policyVersion);
      p in st.configurations && matcher(st.configurations[p], businessEventName).Some? &&
      matcher(st.configurations[p], businessEventName).value != map[]
    ensures r.Success? ==> r.value == matcher(st.configurations[PatchIdentifier(policyVersion)], businessEventName).value
    ensures r.Failure? ==> r.info == PolicyErrorInfo(BAD_REQUEST_MISSING_CONFIG, MissingConfigMessage(businessEventName))
  {
    var p := PatchIdentifier(policyVersion);
    var configMap := if p in st.configurations then
      (match matcher(st.configurations[p], businessEventName) case Some(m) => m case None => map[])
      else map[];
    if configMap == map[] then PolicyResult.Failure(PolicyErrorInfo(BAD_REQUEST_MISSING_CONFIG, MissingConfigMessage(businessEventName)))
    else PolicyResult.Success(configMap)
  }

  /** After a policy with a model is loaded, invoking its version answers from that model. */
  lemma LoadThenInvoke(matcher: ConfigMatcher, env: Option<string>, st: ConfigContextState, entity: Entity, event: string)
    requires entity.Policy? && entity.ConfigManagementModelForEnv(env).Some?
    ensures var m := entity.ConfigManagementModelForEnv(env).value;
      var r := InvokeOn(matcher, LoadStep(env, st, entity).state, entity.info.version, event);
      r.Success? <==> matcher(m, event).Some? && matcher(m, event).value != map[]
  {
  }

  /**
   * Loading a newer patch of an entity keeps the older patch's configuration registered and
   * answering, while the entity's latest version becomes the newer one.
   */
  lemma LoadNewerKeepsOlderConfiguration(matcher: ConfigMatcher, env: Option<string>, st: ConfigContextState,
                                         older: Entity, newer: Entity, event: string)
    requires older.Policy? && newer.Policy? && older.info.id == newer.info.id
    requires older.ConfigManagementModelForEnv(env).Some? && newer.ConfigManagementModelForEnv(env).Some?
    requires PatchIdentifier(older.info.version) != PatchIdentifier(newer.info.version)
    ensures var once := LoadStep(env, st, older).state;
      var twice := LoadStep(env, once, newer).state;
      InvokeOn(matcher, twice, older.info.version, event) == InvokeOn(matcher, once, older.info.version, event) &&
      twice.latestLoaded[newer.info.id] == newer.info
  {
  }

  /** After unloading a loaded patch, invoking its version reports a missing config. */
  lemma UnloadThenInvokeFails(matcher: ConfigMatcher, st: ConfigContextState, info: EntityInfo, event: string)
    requires ContextValid(st)
    requires PatchIdentifier(info.version) in st.configItems
    ensures InvokeOn(matcher, UnloadStep(st, info), info.version, event).Failure?
  {
  }

  /**
   * Unloading an older patch of an entity after a newer one was loaded forgets the entity's
   * latest version, although the newer patch's configuration is still registered.
   */
  lemma UnloadOlderPatchForgetsNewer(env: Option<string>, st: ConfigContextState, older: Entity, newer: Entity)
    requires ContextValid(st)
    requires older.Policy? && newer.Policy? && older.info.id == newer.info.id
    requires older.ConfigManagementModelForEnv(env).Some? && newer.ConfigManagementModelForEnv(env).Some?
    requires PatchIdentifier(older.info.version) != PatchIdentifier(newer.info.version)
    ensures var loaded := LoadStep(env, LoadStep(env, st, older).state, newer).state;
      var after := UnloadStep(loaded, older.info);
      newer.info !in LoadedEntities(after) && PatchIdentifier(newer.info.version) in after.configurations
  {
    var loaded := LoadStep(env, LoadStep(env, st, older).state, newer).state;
    var after := UnloadStep(loaded, older.info);
    assert ContextValid(after) by {
      LoadValid(env, st, older);
      LoadValid(env, LoadStep(env, st, older).state, newer);
      UnloadValid(loaded, older.info);
    }
  }

  /** `ConfigPolicyRuntimeContext`: the load target and invocation context for configuration policies. */
  class ConfigPolicyRuntimeContext {
    const matcher: ConfigMatcher
    const configEnvironment: Option<string>
    const configManagementService: ConfigManagementService
    var configItems: map<string, ConfigModel>
    var latestLoadedEntityVersionNumber: map<string, EntityInfo>

    function State(): ConfigContextState
      reads this, configManagementService
    {
      ConfigContextState(configItems, latestLoadedEntityVersionNumber, configManagementService.configurationMap)
    }

    ghost predicate Valid()
      reads this, configManagementService
    {
      ContextValid(State())
    }

    constructor(matcher: ConfigMatcher, configEnvironment: Option<string>)
      ensures this.matcher == matcher && this.configEnvironment == configEnvironment
      ensures State() == ConfigContextState(map[], map[], map[]) && Valid()
      ensures fresh(configManagementService)
    {
      this.matcher := matcher;
      this.configEnvironment := configEnvironment;
      configManagementService := new ConfigManagementService();
      configItems := map[];
      latestLoadedEntityVersionNumber := map[];
    }

    method Load(entity: Entity) returns (thrown: Option<Exception>)
      requires Valid()
      modifies this, configManagementService
      ensures ConfigReaction(State(), thrown) == LoadStep(configEnvironment, old(State()), entity)
      ensures Valid()
    {
      LoadValid(configEnvironment, State(), entity);
      if entity.OtherKind? {
        return Some(UnsupportedEntityType(entity.info));
      }
      var patchId := PatchIdentifier(entity.info.version);
      var model := entity.ConfigManagementModelForEnv(configEnvironment);
      if model.Some? {
        configManagementService.SetPolicyConfiguration(patchId, model);
        configItems := configItems[patchId := model.value];
        latestLoadedEntityVersionNumber := latestLoadedEntityVersionNumber[entity.info.id := entity.info];
      }
      thrown := None;
    }

    method Unload(info: EntityInfo)
      requires Valid()
      modifies this, configManagementService
      ensures State() == UnloadStep(old(State()), info)
      ensures Valid()
    {
      UnloadValid(State(), info);
      var patchIdentifier := PatchIdentifier(info.version);
      if patchIdentifier in configItems {
        configItems := configItems - {patchIdentifier};
        latestLoadedEntityVersionNumber := latestLoadedEntityVersionNumber - {info.id};
        var _ := configManagementService.DeletePolicyConfiguration(patchIdentifier);
      }
    }

    function GetLoadedEntities(): (infos: set<EntityInfo>)
      reads this, configManagementService
      ensures infos == LoadedEntities(State())
    {
      latestLoadedEntityVersionNumber.Values
    }

    function Invoke(policyVersion: LogicalVersion, businessEventName: string): (r: PolicyResult<map<string, Value>>)
      reads this, configManagementService
      ensures r == InvokeOn(matcher, State(), policyVersion, businessEventName)
    {
      InvokeOn(matcher, State(), policyVersion, businessEventName)
    }
  }
}
