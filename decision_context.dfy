/**
 * The decision runtime context: loading a decision policy registers its configuration model
 * and loads its rule files into the decision engine under the policy's patch identifier;
 * invoking validates the request, merges the matching configuration into the arguments and
 * evaluates one decision file.
 */
module DecisionContext {
  import opened Wrappers
  import opened Strings
  import opened Entities
  import opened Errors
  import opened PolicyErrors
  import opened PolicyResults
  import opened ConfigManagement
  import opened RuleFactory
  import opened RuntimeLoadService

  /**
   * `ConfigManagementModel.getConfiguration(businessEventName, strategy)`, a library call: the
   * configuration map of the use case matching the event, if any.
   */
  type ConfigMatcher = (ConfigModel, string) -> Option<map<string, Value>>

  /**
   * The state the context's operations act on: its rule groups and latest infos, the config
   * service's map, and the load service's runtime-id bindings and engine calls.
   */
  datatype DecisionContextState = DecisionContextState(
    ruleItems: map<string, RuleDefinitionModelGroup>,
    latestLoaded: map<string, EntityInfo>,
    configurations: map<string, ConfigModel>,
    bindings: map<string, string>,
    engineCalls: seq<EngineCall>)

  /**
   * The context's invariant: every rule group is filed under its own identifier, carries the
   * sanitised identifier as runtime id and owns that runtime id; every latest-loaded info is
   * filed under its own entity id.
   */
  ghost predicate ContextValid(st: DecisionContextState) {
    (forall p | p in st.ruleItems ::
      st.ruleItems[p].identifier == p && st.ruleItems[p].runtimeId == SanitizeIdentifier(p) &&
      st.ruleItems[p].runtimeId in st.bindings && st.bindings[st.ruleItems[p].runtimeId] == p) &&
    (forall id | id in st.latestLoaded :: st.latestLoaded[id].id == id)
  }

  /** The outcome of a load or unload: the new state and the exception thrown, if any. */
  datatype DecisionReaction = DecisionReaction(state: DecisionContextState, thrown: Option<Exception>)

  /**
   * `unload`: drop the patch's rule group and, when there was one, remove its engine runtime
   * (a throw there ends the unload); then drop the patch's configuration and forget the
   * entity id only if it still maps to this very info.
   */
  function UnloadStep(engine: DecisionEngine, st: DecisionContextState, info: EntityInfo): (r: DecisionReaction)
    ensures PatchIdentifier(info.version) !in r.state.ruleItems
    ensures r.state.ruleItems == st.ruleItems - {PatchIdentifier(info.version)}
    ensures r.state.bindings == st.bindings
    ensures r.thrown.None? ==> PatchIdentifier(info.version) !in r.state.configurations
    // the entity id is forgotten only when it still maps to this very info; other ids stay
    ensures r.thrown.None? ==>
      r.state.latestLoaded ==
        (if info.id in st.latestLoaded && st.latestLoaded[info.id] == info then st.latestLoaded - {info.id}
         else st.latestLoaded)
    ensures r.state.engineCalls ==
      if PatchIdentifier(info.version) in st.ruleItems
      then st.engineCalls + [RemoveCall(st.ruleItems[PatchIdentifier(info.version)].runtimeId)]
      else st.engineCalls
    ensures r.thrown == if PatchIdentifier(info.version) in st.ruleItems
      then engine.remove(st.ruleItems[PatchIdentifier(info.version)].runtimeId) else None
    ensures r.thrown.Some? ==> PatchIdentifier(info.version) in st.ruleItems && r.state.latestLoaded == st.latestLoaded
    ensures r.state.configurations ==
      if r.thrown.None? then st.configurations - {PatchIdentifier(info.version)} else st.configurations
  {
    var p := PatchIdentifier(info.version);
    var calls := if p in st.ruleItems then st.engineCalls + [RemoveCall(st.ruleItems[p].runtimeId)] else st.engineCalls;
    var removed := st.(ruleItems := st.ruleItems - {p}, engineCalls := calls);
    var thrown := if p in st.ruleItems then engine.remove(st.ruleItems[p].runtimeId) else None;
    if thrown.Some? then DecisionReaction(removed, thrown)
    else
      var latest := if info.id in st.latestLoaded && st.latestLoaded[info.id] == info
        then st.latestLoaded - {info.id} else st.latestLoaded;
      DecisionReaction(removed.(configurations := st.configurations - {p}, latestLoaded := latest), None)
  }

  /**
   * The rule group of a policy, filed under its patch identifier: the rule items are first
   * turned into a name-to-content map (a repeated name throws), then grouped.
   */
  function BuildGroup(entity: Entity): (r: Result<RuleDefinitionModelGroup, Exception>)
    requires entity.Policy?
    ensures r.Success? <==>
      NamesDistinct(entity.ruleItems) && Create(PatchIdentifier(entity.info.version), entity.ruleItems).Success?
    ensures r.Success? ==> r.value.identifier == PatchIdentifier(entity.info.version)
    ensures r.Success? ==> r.value.runtimeId == SanitizeIdentifier(PatchIdentifier(entity.info.version))
    ensures !NamesDistinct(entity.ruleItems) ==> r.Failure? && r.error.DuplicateKey?
  {
    match ConvertItemsToMap(entity.ruleItems)
    case Failure(e) => Result.Failure(e)
    case Success(_) => Create(PatchIdentifier(entity.info.version), entity.ruleItems)
  }

  /**
   * `loadRulesIntoDecisionRuntime` followed by filing the group: claim the group's runtime id,
   * load it into the engine, and on success file the group and make the info its entity's latest.
   */
  function LoadGroupStep(engine: DecisionEngine, st: DecisionContextState, info: EntityInfo, group: RuleDefinitionModelGroup)
    : (r: DecisionReaction)
    ensures r.thrown.None? <==>
      Bind(st.bindings, group.runtimeId, group.identifier).Success? && engine.load(LoadRequest(group)) == LoadStatus(true)
    ensures r.thrown.None? ==>
      r.state.ruleItems == st.ruleItems[group.identifier := group] &&
      r.state.latestLoaded == st.latestLoaded[info.id := info] &&
      group.runtimeId in r.state.bindings && r.state.bindings[group.runtimeId] == group.identifier
    ensures r.thrown.Some? ==> r.state.ruleItems == st.ruleItems && r.state.latestLoaded == st.latestLoaded
    ensures r.state.configurations == st.configurations
    ensures KeepsBindings(st.bindings, r.state.bindings)
  {
    match Bind(st.bindings, group.runtimeId, group.identifier)
    case Failure(e) => DecisionReaction(st, Some(e))
    case Success(bindings) =>
      var request := LoadRequest(group);
      var loaded := st.(bindings := bindings, engineCalls := st.engineCalls + [LoadCall(request)]);
      match LoadFailure(engine.load(request), group)
      case Some(e) => DecisionReaction(loaded, Some(e))
      case None =>
        DecisionReaction(loaded.(ruleItems := st.ruleItems[group.identifier := group],
                                 latestLoaded := st.latestLoaded[info.id := info]), None)
  }

  /** The state once the policy's configuration model for the environment, if any, is registered. */
  function Configured(env: Option<string>, st: DecisionContextState, entity: Entity): (r: DecisionContextState)
    requires entity.Policy?
    ensures r.ruleItems == st.ruleItems && r.latestLoaded == st.latestLoaded && r.bindings == st.bindings
    ensures r.engineCalls == st.engineCalls
    ensures entity.ConfigManagementModelForEnv(env).None? ==> r == st
    ensures entity.ConfigManagementModelForEnv(env).Some? ==>
      r.configurations == st.configurations[PatchIdentifier(entity.info.version) := entity.ConfigManagementModelForEnv(env).value]
  {
    match entity.ConfigManagementModelForEnv(env)
    case Some(m) => st.(configurations := st.configurations[PatchIdentifier(entity.info.version) := m])
    case None => st
  }

  /** The info an entity id was last loaded with, if any. */
  function Previous(st: DecisionContextState, id: string): Option<EntityInfo> {
    if id in st.latestLoaded then Some(st.latestLoaded[id]) else None
  }

  /**
   * `load`: a policy whose info is already the latest of its entity changes nothing. Otherwise
   * its configuration model for the environment is registered first (and stays even when the
   * rest fails), then its rules are loaded; on success a previous patch of the same entity is
   * unloaded, and anything that unload throws is swallowed. Other kinds of entity are refused.
   */
  function LoadStep(engine: DecisionEngine, env: Option<string>, st: DecisionContextState, entity: Entity): (r: DecisionReaction)
    ensures entity.OtherKind? ==> r == DecisionReaction(st, Some(UnsupportedEntityType(entity.info)))
    ensures entity.Policy? && Previous(st, entity.info.id) == Some(entity.info) ==> r == DecisionReaction(st, None)
    ensures entity.Policy? && r.thrown.None? ==> Previous(r.state, entity.info.id) == Some(entity.info)
    ensures entity.Policy? && r.thrown.None? && Previous(st, entity.info.id) != Some(entity.info) ==>
      BuildGroup(entity).Success? &&
      PatchIdentifier(entity.info.version) in r.state.ruleItems &&
      r.state.ruleItems[PatchIdentifier(entity.info.version)] == BuildGroup(entity).value
    ensures entity.Policy? && r.thrown.None? && Previous(st, entity.info.id).Some? ==>
      var prevPatch := PatchIdentifier(Previous(st, entity.info.id).value.version);
      prevPatch != PatchIdentifier(entity.info.version) ==> prevPatch !in r.state.ruleItems
    // a new policy load throws exactly when building or loading its rule group does: a throw
    // from unloading the previous patch is swallowed
    ensures entity.Policy? && Previous(st, entity.info.id) != Some(entity.info) ==>
      (r.thrown.Some? <==>
         (BuildGroup(entity).Failure? ||
          LoadGroupStep(engine, Configured(env, st, entity), entity.info, BuildGroup(entity).value).thrown.Some?))
    // a load that throws records nothing as its entity's latest
    ensures r.thrown.Some? ==> r.state.latestLoaded == st.latestLoaded
    // the configuration model for the environment is registered, whether or not the rules load
    ensures entity.Policy? && Previous(st, entity.info.id) != Some(entity.info) &&
            entity.ConfigManagementModelForEnv(env).Some? ==>
      var p := PatchIdentifier(entity.info.version);
      p in r.state.configurations && r.state.configurations[p] == entity.ConfigManagementModelForEnv(env).value
    ensures KeepsBindings(st.bindings, r.state.bindings)
  {
    if entity.OtherKind? then DecisionReaction(st, Some(UnsupportedEntityType(entity.info)))
    else
      var p := PatchIdentifier(entity.info.version);
      var prev := Previous(st, entity.info.id);
      if prev == Some(entity.info) then DecisionReaction(st, None)
      else
        var configured := Configured(env, st, entity);
        match BuildGroup(entity)
        case Failure(e) => DecisionReaction(configured, Some(e))
        case Success(group) =>
          var loaded := LoadGroupStep(engine, configured, entity.info, group);
          if loaded.thrown.Some? then loaded
          else if prev.Some? && PatchIdentifier(prev.value.version) != p then
            DecisionReaction(UnloadStep(engine, loaded.state, prev.value).state, None)
          else loaded
  }

  /**
   * A successful new policy load files its group, makes its info its entity's latest, binds
   * its runtime id and drops the previous patch of the same entity; every other entity id and
   * patch stays as it was, so distinct versions of distinct entities coexist.
   */
  lemma LoadStepFrame(engine: DecisionEngine, env: Option<string>, st: DecisionContextState, entity: Entity)
    requires ContextValid(st)
    requires entity.Policy? && Previous(st, entity.info.id) != Some(entity.info)
    requires LoadStep(engine, env, st, entity).thrown.None?
    ensures BuildGroup(entity).Success?
    ensures var r := LoadStep(engine, env, st, entity);
      var p := PatchIdentifier(entity.info.version);
      var group := BuildGroup(entity).value;
      var prev := Previous(st, entity.info.id);
      var stale := prev.Some? && PatchIdentifier(prev.value.version) != p;
      r.state.latestLoaded == st.latestLoaded[entity.info.id := entity.info] &&
      r.state.bindings == st.bindings[group.runtimeId := p] &&
      r.state.ruleItems ==
        (if stale then st.ruleItems[p := group] - {PatchIdentifier(prev.value.version)} else st.ruleItems[p := group]) &&
      r.state.engineCalls ==
        st.engineCalls + [LoadCall(LoadRequest(group))] +
        (if stale && PatchIdentifier(prev.value.version) in st.ruleItems
         then [RemoveCall(st.ruleItems[PatchIdentifier(prev.value.version)].runtimeId)] else [])
    // the configurations are the old ones with this patch's model registered, minus the previous
    // patch's unless removing its engine runtime threw
    ensures var r := LoadStep(engine, env, st, entity);
      var p := PatchIdentifier(entity.info.version);
      var prev := Previous(st, entity.info.id);
      var stale := prev.Some? && PatchIdentifier(prev.value.version) != p;
      var configured := Configured(env, st, entity).configurations;
      r.state.configurations ==
        (if stale && !(PatchIdentifier(prev.value.version) in st.ruleItems &&
                       engine.remove(st.ruleItems[PatchIdentifier(prev.value.version)].runtimeId).Some?)
         then configured - {PatchIdentifier(prev.value.version)} else configured)
  {
    var p := PatchIdentifier(entity.info.version);
    var configured := Configured(env, st, entity);
    var group := BuildGroup(entity).value;
    var loaded := LoadGroupStep(engine, configured, entity.info, group);
    var prev := Previous(st, entity.info.id);
    if prev.Some? && PatchIdentifier(prev.value.version) != p {
      var q := PatchIdentifier(prev.value.version);
      var u := UnloadStep(engine, loaded.state, prev.value);
      assert LoadStep(engine, env, st, entity).state == u.state;
      assert prev.value.id == entity.info.id;
      assert loaded.state.latestLoaded[entity.info.id] == entity.info != prev.value;
      assert u.state.latestLoaded == loaded.state.latestLoaded;
      assert q in loaded.state.ruleItems <==> q in st.ruleItems;
      if q in st.ruleItems {
        assert loaded.state.ruleItems[q] == st.ruleItems[q];
      }
    }
  }

  /**
   * A policy load that throws files no rule group and records no latest info; its only change
   * to the configurations is the registration of its own model for the environment.
   */
  lemma FailedLoadFrame(engine: DecisionEngine, env: Option<string>, st: DecisionContextState, entity: Entity)
    requires entity.Policy?
    requires LoadStep(engine, env, st, entity).thrown.Some?
    ensures var r := LoadStep(engine, env, st, entity);
      r.state.configurations == Configured(env, st, entity).configurations &&
      r.state.ruleItems == st.ruleItems && r.state.latestLoaded == st.latestLoaded
  {
  }

  /**
   * After a successful new policy load the loaded entities are the previous ones of other
   * entity ids plus the new info: loading replaces only its own entity's latest.
   */
  lemma LoadReplacesOnlyOwnEntity(engine: DecisionEngine, env: Option<string>, st: DecisionContextState, entity: Entity)
    requires ContextValid(st)
    requires entity.Policy? && Previous(st, entity.info.id) != Some(entity.info)
    requires LoadStep(engine, env, st, entity).thrown.None?
    ensures LoadStep(engine, env, st, entity).state.latestLoaded.Values ==
      (set info | info in st.latestLoaded.Values && info.id != entity.info.id) + {entity.info}
  {
    LoadStepFrame(engine, env, st, entity);
    var after := st.latestLoaded[entity.info.id := entity.info];
    var expected := (set info | info in st.latestLoaded.Values && info.id != entity.info.id) + {entity.info};
    forall info | info in after.Values ensures info in expected {
      var id :| id in after && after[id] == info;
      if id != entity.info.id {
        assert st.latestLoaded[id] == info;
      }
    }
    forall info | info in expected ensures info in after.Values {
      if info != entity.info {
        var id :| id in st.latestLoaded && st.latestLoaded[id] == info;
        assert after[id] == info;
      }
    }
  }

  lemma UnloadValid(engine: DecisionEngine, st: DecisionContextState, info: EntityInfo)
    requires ContextValid(st)
    ensures ContextValid(UnloadStep(engine, st, info).state)
  {
  }

  lemma LoadGroupValid(engine: DecisionEngine, st: DecisionContextState, info: EntityInfo, group: RuleDefinitionModelGroup)
    requires ContextValid(st)
    requires group.runtimeId == SanitizeIdentifier(group.identifier)
    ensures ContextValid(LoadGroupStep(engine, st, info, group).state)
  {
  }

  lemma LoadValid(engine: DecisionEngine, env: Option<string>, st: DecisionContextState, entity: Entity)
    requires ContextValid(st)
    ensures ContextValid(LoadStep(engine, env, st, entity).state)
  {
    if entity.Policy? && Previous(st, entity.info.id) != Some(entity.info) {
      var configured := Configured(env, st, entity);
      assert ContextValid(configured);
      var built := BuildGroup(entity);
      if built.Success? {
        LoadGroupValid(engine, configured, entity.info, built.value);
        var loaded := LoadGroupStep(engine, configured, entity.info, built.value);
        var prev := Previous(st, entity.info.id);
        if loaded.thrown.None? && prev.Some? && PatchIdentifier(prev.value.version) != PatchIdentifier(entity.info.version) {
          UnloadValid(engine, loaded.state, prev.value);
        }
      }
    }
  }

  /** Loading a policy that has just been loaded successfully changes nothing. */
  lemma LoadIdempotent(engine: DecisionEngine, env: Option<string>, st: DecisionContextState, entity: Entity)
    requires entity.Policy?
    requires LoadStep(engine, env, st, entity).thrown.None?
    ensures var once := LoadStep(engine, env, st, entity).state;
      LoadStep(engine, env, once, entity) == DecisionReaction(once, None)
  {
  }

  /**
   * A load that fails after the configuration model was registered leaves that model
   * registered, although no rule group is filed for the patch.
   */
  lemma FailedLoadKeepsConfiguration(engine: DecisionEngine, env: Option<string>, st: DecisionContextState, entity: Entity)
    requires entity.Policy?
    requires Previous(st, entity.info.id) != Some(entity.info)
    requires entity.ConfigManagementModelForEnv(env).Some?
    requires LoadStep(engine, env, st, entity).thrown.Some?
    ensures var r := LoadStep(engine, env, st, entity).state;
      var p := PatchIdentifier(entity.info.version);
      p in r.configurations && r.configurations[p] == entity.ConfigManagementModelForEnv(env).value &&
      r.ruleItems == st.ruleItems
  {
  }

  /** Two distinct rule items with the same name fail the load with a duplicate key. */
  lemma DuplicateRuleNamesFailLoad(engine: DecisionEngine, env: Option<string>, st: DecisionContextState, entity: Entity)
    requires entity.Policy?
    requires Previous(st, entity.info.id) != Some(entity.info)
    requires !NamesDistinct(entity.ruleItems)
    ensures LoadStep(engine, env, st, entity).thrown.Some?
    ensures LoadStep(engine, env, st, entity).thrown.value.DuplicateKey?
  {
  }

  // ---------------------------------------------------------------------------------------
  // Invocation

  const CONFIG_PREFIX: string := "config."
  const EXECUTION_ERROR_TEXT: string := "Decision execution error."
  const INVOCATION_ERROR_TEXT: string := "Decision invocation error."

  /**
   * A decision request: the argument map, the order in which its keys are iterated, the
   * business event selecting the configuration, and the decision file to evaluate.
   */
  datatype DecisionPolicyRequest = DecisionPolicyRequest(
    body: map<string, Value>,
    keyOrder: seq<string>,
    businessEventName: string,
    dmnName: string)

  /** The key order of a request is an iteration of its body's key set: each key exactly once. */
  predicate ListsBodyKeys(request: DecisionPolicyRequest) {
    ListsEachOnce(request.keyOrder, request.body.Keys)
  }

  /** The sequence holds every element of the set exactly once, and nothing else. */
  predicate ListsEachOnce(keys: seq<string>, domain: set<string>) {
    (forall i | 0 <= i < |keys| :: keys[i] in domain) &&
    (forall k | k in domain :: k in keys) &&
    (forall i, j | 0 <= i < j < |keys| :: keys[i] != keys[j])
  }

  lemma {:induction false} DistinctElements(keys: seq<string>)
    requires forall i, j | 0 <= i < j < |keys| :: keys[i] != keys[j]
    ensures |(set k | k in keys)| == |keys|
  {
    if keys != [] {
      var n := |keys| - 1;
      DistinctElements(keys[..n]);
      assert (set k | k in keys) == (set k | k in keys[..n]) + {keys[n]};
    }
  }

  /** The reserved-prefix message of a request names as many keys as the body has. */
  lemma KeyOrderCoversBody(request: DecisionPolicyRequest)
    requires ListsBodyKeys(request)
    ensures |request.keyOrder| == |request.body|
    ensures forall k :: k in request.keyOrder <==> k in request.body
  {
    DistinctElements(request.keyOrder);
    assert (set k | k in request.keyOrder) == request.body.Keys;
  }

  function MissingConfigMessage(businessEventName: string): string {
    "Could not find a configuration that matches supplied business event '" + businessEventName + "'"
  }

  function MissingDmnMessage(dmnName: string): string {
    "Could not find dmn with name '" + dmnName + "' in requested policy."
  }

  /** Some argument key uses the prefix reserved for configuration values. */
  predicate HasReservedKey(body: map<string, Value>) {
    exists k | k in body :: CONFIG_PREFIX <= k
  }

  lemma PrefixInjective(a: string, b: string)
    requires CONFIG_PREFIX + a == CONFIG_PREFIX + b
    ensures a == b
  {
    assert a == (CONFIG_PREFIX + a)[|CONFIG_PREFIX|..];
    assert b == (CONFIG_PREFIX + b)[|CONFIG_PREFIX|..];
  }

  /** The configuration entries under the reserved prefix. */
  function Prefixed(config: map<string, Value>): map<string, Value> {
    forall a, b | a in config && b in config && CONFIG_PREFIX + a == CONFIG_PREFIX + b ensures a == b {
      PrefixInjective(a, b);
    }
    map k | k in config :: CONFIG_PREFIX + k := config[k]
  }

  /** Each configuration entry appears under the prefixed key, and nothing else does. */
  lemma PrefixedEntries(config: map<string, Value>)
    ensures forall k | k in config :: CONFIG_PREFIX + k in Prefixed(config) && Prefixed(config)[CONFIG_PREFIX + k] == config[k]
    ensures forall k | k in Prefixed(config) :: CONFIG_PREFIX <= k && k[|CONFIG_PREFIX|..] in config
  {
    assert forall k | k in config :: (CONFIG_PREFIX + k)[|CONFIG_PREFIX|..] == k;
  }

  /**
   * The evaluation argument: the request body with every configuration entry added under the
   * reserved prefix.
   */
  function WithConfig(body: map<string, Value>, config: map<string, Value>): map<string, Value> {
    body + Prefixed(config)
  }

  /**
   * The merged argument holds every configuration entry under its prefixed key, keeps every
   * body entry when no body key is reserved, and holds nothing else.
   */
  lemma WithConfigEntries(body: map<string, Value>, config: map<string, Value>)
    ensures var arg := WithConfig(body, config);
      forall k | k in config :: CONFIG_PREFIX + k in arg && arg[CONFIG_PREFIX + k] == config[k]
    ensures var arg := WithConfig(body, config);
      !HasReservedKey(body) ==> forall k | k in body :: k in arg && arg[k] == body[k]
    ensures var arg := WithConfig(body, config);
      forall k | k in arg :: k in body || (CONFIG_PREFIX <= k && k[|CONFIG_PREFIX|..] in config)
  {
    PrefixedEntries(config);
  }

  /**
   * The configuration to merge: the policy's configuration matched against the business
   * event when the patch has one (None when nothing matches), and an empty map otherwise.
   */
  function ConfigFor(matcher: ConfigMatcher, st: DecisionContextState, identifier: string, businessEventName: string)
    : Option<map<string, Value>>
  {
    if identifier in st.configurations then matcher(st.configurations[identifier], businessEventName)
    else Some(map[])
  }

  /** Some model of the group is named `dmnName`. */
  predicate HasDmn(group: RuleDefinitionModelGroup, dmnName: string) {
    exists i | 0 <= i < |group.ruleDefinitionModelList| :: group.ruleDefinitionModelList[i].ruleShortName == dmnName
  }

  /**
   * `invoke`: reject reserved argument keys, require a matching configuration when the patch
   * has one, throw when the patch has no rule group, require the decision file, then evaluate
   * it under the patch identifier with the merged argument.
   */
  function InvokeOn(matcher: ConfigMatcher, engine: DecisionEngine, st: DecisionContextState,
                    policyVersion: LogicalVersion, request: DecisionPolicyRequest)
    : (r: Result<PolicyResult<map<string, Value>>, Exception>)
    requires ListsBodyKeys(request)
    ensures HasReservedKey(request.body) ==>
      r == Result.Success(PolicyResult.Failure(PolicyErrorInfo(BAD_REQUEST_PARAMETER_RESERVED_PREFIX, Join(request.keyOrder, ','))))
    ensures r.Failure? <==>
      var identifier := PatchIdentifier(policyVersion);
      !HasReservedKey(request.body) &&
      ConfigFor(matcher, st, identifier, request.businessEventName).Some? && identifier !in st.ruleItems
    ensures r.Failure? ==> r.error == PolicyNotFound(PatchIdentifier(policyVersion))
    // a patch with a configuration that matches nothing is refused before the rules are looked at
    ensures (!HasReservedKey(request.body) &&
             ConfigFor(matcher, st, PatchIdentifier(policyVersion), request.businessEventName).None?) ==>
      r == Result.Success(PolicyResult.Failure(PolicyErrorInfo(BAD_REQUEST_MISSING_CONFIG, MissingConfigMessage(request.businessEventName))))
    // every error result of a clean request names the missing decision file or an execution error
    ensures (r.Success? && r.value.Failure? && !HasReservedKey(request.body) &&
             ConfigFor(matcher, st, PatchIdentifier(policyVersion), request.businessEventName).Some?) ==>
      var identifier := PatchIdentifier(policyVersion);
      identifier in st.ruleItems &&
      (r.value.info.error == BAD_REQUEST_MISSING_DMN_FILE <==> !HasDmn(st.ruleItems[identifier], request.dmnName)) &&
      (r.value.info.error != BAD_REQUEST_MISSING_DMN_FILE ==> r.value.info.error == POLICY_EXECUTION_ERROR)
    // a clean request for a filed patch without the decision file names the missing file
    ensures (!HasReservedKey(request.body) &&
             ConfigFor(matcher, st, PatchIdentifier(policyVersion), request.businessEventName).Some? &&
             PatchIdentifier(policyVersion) in st.ruleItems &&
             !HasDmn(st.ruleItems[PatchIdentifier(policyVersion)], request.dmnName)) ==>
      r == Result.Success(PolicyResult.Failure(PolicyErrorInfo(BAD_REQUEST_MISSING_DMN_FILE, MissingDmnMessage(request.dmnName))))
    // a clean request reaching its decision file gets the engine's answer: the result map on a
    // SUCCESS status, the execution error on any other status, the invocation error on a throw
    ensures (!HasReservedKey(request.body) &&
             ConfigFor(matcher, st, PatchIdentifier(policyVersion), request.businessEventName).Some? &&
             PatchIdentifier(policyVersion) in st.ruleItems &&
             HasDmn(st.ruleItems[PatchIdentifier(policyVersion)], request.dmnName)) ==>
      var identifier := PatchIdentifier(policyVersion);
      var config := ConfigFor(matcher, st, identifier, request.businessEventName).value;
      var outcome := engine.evaluate(EvaluateRequest(identifier, request.dmnName, WithConfig(request.body, config)));
      (outcome.EvaluateStatus? && outcome.success ==> r == Result.Success(PolicyResult.Success(outcome.result))) &&
      (outcome.EvaluateStatus? && !outcome.success ==>
         r == Result.Success(PolicyResult.Failure(PolicyErrorInfo(POLICY_EXECUTION_ERROR, EXECUTION_ERROR_TEXT)))) &&
      (outcome.EvaluateThrew? ==>
         r == Result.Success(PolicyResult.Failure(PolicyErrorInfo(POLICY_EXECUTION_ERROR, INVOCATION_ERROR_TEXT))))
    ensures r.Success? && r.value.Success? ==>
      var identifier := PatchIdentifier(policyVersion);
      var config := ConfigFor(matcher, st, identifier, request.businessEventName);
      !HasReservedKey(request.body) && config.Some? &&
      identifier in st.ruleItems && HasDmn(st.ruleItems[identifier], request.dmnName) &&
      engine.evaluate(EvaluateRequest(identifier, request.dmnName, WithConfig(request.body, config.value)))
        == EvaluateStatus(true, r.value.value)
  {
    if HasReservedKey(request.body) then
      Result.Success(PolicyResult.Failure(PolicyErrorInfo(BAD_REQUEST_PARAMETER_RESERVED_PREFIX, Join(request.keyOrder, ','))))
    else
      var identifier := PatchIdentifier(policyVersion);
      match ConfigFor(matcher, st, identifier, request.businessEventName)
      case None =>
        Result.Success(PolicyResult.Failure(PolicyErrorInfo(BAD_REQUEST_MISSING_CONFIG, MissingConfigMessage(request.businessEventName))))
      case Some(config) =>
        if identifier !in st.ruleItems then Result.Failure(PolicyNotFound(identifier))
        else if !HasDmn(st.ruleItems[identifier], request.dmnName) then
          Result.Success(PolicyResult.Failure(PolicyErrorInfo(BAD_REQUEST_MISSING_DMN_FILE, MissingDmnMessage(request.dmnName))))
        else
          match engine.evaluate(EvaluateRequest(identifier, request.dmnName, WithConfig(request.body, config)))
          case EvaluateThrew(_) => Result.Success(PolicyResult.Failure(PolicyErrorInfo(POLICY_EXECUTION_ERROR, INVOCATION_ERROR_TEXT)))
          case EvaluateStatus(success, result) =>
            if success then Result.Success(PolicyResult.Success(result))
            else Result.Success(PolicyResult.Failure(PolicyErrorInfo(POLICY_EXECUTION_ERROR, EXECUTION_ERROR_TEXT)))
  }

  /** After a clean unload, invoking the unloaded version throws "policy not found". */
  lemma UnloadedPolicyIsNotFound(matcher: ConfigMatcher, engine: DecisionEngine, st: DecisionContextState,
                                 info: EntityInfo, request: DecisionPolicyRequest)
    requires UnloadStep(engine, st, info).thrown.None?
    requires !HasReservedKey(request.body) && ListsBodyKeys(request)
    ensures InvokeOn(matcher, engine, UnloadStep(engine, st, info).state, info.version, request)
      == Result.Failure(PolicyNotFound(PatchIdentifier(info.version)))
  {
  }

  /** After a successful (not repeated) load, invoking the loaded version never throws. */
  lemma LoadedPolicyIsFound(matcher: ConfigMatcher, engine: DecisionEngine, env: Option<string>,
                            st: DecisionContextState, entity: Entity, request: DecisionPolicyRequest)
    requires entity.Policy?
    requires Previous(st, entity.info.id) != Some(entity.info)
    requires LoadStep(engine, env, st, entity).thrown.None?
    requires ListsBodyKeys(request)
    ensures InvokeOn(matcher, engine, LoadStep(engine, env, st, entity).state, entity.info.version, request).Success?
  {
  }

  /** The restriction of a map to a set of keys. */
  function Restrict(config: map<string, Value>, keys: set<string>): (m: map<string, Value>)
    ensures m.Keys == config.Keys * keys
    ensures forall k | k in m :: m[k] == config[k]
  {
    map k | k in config && k in keys :: config[k]
  }

  lemma PrefixSplit(key: string)
    requires CONFIG_PREFIX <= key
    ensures key == CONFIG_PREFIX + key[|CONFIG_PREFIX|..]
  {
  }

  /** Restricting to one more key of the configuration adds exactly that entry. */
  lemma RestrictStep(config: map<string, Value>, done: set<string>, k: string)
    requires k in config
    ensures Restrict(config, done + {k}) == Restrict(config, done)[k := config[k]]
  {
  }

  /** Prefixing a map updated at one key is the prefixed map updated at the prefixed key. */
  lemma PrefixedUpdate(m: map<string, Value>, k: string, v: Value)
    ensures Prefixed(m[k := v]) == Prefixed(m)[CONFIG_PREFIX + k := v]
  {
    var after := Prefixed(m[k := v]);
    var expected := Prefixed(m)[CONFIG_PREFIX + k := v];
    PrefixedEntries(m);
    PrefixedEntries(m[k := v]);
    forall key | key in after ensures key in expected && after[key] == expected[key] {
      PrefixSplit(key);
    }
    forall key | key in expected ensures key in after {
      if key != CONFIG_PREFIX + k {
        PrefixSplit(key);
      }
    }
  }

  /** Prefixing one more configuration entry adds exactly that entry. */
  lemma PrefixedStep(config: map<string, Value>, done: set<string>, k: string)
    requires k in config
    ensures Prefixed(Restrict(config, done + {k})) == Prefixed(Restrict(config, done))[CONFIG_PREFIX + k := config[k]]
  {
    RestrictStep(config, done, k);
    PrefixedUpdate(Restrict(config, done), k, config[k]);
  }

  /** Merging one more configuration entry extends the merged argument by that entry. */
  lemma WithConfigStep(body: map<string, Value>, config: map<string, Value>, done: set<string>, k: string)
    requires k in config
    ensures WithConfig(body, Restrict(config, done + {k})) == WithConfig(body, Restrict(config, done))[CONFIG_PREFIX + k := config[k]]
  {
    PrefixedStep(config, done, k);
    UnionUpdate(body, Prefixed(Restrict(config, done)), CONFIG_PREFIX + k, config[k]);
  }

  lemma UnionUpdate(a: map<string, Value>, b: map<string, Value>, key: string, v: Value)
    ensures a + b[key := v] == (a + b)[key := v]
  {
  }

  lemma RestrictAll(config: map<string, Value>)
    ensures Restrict(config, config.Keys) == config
  {
  }

  /** The argument merge of `invoke`: a copy of the body, then each configuration entry put under the prefix. */
  method MergeConfiguration(body: map<string, Value>, config: map<string, Value>) returns (argument: map<string, Value>)
    ensures argument == WithConfig(body, config)
  {
    argument := body;
    var remaining := config.Keys;
    MergeStart(body, config);
    while remaining != {}
      invariant remaining <= config.Keys
      invariant argument == WithConfig(body, Restrict(config, config.Keys - remaining))
      decreases |remaining|
    {
      var key :| key in remaining;
      MergeStep(body, config, remaining, key);
      argument := argument[CONFIG_PREFIX + key := config[key]];
      remaining := remaining - {key};
    }
    MergeEnd(body, config, remaining);
  }

  /** Before the loop nothing of the configuration is merged. */
  lemma MergeStart(body: map<string, Value>, config: map<string, Value>)
    ensures body == WithConfig(body, Restrict(config, config.Keys - config.Keys))
  {
    assert config.Keys - config.Keys == {};
    MergedNothing(body, config);
  }

  /** One loop iteration merges exactly the chosen key. */
  lemma MergeStep(body: map<string, Value>, config: map<string, Value>, remaining: set<string>, key: string)
    requires key in remaining && remaining <= config.Keys
    ensures WithConfig(body, Restrict(config, config.Keys - (remaining - {key})))
         == WithConfig(body, Restrict(config, config.Keys - remaining))[CONFIG_PREFIX + key := config[key]]
  {
    DoneGrows(config.Keys, remaining, key);
    WithConfigStep(body, config, config.Keys - remaining, key);
  }

  /** After the loop the whole configuration is merged. */
  lemma MergeEnd(body: map<string, Value>, config: map<string, Value>, remaining: set<string>)
    requires remaining == {}
    ensures WithConfig(body, Restrict(config, config.Keys - remaining)) == WithConfig(body, config)
  {
    assert config.Keys - remaining == config.Keys;
    RestrictAll(config);
  }

  /** Moving one key from the pending set to the merged set. */
  lemma DoneGrows(all: set<string>, remaining: set<string>, key: string)
    requires key in remaining && remaining <= all
    ensures all - (remaining - {key}) == (all - remaining) + {key}
  {
  }

  lemma MergedNothing(body: map<string, Value>, config: map<string, Value>)
    ensures WithConfig(body, Restrict(config, {})) == body
  {
    assert Restrict(config, {}) == map[];
    assert Prefixed(map[]) == map[];
  }

  /** `DecisionPolicyRuntimeContext`: the load target and invocation context for decision policies. */
  class DecisionPolicyRuntimeContext {
    const loadService: DecisionPolicyRuntimeLoadService
    const configManagementService: ConfigManagementService
    const matcher: ConfigMatcher
    const configEnvironment: Option<string>
    /** patch identifier to the rule group loaded for it */
    var ruleItems: map<string, RuleDefinitionModelGroup>
    /** entity id to the info it was last loaded with */
    var latestLoadedEntityVersionNumber: map<string, EntityInfo>

    ghost function State(): DecisionContextState
      reads this, loadService, configManagementService
    {
      DecisionContextState(ruleItems, latestLoadedEntityVersionNumber, configManagementService.configurationMap,
                           loadService.runtimeIdToEntityIdMap, loadService.engineCalls)
    }

    ghost predicate Valid()
      reads this, loadService, configManagementService
    {
      ContextValid(State())
    }

    constructor(loadService: DecisionPolicyRuntimeLoadService, matcher: ConfigMatcher, configEnvironment: Option<string>)
      ensures this.loadService == loadService && this.matcher == matcher && this.configEnvironment == configEnvironment
      ensures fresh(configManagementService)
      ensures ruleItems == map[] && latestLoadedEntityVersionNumber == map[] && configManagementService.configurationMap == map[]
      ensures Valid()
    {
      this.loadService := loadService;
      this.matcher := matcher;
      this.configEnvironment := configEnvironment;
      configManagementService := new ConfigManagementService();
      ruleItems := map[];
      latestLoadedEntityVersionNumber := map[];
    }

    /** `getLoadedEntities`: the latest info of every entity id. */
    function GetLoadedEntities(): (infos: set<EntityInfo>)
      reads this
      ensures forall id | id in latestLoadedEntityVersionNumber :: latestLoadedEntityVersionNumber[id] in infos
      ensures forall info | info in infos :: exists id | id in latestLoadedEntityVersionNumber :: latestLoadedEntityVersionNumber[id] == info
    {
      latestLoadedEntityVersionNumber.Values
    }

    method Unload(info: EntityInfo) returns (thrown: Option<Exception>)
      requires Valid()
      modifies this, loadService, configManagementService
      ensures DecisionReaction(State(), thrown) == UnloadStep(loadService.engine, old(State()), info)
      ensures Valid()
    {
      UnloadValid(loadService.engine, State(), info);
      var patchIdentifier := PatchIdentifier(info.version);
      var removed := if patchIdentifier in ruleItems then Some(ruleItems[patchIdentifier]) else None;
      ruleItems := ruleItems - {patchIdentifier};
      if removed.Some? {
        thrown := loadService.RemoveDecisionRuntime(removed.value);
        if thrown.Some? {
          return;
        }
      }
      var _ := configManagementService.DeletePolicyConfiguration(patchIdentifier);
      if info.id in latestLoadedEntityVersionNumber && latestLoadedEntityVersionNumber[info.id] == info {
        latestLoadedEntityVersionNumber := latestLoadedEntityVersionNumber - {info.id};
      }
      thrown := None;
    }

    /** Claim the group's runtime id, load it into the engine, and on success file it. */
    method LoadGroup(info: EntityInfo, group: RuleDefinitionModelGroup) returns (thrown: Option<Exception>)
      modifies this, loadService
      ensures DecisionReaction(State(), thrown) == LoadGroupStep(loadService.engine, old(State()), info, group)
    {
      thrown := loadService.LoadRulesIntoDecisionRuntime(group);
      if thrown.None? {
        ruleItems := ruleItems[group.identifier := group];
        latestLoadedEntityVersionNumber := latestLoadedEntityVersionNumber[info.id := info];
      }
    }

    method Load(entity: Entity) returns (thrown: Option<Exception>)
      requires Valid()
      modifies this, loadService, configManagementService
      ensures DecisionReaction(State(), thrown) == LoadStep(loadService.engine, configEnvironment, old(State()), entity)
      ensures Valid()
    {
      LoadValid(loadService.engine, configEnvironment, State(), entity);
      if entity.OtherKind? {
        return Some(UnsupportedEntityType(entity.info));
      }
      var patchId := PatchIdentifier(entity.info.version);
      var prevEntity: Option<EntityInfo> := if entity.info.id in latestLoadedEntityVersionNumber
        then Some(latestLoadedEntityVersionNumber[entity.info.id]) else None;
      if prevEntity == Some(entity.info) {
        return None;
      }
      configManagementService.SetPolicyConfiguration(patchId, entity.ConfigManagementModelForEnv(configEnvironment));
      ghost var configured := State();
      assert configured == Configured(configEnvironment, old(State()), entity);
      var built := BuildGroup(entity);
      if built.Failure? {
        return Some(built.error);
      }
      LoadGroupValid(loadService.engine, configured, entity.info, built.value);
      thrown := LoadGroup(entity.info, built.value);
      if thrown.Some? {
        return;
      }
      if prevEntity.Some? && PatchIdentifier(prevEntity.value.version) != patchId {
        var _ := Unload(prevEntity.value);
      }
      thrown := None;
    }

    /**
     * `invoke`: validation, configuration lookup, argument merge (one configuration entry at a
     * time), rule group lookup and evaluation.
     */
    method Invoke(policyVersion: LogicalVersion, request: DecisionPolicyRequest)
      returns (r: Result<PolicyResult<map<string, Value>>, Exception>)
      requires ListsBodyKeys(request)
      ensures r == InvokeOn(matcher, loadService.engine, State(), policyVersion, request)
    {
      if exists k | k in request.body :: CONFIG_PREFIX <= k {
        return Result.Success(PolicyResult.Failure(
          PolicyErrorInfo(BAD_REQUEST_PARAMETER_RESERVED_PREFIX, Join(request.keyOrder, ','))));
      }
      var identifier := PatchIdentifier(policyVersion);
      var policyConfiguration := configManagementService.GetPolicyConfiguration(identifier);
      var configMap: Option<map<string, Value>> := Some(map[]);
      if policyConfiguration.Some? {
        configMap := matcher(policyConfiguration.value, request.businessEventName);
      }
      assert configMap == ConfigFor(matcher, State(), identifier, request.businessEventName);
      if configMap.None? {
        return Result.Success(PolicyResult.Failure(
          PolicyErrorInfo(BAD_REQUEST_MISSING_CONFIG, MissingConfigMessage(request.businessEventName))));
      }
      var argument := MergeConfiguration(request.body, configMap.value);
      if identifier !in ruleItems {
        return Result.Failure(PolicyNotFound(identifier));
      }
      var group := ruleItems[identifier];
      if !HasDmn(group, request.dmnName) {
        return Result.Success(PolicyResult.Failure(
          PolicyErrorInfo(BAD_REQUEST_MISSING_DMN_FILE, MissingDmnMessage(request.dmnName))));
      }
      var response := loadService.Evaluate(EvaluateRequest(identifier, request.dmnName, argument));
      match response {
        case EvaluateThrew(_) =>
          r := Result.Success(PolicyResult.Failure(PolicyErrorInfo(POLICY_EXECUTION_ERROR, INVOCATION_ERROR_TEXT)));
        case EvaluateStatus(success, result) =>
          if success {
            r := Result.Success(PolicyResult.Success(result));
          } else {
            r := Result.Success(PolicyResult.Failure(PolicyErrorInfo(POLICY_EXECUTION_ERROR, EXECUTION_ERROR_TEXT)));
          }
      }
    }
  }
}
