/**
 * The bridge to the decision engine: loading a rule group as an engine runtime (with the
 * global uniqueness check on runtime ids), removing it, and evaluating a decision.
 */
module RuntimeLoadService {
  import opened Wrappers
  import opened Entities
  import opened Errors
  import opened Paths
  import opened RuleFactory

  /** Policy name and version handed to the engine for auditing. */
  datatype DecisionPolicyInfo = DecisionPolicyInfo(policyName: string, policyVersion: string)

  /** What the engine is asked to load. */
  datatype RuntimeLoadRequest = RuntimeLoadRequest(
    runtimeId: string,
    dmnContentMap: map<string, string>,
    decisionPolicyInfo: Option<DecisionPolicyInfo>,
    supplementalAttributes: map<string, string>)

  /** What the engine is asked to evaluate. */
  datatype EvaluateRequest = EvaluateRequest(runtimeId: string, dmnName: string, input: map<string, Value>)

  /** The engine's answer to a load: it threw, or it returned a status. */
  datatype EngineLoadOutcome = LoadThrew(error: Exception) | LoadStatus(success: bool)

  /** The engine's answer to an evaluation: it threw, or it returned a status and a result map. */
  datatype EvaluateOutcome = EvaluateThrew(error: Exception) | EvaluateStatus(success: bool, result: map<string, Value>)

  /**
   * The decision engine, an external library: what it answers to each request. `remove`
   * yields the exception it throws, if any.
   */
  datatype DecisionEngine = DecisionEngine(
    load: RuntimeLoadRequest -> EngineLoadOutcome,
    remove: string -> Option<Exception>,
    evaluate: EvaluateRequest -> EvaluateOutcome)

  /** A call made into the engine, in the order made. */
  datatype EngineCall = LoadCall(request: RuntimeLoadRequest) | RemoveCall(runtimeId: string)

  const IDENTIFIER_ATTRIBUTE: string := "identifier"

  /** The models as short name to content; a later model with the same short name wins. */
  function DmnContentMap(models: seq<RuleDefinitionModel>): (m: map<string, string>)
    ensures forall k | k in m :: exists i | 0 <= i < |models| :: models[i].ruleShortName == k
    ensures forall i | 0 <= i < |models| :: models[i].ruleShortName in m
    ensures forall i | 0 <= i < |models| ::
      (forall j | i < j < |models| :: models[j].ruleShortName != models[i].ruleShortName) ==>
        m[models[i].ruleShortName] == models[i].content
    decreases |models|
  {
    if models == [] then map[]
    else
      var init := models[..|models| - 1];
      var last := models[|models| - 1];
      assert forall i | 0 <= i < |init| :: models[i] == init[i];
      DmnContentMap(init)[last.ruleShortName := last.content]
  }

  /**
   * The engine's policy info: present exactly when the runtime id splits on '/' into two
   * tokens, which become the policy name and the policy version.
   */
  function CreateDecisionPolicyInfo(runtimeId: string): (r: Option<DecisionPolicyInfo>)
    ensures r.Some? <==> |Tokens(runtimeId)| == 2
    ensures r.Some? ==> runtimeId != [] && r.value.policyName != [] && r.value.policyVersion != []
    ensures r.Some? ==> '/' !in r.value.policyName && '/' !in r.value.policyVersion
  {
    var parts := Tokens(runtimeId);
    if |parts| != 2 then None else Some(DecisionPolicyInfo(parts[0], parts[1]))
  }

  /** A runtime id made of a policy name and a version, both slash-free, yields exactly them. */
  lemma PolicyInfoOfNameAndVersion(name: string, version: string)
    requires name != [] && '/' !in name && version != [] && '/' !in version
    ensures CreateDecisionPolicyInfo(name + "/" + version) == Some(DecisionPolicyInfo(name, version))
  {
    TokensOfPair(name, version);
  }

  /** A runtime id with a third segment (a nested policy path) yields no policy info. */
  lemma NoPolicyInfoForNestedPath(dir: string, name: string, version: string)
    requires name != [] && '/' !in name && version != [] && '/' !in version
    requires Tokens(dir) != []
    ensures CreateDecisionPolicyInfo(dir + "/" + name + "/" + version).None?
  {
    TokensSnoc(dir, name);
    TokensSnoc(dir + "/" + name, version);
  }

  /** The load request for a rule group. */
  function LoadRequest(group: RuleDefinitionModelGroup): (req: RuntimeLoadRequest)
    ensures req.runtimeId == group.runtimeId
    ensures req.dmnContentMap.Keys == set i | 0 <= i < |group.ruleDefinitionModelList| :: group.ruleDefinitionModelList[i].ruleShortName
    ensures req.supplementalAttributes.Keys == {IDENTIFIER_ATTRIBUTE}
    ensures req.supplementalAttributes[IDENTIFIER_ATTRIBUTE] == group.identifier
    ensures req.dmnContentMap == DmnContentMap(group.ruleDefinitionModelList)
    ensures req.decisionPolicyInfo == CreateDecisionPolicyInfo(group.runtimeId)
  {
    RuntimeLoadRequest(
      group.runtimeId,
      DmnContentMap(group.ruleDefinitionModelList),
      CreateDecisionPolicyInfo(group.runtimeId),
      map[IDENTIFIER_ATTRIBUTE := group.identifier])
  }

  /** The exception a load outcome turns into: a thrown one is wrapped, a failed status is reported. */
  function LoadFailure(outcome: EngineLoadOutcome, group: RuleDefinitionModelGroup): (e: Option<Exception>)
    ensures e.None? <==> outcome == LoadStatus(true)
    ensures e.Some? ==> e.value.LoadRule? && e.value.runtimeName == group.runtimeId
    ensures e.Some? ==> e.value.ruleNames == ShortNames(group.ruleDefinitionModelList)
    ensures e.Some? ==> (e.value.cause.Cause? <==> outcome.LoadThrew?)
  {
    match outcome
    case LoadThrew(err) => Some(LoadRule(group.runtimeId, ShortNames(group.ruleDefinitionModelList), Cause(err)))
    case LoadStatus(success) =>
      if success then None else Some(LoadRule(group.runtimeId, ShortNames(group.ruleDefinitionModelList), NoCause))
  }

  /** Every binding of `before` is still in `after`, unchanged. */
  predicate KeepsBindings(before: map<string, string>, after: map<string, string>) {
    forall r | r in before :: r in after && after[r] == before[r]
  }

  /**
   * The runtime-id uniqueness check: a runtime id already bound to another identifier is a
   * conflict; otherwise the id is (re)bound to this identifier.
   */
  function Bind(bindings: map<string, string>, runtimeId: string, identifier: string)
    : (r: Result<map<string, string>, Exception>)
    ensures r.Failure? <==> runtimeId in bindings && bindings[runtimeId] != identifier
    ensures r.Failure? ==> r.error == RuntimeIdConflict(runtimeId, bindings[runtimeId], identifier)
    ensures r.Success? ==> KeepsBindings(bindings, r.value)
    ensures r.Success? ==> r.value.Keys == bindings.Keys + {runtimeId} && r.value[runtimeId] == identifier
  {
    if runtimeId in bindings && bindings[runtimeId] != identifier then
      Result.Failure(RuntimeIdConflict(runtimeId, bindings[runtimeId], identifier))
    else
      Success(bindings[runtimeId := identifier])
  }

  /**
   * A runtime id, once bound, stays with its identifier: whatever bindings are added later,
   * binding it to a different identifier is a conflict.
   */
  lemma BindingIsPermanent(bindings: map<string, string>, later: map<string, string>,
                           runtimeId: string, first: string, second: string)
    requires Bind(bindings, runtimeId, first).Success?
    requires KeepsBindings(Bind(bindings, runtimeId, first).value, later)
    requires second != first
    ensures Bind(later, runtimeId, second) == Result.Failure(RuntimeIdConflict(runtimeId, first, second))
  {
  }

  class DecisionPolicyRuntimeLoadService {
    const engine: DecisionEngine
    /** runtime id to the identifier of the policy that first claimed it; never shrinks. */
    var runtimeIdToEntityIdMap: map<string, string>
    /** The calls made into the engine so far. */
    ghost var engineCalls: seq<EngineCall>

    constructor(engine: DecisionEngine)
      ensures this.engine == engine && runtimeIdToEntityIdMap == map[] && engineCalls == []
    {
      this.engine := engine;
      runtimeIdToEntityIdMap := map[];
      engineCalls := [];
    }

    /**
     * `loadRulesIntoDecisionRuntime`: check and record the runtime id binding, then ask the
     * engine to load the rules. The binding stays even when the engine load fails.
     */
    method LoadRulesIntoDecisionRuntime(group: RuleDefinitionModelGroup) returns (thrown: Option<Exception>)
      modifies this
      ensures KeepsBindings(old(runtimeIdToEntityIdMap), runtimeIdToEntityIdMap)
      ensures Bind(old(runtimeIdToEntityIdMap), group.runtimeId, group.identifier).Failure? ==>
        thrown == Some(Bind(old(runtimeIdToEntityIdMap), group.runtimeId, group.identifier).error) &&
        runtimeIdToEntityIdMap == old(runtimeIdToEntityIdMap) && engineCalls == old(engineCalls)
      ensures Bind(old(runtimeIdToEntityIdMap), group.runtimeId, group.identifier).Success? ==>
        runtimeIdToEntityIdMap == Bind(old(runtimeIdToEntityIdMap), group.runtimeId, group.identifier).value &&
        engineCalls == old(engineCalls) + [LoadCall(LoadRequest(group))] &&
        thrown == LoadFailure(engine.load(LoadRequest(group)), group)
    {
      match Bind(runtimeIdToEntityIdMap, group.runtimeId, group.identifier) {
        case Failure(e) =>
          thrown := Some(e);
        case Success(bindings) =>
          runtimeIdToEntityIdMap := bindings;
          var request := LoadRequest(group);
          engineCalls := engineCalls + [LoadCall(request)];
          thrown := LoadFailure(engine.load(request), group);
      }
    }

    /** `removeDecisionRuntime`: ask the engine to drop the group's runtime; the binding is kept. */
    method RemoveDecisionRuntime(group: RuleDefinitionModelGroup) returns (thrown: Option<Exception>)
      modifies this`engineCalls
      ensures engineCalls == old(engineCalls) + [RemoveCall(group.runtimeId)]
      ensures thrown == engine.remove(group.runtimeId)
    {
      engineCalls := engineCalls + [RemoveCall(group.runtimeId)];
      thrown := engine.remove(group.runtimeId);
    }

    /** `evaluate`: delegated to the engine. */
    function Evaluate(request: EvaluateRequest): EvaluateOutcome {
      engine.evaluate(request)
    }
  }
}
