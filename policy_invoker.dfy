/**
 * The common entry point of every policy invocation: resolve the requested address and version
 * through the version service, then either answer "missing policy" or invoke the runtime context
 * and hand its result to the host's response handler.
 */
module Invoker {
  import opened Wrappers
  import opened Entities
  import opened Errors
  import opened PolicyErrors
  import opened PolicyResults
  import opened VersionIndex
  import ConfigContext

  /** What the handler is told about a request whose policy version was resolved. */
  datatype PolicyRequestInfo = PolicyRequestInfo(
    requestedPolicyAddress: string,
    requestedPolicyVersion: string,
    policy: LogicalVersion)

  /**
   * The host's `PolicyResultHandler` is free to build any response; the model records which of
   * its three methods is called and with which arguments.
   */
  datatype Response<T> =
    | MissingPolicyResponse(requestAddress: string, requestVersion: string)
    | SuccessResponse(requestInfo: PolicyRequestInfo, policyInvocationResult: T)
    | ErrorResponse(requestInfo: PolicyRequestInfo, errorInfo: PolicyErrorInfo)

  /** What `invoke` lets escape: the version service's number-format error or the context's exception. */
  datatype InvokeError<E> = VersionFormat(formatError: VersionFormatError) | ContextThrew(thrown: E)

  /** `getPolicyVersion(address, version)`: the resolved version, absent, or a number-format error. */
  type VersionLookup = (string, string) -> Result<Option<LogicalVersion>, VersionFormatError>

  /** `PolicyRuntimeContext.invoke(policy, request)`: a result, or an exception it throws. */
  type RuntimeContext<!S, T, E> = (LogicalVersion, S) -> Result<PolicyResult<T>, E>

  /** `PolicyInvoker`: its two collaborators are fixed at construction and never change. */
  datatype PolicyInvoker<!S, T, E> = PolicyInvoker(context: RuntimeContext<S, T, E>, versionService: VersionLookup) {

    /** `invoke(address, version, request, handler)`. */
    function Invoke(address: string, version: string, request: S): (r: Result<Response<T>, InvokeError<E>>)
      // a version text that is not a number propagates, and nothing else is done
      ensures versionService(address, version).Failure? ==>
        r == Result.Failure(VersionFormat(versionService(address, version).error))
      // an unresolved version is answered by the missing-policy response for the request as given
      ensures versionService(address, version) == Result.Success(None) ==>
        r == Result.Success(MissingPolicyResponse(address, version))
      // a resolved version runs the context on exactly that version; what the context throws propagates
      ensures versionService(address, version).Success? && versionService(address, version).value.Some? ==>
        var policy := versionService(address, version).value.value;
        var info := PolicyRequestInfo(address, version, policy);
        match context(policy, request)
        case Failure(e) => r == Result.Failure(ContextThrew(e))
        case Success(result) =>
          r.Success? && !r.value.MissingPolicyResponse? && r.value.requestInfo == info &&
          (r.value.SuccessResponse? <==> result.ErrorInfo().None?) &&
          (r.value.SuccessResponse? ==> Some(r.value.policyInvocationResult) == result.Result()) &&
          (r.value.ErrorResponse? ==> Some(r.value.errorInfo) == result.ErrorInfo())
    {
      match versionService(address, version)
      case Failure(e) => Result.Failure(VersionFormat(e))
      case Success(None) => Result.Success(MissingPolicyResponse(address, version))
      case Success(Some(policy)) =>
        var requestInfo := PolicyRequestInfo(address, version, policy);
        match context(policy, request)
        case Failure(e) => Result.Failure(ContextThrew(e))
        case Success(result) =>
          if result.ErrorInfo().None? then Result.Success(SuccessResponse(requestInfo, result.Result().value))
          else Result.Success(ErrorResponse(requestInfo, result.ErrorInfo().value))
    }
  }

  /** The three responses are told apart by the resolution and the result's variant alone. */
  lemma ResponseKinds<S, T, E>(invoker: PolicyInvoker<S, T, E>, address: string, version: string, request: S)
    ensures var r := invoker.Invoke(address, version, request);
      r.Success? ==>
        (r.value.MissingPolicyResponse? <==> invoker.versionService(address, version) == Result.Success(None)) &&
        (r.value.SuccessResponse? <==>
           var lookup := invoker.versionService(address, version);
           lookup.Success? && lookup.value.Some? &&
           invoker.context(lookup.value.value, request).Success? &&
           invoker.context(lookup.value.value, request).value.Success?)
  {
  }

  /** When the version does not resolve, the context is never consulted: any other context answers the same. */
  lemma UnresolvedIgnoresContext<S, T, E>(lookup: VersionLookup, first: RuntimeContext<S, T, E>,
                                          second: RuntimeContext<S, T, E>, address: string, version: string, request: S)
    requires lookup(address, version).Failure? || lookup(address, version) == Result.Success(None)
    ensures PolicyInvoker(first, lookup).Invoke(address, version, request)
         == PolicyInvoker(second, lookup).Invoke(address, version, request)
  {
  }

  /** Two contexts that agree on the resolved version yield the same response. */
  lemma ResolvedUsesOnlyThatVersion<S, T, E>(lookup: VersionLookup, first: RuntimeContext<S, T, E>,
                                             second: RuntimeContext<S, T, E>, address: string, version: string, request: S)
    requires lookup(address, version).Success? && lookup(address, version).value.Some?
    requires first(lookup(address, version).value.value, request) == second(lookup(address, version).value.value, request)
    ensures PolicyInvoker(first, lookup).Invoke(address, version, request)
         == PolicyInvoker(second, lookup).Invoke(address, version, request)
  {
  }

  // ---------------------------------------------------------------------------------------
  // The invoker over the version service and the configuration context

  /** The version service's answer on a given index, as the logical version it stands for. */
  ghost function ServiceLookup(st: IndexState): (lookup: VersionLookup)
    ensures forall address, version ::
      lookup(address, version).Success? <==> Resolve(st, address, version).Success?
    ensures forall address, version ::
      lookup(address, version) == Result.Success(None) <==> Resolve(st, address, version) == Result.Success(None)
  {
    (address: string, version: string) =>
      match Resolve(st, address, version)
      case Failure(e) => Result.Failure(e)
      case Success(None) => Result.Success(None)
      case Success(Some(p)) => Result.Success(Some(p.AsLogicalVersion()))
  }

  /** Before any version is registered, every request with a numeric version is a missing policy. */
  lemma EmptyIndexAnswersMissing<S, T, E>(context: RuntimeContext<S, T, E>, address: string, version: string, request: S)
    requires Resolve(EMPTY, address, version).Success?
    ensures PolicyInvoker(context, ServiceLookup(EMPTY)).Invoke(address, version, request)
         == Result.Success(MissingPolicyResponse(address, version))
  {
    ResolveOnEmpty(address, version);
  }

  /** A version text that is neither dotted nor a number propagates the format error. */
  lemma NonNumericVersionPropagates<S, T, E>(st: IndexState, context: RuntimeContext<S, T, E>, address: string, request: S)
    ensures PolicyInvoker(context, ServiceLookup(st)).Invoke(address, "1x", request).Failure?
    ensures PolicyInvoker(context, ServiceLookup(st)).Invoke(address, "1x", request).error.VersionFormat?
  {
    NonNumericMajorFails(st, address);
  }

  /** The configuration context as a runtime context: it never throws. */
  function ConfigRuntime(matcher: ConfigContext.ConfigMatcher, st: ConfigContext.ConfigContextState)
    : (context: RuntimeContext<string, map<string, Value>, Exception>)
    ensures forall policy, event :: context(policy, event).Success?
  {
    (policy: LogicalVersion, event: string) => Result.Success(ConfigContext.InvokeOn(matcher, st, policy, event))
  }

  /**
   * A version that resolves to a patch whose configuration was unloaded gets the error response
   * carrying the missing-configuration error, with the request info naming that patch.
   */
  lemma UnloadedConfigGetsErrorResponse(lookup: VersionLookup, matcher: ConfigContext.ConfigMatcher,
                                        st: ConfigContext.ConfigContextState, info: EntityInfo,
                                        address: string, version: string, event: string)
    requires ConfigContext.ContextValid(st)
    requires PatchIdentifier(info.version) in st.configItems
    requires lookup(address, version) == Result.Success(Some(info.version))
    ensures var r := PolicyInvoker(ConfigRuntime(matcher, ConfigContext.UnloadStep(st, info)), lookup).Invoke(address, version, event);
      r.Success? && r.value.ErrorResponse? &&
      r.value.requestInfo == PolicyRequestInfo(address, version, info.version) &&
      r.value.errorInfo.error == BAD_REQUEST_MISSING_CONFIG
  {
    ConfigContext.UnloadThenInvokeFails(matcher, st, info, event);
  }
}
