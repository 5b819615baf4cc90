/**
 * The load manager: bootstrap loading with fallback to prior versions, strict or lenient
 * startup, and the processing of change batches from the store.
 */
module LoadManager {
  import opened Wrappers
  import opened Entities
  import opened Errors
  import opened LoadEvents

  /** How many versions (the requested one and its priors) one load tries at most. */
  const ENTITY_LOAD_RETRIES: nat := 5

  /** One change reported by the store. */
  datatype Delta = Delta(changeType: ChangeType, entityInfo: EntityInfo)

  /** The store client and the load target, as the answers they give (None: no exception). */
  datatype Collaborators = Collaborators(
    getEntity: EntityInfo -> Result<Entity, Exception>,
    load: Entity -> Option<Exception>,
    unload: EntityInfo -> Option<Exception>)

  /** The state of the dynamic-update subscription. */
  datatype Subscription = NotSubscribed | Live | Disposed

  // ---------------------------------------------------------------------------------------
  // One operation

  /** One load: fetch, hand to the load target; any exception becomes a Failure of the requested info. */
  function LoadAttempt(c: Collaborators, changeType: ChangeType, info: EntityInfo, isBootstrap: bool): (r: LoadOperationResult)
    ensures !r.Unloaded? && r.changeType == changeType && r.isBootstrap == isBootstrap
    // the attempt fails exactly when the fetch or the load throws
    ensures r.Failure? <==> c.getEntity(info).Failure? || c.load(c.getEntity(info).value).Some?
    // a failure carries the attempted info and the exception thrown, the fetch's before the load's
    ensures r.Failure? ==>
      (r.info == info &&
       r.error == (if c.getEntity(info).Failure? then c.getEntity(info).error else c.load(c.getEntity(info).value).value))
    // a success reports the fetched entity, which is the one handed to the load target
    ensures r.Loaded? ==> c.getEntity(info).Success? && r.entity == c.getEntity(info).value && c.load(r.entity).None?
  {
    match c.getEntity(info)
    case Failure(e) => LoadOperationResult.Failure(changeType, e, isBootstrap, info)
    case Success(entity) =>
      match c.load(entity)
      case Some(e) => LoadOperationResult.Failure(changeType, e, isBootstrap, info)
      case None => Loaded(entity, changeType, isBootstrap)
  }

  /** One unload; a success is reported with the Unloaded defaults (DELETE, not bootstrap). */
  function DeleteAttempt(c: Collaborators, info: EntityInfo): (r: LoadOperationResult)
    ensures r.Info() == info && r.changeType == DELETE && !r.isBootstrap
    ensures r.Failure? <==> c.unload(info).Some?
    ensures !r.Failure? ==> r.Unloaded?
    ensures r.Failure? ==> r.error == c.unload(info).value
  {
    match c.unload(info)
    case Some(e) => LoadOperationResult.Failure(DELETE, e, false, info)
    case None => UnloadedWithDefaults(info)
  }

  /** The n-th prior version along the back references (the 0-th is the start itself). */
  function NthPrior(info: Option<EntityInfo>, n: nat): Option<EntityInfo> {
    if n == 0 || info.None? then info else NthPrior(info.value.priorVersion, n - 1)
  }

  /** The attempts of one load with fallback: stop at the first non-failure, a missing prior, or no retries left. */
  function LoadAttempts(c: Collaborators, changeType: ChangeType, info: Option<EntityInfo>, isBootstrap: bool, retries: nat): seq<LoadOperationResult>
    decreases retries
  {
    if retries == 0 || info.None? then []
    else
      var r := LoadAttempt(c, changeType, info.value, isBootstrap);
      if r.Failure? then [r] + LoadAttempts(c, changeType, info.value.priorVersion, isBootstrap, retries - 1)
      else [r]
  }

  /** At least one and at most `retries` attempts are made for a present info. */
  lemma {:induction false} LoadAttemptsBounds(c: Collaborators, changeType: ChangeType, info: Option<EntityInfo>, isBootstrap: bool, retries: nat)
    ensures |LoadAttempts(c, changeType, info, isBootstrap, retries)| <= retries
    ensures info.Some? && retries > 0 ==> |LoadAttempts(c, changeType, info, isBootstrap, retries)| >= 1
    decreases retries
  {
    if retries > 0 && info.Some? {
      LoadAttemptsBounds(c, changeType, info.value.priorVersion, isBootstrap, retries - 1);
    }
  }

  /**
   * Attempt i loads the i-th prior version, every attempt but the last failed, and a last
   * attempt that failed with retries to spare means the chain of priors ran out.
   */
  lemma {:induction false} LoadAttemptsFollowPriorChain(c: Collaborators, changeType: ChangeType, info: Option<EntityInfo>, isBootstrap: bool, retries: nat)
    ensures var rs := LoadAttempts(c, changeType, info, isBootstrap, retries);
      forall i | 0 <= i < |rs| ::
        NthPrior(info, i).Some? && rs[i] == LoadAttempt(c, changeType, NthPrior(info, i).value, isBootstrap)
    ensures var rs := LoadAttempts(c, changeType, info, isBootstrap, retries);
      forall i | 0 <= i < |rs| - 1 :: rs[i].Failure?
    ensures var rs := LoadAttempts(c, changeType, info, isBootstrap, retries);
      |rs| < retries && (rs == [] || rs[|rs| - 1].Failure?) ==> NthPrior(info, |rs|).None?
    decreases retries
  {
    if retries > 0 && info.Some? {
      var rs := LoadAttempts(c, changeType, info, isBootstrap, retries);
      var r := LoadAttempt(c, changeType, info.value, isBootstrap);
      if r.Failure? {
        var tail := LoadAttempts(c, changeType, info.value.priorVersion, isBootstrap, retries - 1);
        LoadAttemptsFollowPriorChain(c, changeType, info.value.priorVersion, isBootstrap, retries - 1);
        assert rs == [r] + tail;
        forall i | 1 <= i < |rs|
          ensures NthPrior(info, i).Some? && rs[i] == LoadAttempt(c, changeType, NthPrior(info, i).value, isBootstrap)
        {
          assert rs[i] == tail[i - 1];
          assert NthPrior(info, i) == NthPrior(info.value.priorVersion, i - 1);
        }
        assert NthPrior(info, |rs|) == NthPrior(info.value.priorVersion, |tail|);
      }
    }
  }

  /** A load succeeds exactly when its last attempt is not a failure. */
  lemma {:induction false} LoadSucceedsIffLastAttemptDoes(c: Collaborators, changeType: ChangeType, info: Option<EntityInfo>, isBootstrap: bool, retries: nat)
    ensures var rs := LoadAttempts(c, changeType, info, isBootstrap, retries);
      (exists i | 0 <= i < |rs| :: rs[i].Loaded?) <==> (rs != [] && rs[|rs| - 1].Loaded?)
    ensures var rs := LoadAttempts(c, changeType, info, isBootstrap, retries);
      forall i | 0 <= i < |rs| :: !rs[i].Unloaded?
    decreases retries
  {
    var rs := LoadAttempts(c, changeType, info, isBootstrap, retries);
    LoadAttemptsFollowPriorChain(c, changeType, info, isBootstrap, retries);
    forall i | 0 <= i < |rs| ensures !rs[i].Unloaded? {
      assert rs[i] == LoadAttempt(c, changeType, NthPrior(info, i).value, isBootstrap);
    }
  }

  /** The results of one store change. */
  function ApplyUpdate(c: Collaborators, delta: Delta): (rs: seq<LoadOperationResult>)
    ensures delta.changeType == DELETE ==> rs == [DeleteAttempt(c, delta.entityInfo)]
    ensures delta.changeType != DELETE ==>
      rs == LoadAttempts(c, delta.changeType, Some(delta.entityInfo), false, ENTITY_LOAD_RETRIES)
  {
    match delta.changeType
    case ADD => LoadAttempts(c, ADD, Some(delta.entityInfo), false, ENTITY_LOAD_RETRIES)
    case UPDATE => LoadAttempts(c, UPDATE, Some(delta.entityInfo), false, ENTITY_LOAD_RETRIES)
    case DELETE => [DeleteAttempt(c, delta.entityInfo)]
  }

  /** The events published for a list of results: one per result, in order. */
  function Published(rs: seq<LoadOperationResult>): (es: seq<LoadEvent>)
    ensures |es| == |rs| && forall i | 0 <= i < |rs| :: es[i] == Operation(rs[i])
  {
    seq(|rs|, i requires 0 <= i < |rs| => Operation(rs[i]))
  }

  // ---------------------------------------------------------------------------------------
  // Consolidation of failures

  /** Some result is a failure. */
  ghost predicate HasFailure(rs: seq<LoadOperationResult>) {
    exists i | 0 <= i < |rs| :: rs[i].Failure?
  }

  /** No two failures among the results share a location prefix. */
  ghost predicate DistinctFailurePrefixes(rs: seq<LoadOperationResult>) {
    forall i, j | 0 <= i < j < |rs| && rs[i].Failure? && rs[j].Failure? ::
      rs[i].info.locationPrefix != rs[j].info.locationPrefix
  }

  /**
   * Collecting the failures into a map from location prefix to error, in order; a second
   * failure with the same prefix makes the collection throw.
   */
  function CollectFailures(rs: seq<LoadOperationResult>): (r: Result<map<string, Exception>, Exception>)
    ensures r.Success? <==> DistinctFailurePrefixes(rs)
    ensures r.Success? ==> forall i | 0 <= i < |rs| && rs[i].Failure? ::
      rs[i].info.locationPrefix in r.value && r.value[rs[i].info.locationPrefix] == rs[i].error
    ensures r.Success? ==> forall k | k in r.value :: exists i | 0 <= i < |rs| :: rs[i].Failure? && rs[i].info.locationPrefix == k
    ensures r.Failure? ==> r.error.DuplicateKey?
    ensures r.Failure? ==> exists i, j | 0 <= i < j < |rs| ::
      (rs[i].Failure? && rs[j].Failure? && rs[i].info.locationPrefix == rs[j].info.locationPrefix == r.error.key)
    decreases |rs|
  {
    if rs == [] then Success(map[])
    else
      var init := rs[..|rs| - 1];
      var last := rs[|rs| - 1];
      assert rs == init + [last];
      match CollectFailures(init)
      case Failure(e) =>
        CollectKeepsClash(init, last, e.key);
        Result.Failure(e)
      case Success(m) =>
        if !last.Failure? then
          CollectSkip(init, last, m);
          Success(m)
        else if last.info.locationPrefix in m then
          CollectClash(init, last, m);
          Result.Failure(DuplicateKey(last.info.locationPrefix))
        else
          CollectAdd(init, last, m);
          Success(m[last.info.locationPrefix := last.error])
  }

  /** `m` holds exactly the failures of `rs`, by location prefix. */
  ghost predicate Collects(rs: seq<LoadOperationResult>, m: map<string, Exception>) {
    (forall i | 0 <= i < |rs| && rs[i].Failure? :: rs[i].info.locationPrefix in m && m[rs[i].info.locationPrefix] == rs[i].error) &&
    (forall k | k in m :: exists i | 0 <= i < |rs| :: rs[i].Failure? && rs[i].info.locationPrefix == k)
  }

  /** Two failures of `rs` share the location prefix `key`. */
  ghost predicate Clash(rs: seq<LoadOperationResult>, key: string) {
    exists i, j | 0 <= i < j < |rs| :: rs[i].Failure? && rs[j].Failure? && rs[i].info.locationPrefix == rs[j].info.locationPrefix == key
  }

  lemma ClashNotDistinct(rs: seq<LoadOperationResult>, key: string)
    requires Clash(rs, key)
    ensures !DistinctFailurePrefixes(rs)
  {
  }

  /** A clash among the earlier results stays a clash. */
  lemma CollectKeepsClash(init: seq<LoadOperationResult>, last: LoadOperationResult, key: string)
    requires Clash(init, key)
    ensures Clash(init + [last], key) && !DistinctFailurePrefixes(init + [last])
  {
    var i, j :| 0 <= i < j < |init| && init[i].Failure? && init[j].Failure? && init[i].info.locationPrefix == init[j].info.locationPrefix == key;
    assert (init + [last])[i] == init[i] && (init + [last])[j] == init[j];
    ClashNotDistinct(init + [last], key);
  }

  /** A result that is not a failure adds nothing. */
  lemma CollectSkip(init: seq<LoadOperationResult>, last: LoadOperationResult, m: map<string, Exception>)
    requires Collects(init, m) && DistinctFailurePrefixes(init) && !last.Failure?
    ensures Collects(init + [last], m) && DistinctFailurePrefixes(init + [last])
  {
    var rs := init + [last];
    assert forall i | 0 <= i < |init| :: rs[i] == init[i];
  }

  /** A failure whose prefix is already collected clashes with the earlier one. */
  lemma CollectClash(init: seq<LoadOperationResult>, last: LoadOperationResult, m: map<string, Exception>)
    requires Collects(init, m) && last.Failure? && last.info.locationPrefix in m
    ensures Clash(init + [last], last.info.locationPrefix) && !DistinctFailurePrefixes(init + [last])
  {
    var rs := init + [last];
    var i :| 0 <= i < |init| && init[i].Failure? && init[i].info.locationPrefix == last.info.locationPrefix;
    assert rs[i] == init[i] && rs[|init|] == last;
    ClashNotDistinct(rs, last.info.locationPrefix);
  }

  /** A failure with a new prefix is collected under it. */
  lemma CollectAdd(init: seq<LoadOperationResult>, last: LoadOperationResult, m: map<string, Exception>)
    requires Collects(init, m) && DistinctFailurePrefixes(init) && last.Failure? && last.info.locationPrefix !in m
    ensures Collects(init + [last], m[last.info.locationPrefix := last.error])
    ensures DistinctFailurePrefixes(init + [last])
  {
    var rs := init + [last];
    assert forall i | 0 <= i < |init| :: rs[i] == init[i];
    assert rs[|init|] == last;
  }

  /** `consolidateLoadErrors`: None when nothing failed, else the aggregated error; may throw. */
  function ConsolidateLoadErrors(rs: seq<LoadOperationResult>): (r: Result<Option<map<string, Exception>>, Exception>)
    ensures r.Success? <==> DistinctFailurePrefixes(rs)
    ensures r.Success? ==> (r.value.None? <==> !HasFailure(rs))
    ensures r.Success? && r.value.Some? ==> r.value.value != map[] && CollectFailures(rs) == Success(r.value.value)
  {
    match CollectFailures(rs)
    case Failure(e) => Result.Failure(e)
    case Success(m) =>
      if m == map[] then Success(None) else Success(Some(m))
  }

  // ---------------------------------------------------------------------------------------
  // Batches

  /** Events published so far, the aggregated errors collected so far, and a thrown exception. */
  datatype BatchRun = BatchRun(events: seq<LoadEvent>, aggregates: seq<map<string, Exception>>, thrown: Option<Exception>)

  /** One delta's turn in the batch body: publish its results and consolidate them. */
  function Step(prev: BatchRun, results: seq<LoadOperationResult>): BatchRun {
    if prev.thrown.Some? then prev
    else
      var events := prev.events + Published(results);
      match ConsolidateLoadErrors(results)
      case Failure(e) => BatchRun(events, prev.aggregates, Some(e))
      case Success(None) => BatchRun(events, prev.aggregates, None)
      case Success(Some(m)) => BatchRun(events, prev.aggregates + [m], None)
  }

  /** The batch body over the deltas in order: it stops at the first consolidation that throws. */
  function RunBatch(c: Collaborators, updates: seq<Delta>): BatchRun
    decreases |updates|
  {
    if updates == [] then BatchRun([], [], None)
    else Step(RunBatch(c, updates[..|updates| - 1]), ApplyUpdate(c, updates[|updates| - 1]))
  }

  lemma RunBatchPrefix(c: Collaborators, updates: seq<Delta>, i: nat)
    requires i < |updates|
    ensures RunBatch(c, updates[..i + 1]) == Step(RunBatch(c, updates[..i]), ApplyUpdate(c, updates[i]))
  {
    assert updates[..i + 1][..i] == updates[..i];
  }

  /** What the batch body returns: the deltas, the batch error, or the exception that escaped. */
  function BatchOutcome(c: Collaborators, updates: seq<Delta>): Result<seq<Delta>, Exception> {
    var run := RunBatch(c, updates);
    if run.thrown.Some? then Result.Failure(run.thrown.value)
    else if run.aggregates == [] then Success(updates)
    else Result.Failure(BatchLoad(run.aggregates))
  }

  /** Some delta of the batch has a failure among its results. */
  ghost predicate SomeDeltaFailed(c: Collaborators, updates: seq<Delta>) {
    exists k | 0 <= k < |updates| :: HasFailure(ApplyUpdate(c, updates[k]))
  }

  /** No delta of the batch has two failures with the same location prefix. */
  ghost predicate NoDuplicatePrefixes(c: Collaborators, updates: seq<Delta>) {
    forall k | 0 <= k < |updates| :: DistinctFailurePrefixes(ApplyUpdate(c, updates[k]))
  }

  /**
   * Without duplicate failure prefixes inside one delta, every delta is applied and the batch
   * collects an aggregated error exactly when some delta failed.
   */
  lemma {:induction false} BatchFailsIffSomeDeltaFailed(c: Collaborators, updates: seq<Delta>)
    requires NoDuplicatePrefixes(c, updates)
    ensures RunBatch(c, updates).thrown.None?
    ensures RunBatch(c, updates).aggregates == [] <==> !SomeDeltaFailed(c, updates)
    decreases |updates|
  {
    if updates != [] {
      var n := |updates| - 1;
      var init := updates[..n];
      assert forall k | 0 <= k < n :: init[k] == updates[k];
      BatchFailsIffSomeDeltaFailed(c, init);
      var rs := ApplyUpdate(c, updates[n]);
      RunBatchPrefix(c, updates, n);
      assert updates[..n + 1] == updates;
      StepWithoutDuplicates(RunBatch(c, init), rs);
      SomeDeltaFailedSplit(c, updates);
    }
  }

  /** A delta without duplicate failure prefixes never throws, and adds an aggregate iff it failed. */
  lemma StepWithoutDuplicates(prev: BatchRun, results: seq<LoadOperationResult>)
    requires prev.thrown.None? && DistinctFailurePrefixes(results)
    ensures Step(prev, results).thrown.None?
    ensures Step(prev, results).aggregates == [] <==> prev.aggregates == [] && !HasFailure(results)
  {
  }

  lemma SomeDeltaFailedSplit(c: Collaborators, updates: seq<Delta>)
    requires updates != []
    ensures SomeDeltaFailed(c, updates) <==>
      SomeDeltaFailed(c, updates[..|updates| - 1]) || HasFailure(ApplyUpdate(c, updates[|updates| - 1]))
  {
    var n := |updates| - 1;
    var front := updates[..n];
    if SomeDeltaFailed(c, updates) && !HasFailure(ApplyUpdate(c, updates[n])) {
      var k :| 0 <= k < |updates| && HasFailure(ApplyUpdate(c, updates[k]));
      assert k < n && front[k] == updates[k];
    }
    if SomeDeltaFailed(c, front) {
      var k :| 0 <= k < n && HasFailure(ApplyUpdate(c, front[k]));
      assert front[k] == updates[k];
    }
  }

  /** A batch in which nothing fails publishes every result and returns its deltas. */
  lemma CleanBatchSucceeds(c: Collaborators, updates: seq<Delta>)
    requires forall k | 0 <= k < |updates| :: !HasFailure(ApplyUpdate(c, updates[k]))
    ensures BatchOutcome(c, updates) == Success(updates)
  {
    BatchFailsIffSomeDeltaFailed(c, updates);
  }

  /** The whole listing's bootstrap results, in listing order. */
  function BootstrapResults(c: Collaborators, infos: seq<EntityInfo>): seq<LoadOperationResult>
    decreases |infos|
  {
    if infos == [] then []
    else BootstrapResults(c, infos[..|infos| - 1]) + LoadAttempts(c, ADD, Some(infos[|infos| - 1]), true, ENTITY_LOAD_RETRIES)
  }

  /**
   * What a first `initialize` throws: the listing's error, the consolidation's duplicate-key
   * error, or (in strict mode only) the aggregated load error; None means it completes.
   */
  function InitializeOutcome(c: Collaborators, isStrictStartupMode: bool, listing: Result<seq<EntityInfo>, Exception>): Option<Exception> {
    match listing
    case Failure(e) => Some(e)
    case Success(infos) =>
      match ConsolidateLoadErrors(BootstrapResults(c, infos))
      case Failure(e) => Some(e)
      case Success(None) => None
      case Success(Some(m)) => if isStrictStartupMode then Some(AggregatedLoad(m)) else None
  }

  /** Lenient startup completes despite entity load failures, as long as their prefixes are distinct. */
  lemma LenientStartupToleratesFailures(c: Collaborators, infos: seq<EntityInfo>)
    requires DistinctFailurePrefixes(BootstrapResults(c, infos))
    ensures InitializeOutcome(c, false, Success(infos)) == None
  {
  }

  /** Strict startup fails exactly when some bootstrap attempt failed (or the consolidation throws). */
  lemma StrictStartupFailsOnAnyFailure(c: Collaborators, infos: seq<EntityInfo>)
    requires DistinctFailurePrefixes(BootstrapResults(c, infos))
    ensures InitializeOutcome(c, true, Success(infos)).None? <==> !HasFailure(BootstrapResults(c, infos))
  {
  }

  /** An entity whose version and one prior both fail at startup shares its prefix and makes consolidation throw. */
  lemma SharedPrefixChainThrows(c: Collaborators, info: EntityInfo)
    requires info.priorVersion.Some? && info.priorVersion.value.locationPrefix == info.locationPrefix
    requires LoadAttempt(c, ADD, info, true).Failure? && LoadAttempt(c, ADD, info.priorVersion.value, true).Failure?
    ensures InitializeOutcome(c, false, Success([info])).Some?
  {
    var rs := BootstrapResults(c, [info]);
    assert [info][..0] == [];
    var first := LoadAttempt(c, ADD, info, true);
    var tail := LoadAttempts(c, ADD, info.priorVersion, true, ENTITY_LOAD_RETRIES - 1);
    assert tail[0] == LoadAttempt(c, ADD, info.priorVersion.value, true);
    assert LoadAttempts(c, ADD, Some(info), true, ENTITY_LOAD_RETRIES) == [first] + tail;
    assert rs == BootstrapResults(c, []) + LoadAttempts(c, ADD, Some(info), true, ENTITY_LOAD_RETRIES);
    assert rs[0].Failure? && rs[1].Failure?;
    assert !DistinctFailurePrefixes(rs);
  }

  // ---------------------------------------------------------------------------------------
  // The manager object

  /** `PolicyLoadManager`; `events` is what it has published, in order. */
  class PolicyLoadManager {
    const collaborators: Collaborators
    const isStrictStartupMode: bool
    var isInitialized: bool
    var subscription: Subscription
    ghost var events: seq<LoadEvent>

    constructor(collaborators: Collaborators, isStrictStartupMode: bool)
      ensures this.collaborators == collaborators && this.isStrictStartupMode == isStrictStartupMode
      ensures !isInitialized && subscription == NotSubscribed && events == []
    {
      this.collaborators := collaborators;
      this.isStrictStartupMode := isStrictStartupMode;
      isInitialized := false;
      subscription := NotSubscribed;
      events := [];
    }

    function IsInitialized(): bool
      reads this
    {
      isInitialized
    }

    /** The single-attempt load: exactly one event, Loaded or Failure, is published. */
    method TryLoadOnce(changeType: ChangeType, entityInfo: EntityInfo, isBootstrap: bool) returns (result: LoadOperationResult)
      modifies this`events
      ensures result == LoadAttempt(collaborators, changeType, entityInfo, isBootstrap)
      ensures events == old(events) + [Operation(result)]
    {
      match collaborators.getEntity(entityInfo) {
        case Failure(e) =>
          result := LoadOperationResult.Failure(changeType, e, isBootstrap, entityInfo);
        case Success(entity) =>
          match collaborators.load(entity) {
            case Some(e) =>
              result := LoadOperationResult.Failure(changeType, e, isBootstrap, entityInfo);
            case None =>
              result := Loaded(entity, changeType, isBootstrap);
          }
      }
      events := events + [Operation(result)];
    }

    /** `tryDeleteEntity`: unload and publish Unloaded, or publish the Failure. */
    method TryDeleteEntity(entityInfo: EntityInfo) returns (result: LoadOperationResult)
      modifies this`events
      ensures result == DeleteAttempt(collaborators, entityInfo)
      ensures events == old(events) + [Operation(result)]
    {
      match collaborators.unload(entityInfo) {
        case Some(e) =>
          result := LoadOperationResult.Failure(DELETE, e, false, entityInfo);
        case None =>
          result := UnloadedWithDefaults(entityInfo);
      }
      events := events + [Operation(result)];
    }

    /** `tryLoadEntity` with fallback: the attempts loop over the prior-version chain. */
    method TryLoadEntity(changeType: ChangeType, entityInfo: EntityInfo, isBootstrap: bool) returns (results: seq<LoadOperationResult>)
      modifies this`events
      ensures results == LoadAttempts(collaborators, changeType, Some(entityInfo), isBootstrap, ENTITY_LOAD_RETRIES)
      ensures events == old(events) + Published(results)
    {
      var cur := Some(entityInfo);
      var retries := ENTITY_LOAD_RETRIES;
      results := [];
      while retries > 0 && cur.Some?
        invariant results + LoadAttempts(collaborators, changeType, cur, isBootstrap, retries)
               == LoadAttempts(collaborators, changeType, Some(entityInfo), isBootstrap, ENTITY_LOAD_RETRIES)
        invariant events == old(events) + Published(results)
        decreases retries
      {
        var result := TryLoadOnce(changeType, cur.value, isBootstrap);
        AttemptStep(collaborators, changeType, cur.value, isBootstrap, retries, results, result);
        PublishedSnoc(results, result);
        results := results + [result];
        retries := retries - 1;
        if result.Failure? {
          cur := cur.value.priorVersion;
        } else {
          return;
        }
      }
    }

    /** `applyUpdate`: load for ADD and UPDATE, unload for DELETE. */
    method ApplyDelta(delta: Delta) returns (results: seq<LoadOperationResult>)
      modifies this`events
      ensures results == ApplyUpdate(collaborators, delta)
      ensures events == old(events) + Published(results)
    {
      if delta.changeType == DELETE {
        var r := TryDeleteEntity(delta.entityInfo);
        results := [r];
      } else {
        results := TryLoadEntity(delta.changeType, delta.entityInfo, false);
      }
    }

    /**
     * One batch of the update stream: the batch body, then the error hook that publishes any
     * escaped exception other than an aggregated load error as a non-loading error.
     */
    method ProcessBatch(updates: seq<Delta>) returns (outcome: Result<seq<Delta>, Exception>)
      modifies this`events
      ensures outcome == BatchOutcome(collaborators, updates)
      ensures var run := RunBatch(collaborators, updates);
        events == old(events) + run.events + (if run.thrown.Some? then [NonLoadingError(run.thrown)] else [])
    {
      var aggregates: seq<map<string, Exception>> := [];
      var thrown: Option<Exception> := None;
      ghost var run := RunBatch(collaborators, []);
      var i := 0;
      while i < |updates| && thrown.None?
        invariant 0 <= i <= |updates|
        invariant run == RunBatch(collaborators, updates[..i])
        invariant thrown == run.thrown && aggregates == run.aggregates
        invariant events == old(events) + run.events
      {
        RunBatchPrefix(collaborators, updates, i);
        var results := ApplyDelta(updates[i]);
        var consolidated := ConsolidateLoadErrors(results);
        EventsAppend(old(events), run.events, Published(results));
        run := Step(run, results);
        match consolidated {
          case Failure(e) => thrown := Some(e);
          case Success(None) =>
          case Success(Some(m)) => aggregates := aggregates + [m];
        }
        i := i + 1;
      }
      if thrown.Some? {
        RunBatchStopsAtThrow(collaborators, updates, i);
        events := events + [NonLoadingError(thrown)];
        outcome := Result.Failure(thrown.value);
      } else {
        assert updates[..i] == updates;
        if aggregates == [] {
          outcome := Success(updates);
        } else {
          outcome := Result.Failure(BatchLoad(aggregates));
        }
      }
    }

    /** `initialize`: bootstrap every listed entity, consolidate, then subscribe and mark initialized. */
    method Initialize(listing: Result<seq<EntityInfo>, Exception>) returns (thrown: Option<Exception>)
      modifies this
      ensures old(isInitialized) ==> thrown == Some(AlreadyInitialized)
      ensures old(isInitialized) ==> isInitialized && subscription == old(subscription) && events == old(events)
      ensures !old(isInitialized) ==> thrown == InitializeOutcome(collaborators, isStrictStartupMode, listing)
      ensures !old(isInitialized) && listing.Success? ==>
        events == old(events) + Published(BootstrapResults(collaborators, listing.value))
      ensures !old(isInitialized) && listing.Failure? ==> events == old(events)
      ensures !old(isInitialized) ==> isInitialized == thrown.None?
      ensures !old(isInitialized) ==> subscription == (if thrown.None? then Live else old(subscription))
    {
      if isInitialized {
        return Some(AlreadyInitialized);
      }
      if listing.Failure? {
        return Some(listing.error);
      }
      var infos := listing.value;
      var results: seq<LoadOperationResult> := [];
      var i := 0;
      while i < |infos|
        invariant 0 <= i <= |infos|
        invariant results == BootstrapResults(collaborators, infos[..i])
        invariant events == old(events) + Published(results)
        invariant !isInitialized && subscription == old(subscription)
      {
        BootstrapStep(collaborators, infos, i);
        var entityResults := TryLoadEntity(ADD, infos[i], true);
        PublishedAppend(results, entityResults);
        EventsAppend(old(events), Published(results), Published(entityResults));
        results := results + entityResults;
        i := i + 1;
      }
      assert infos[..i] == infos;
      var consolidated := ConsolidateLoadErrors(results);
      if consolidated.Failure? {
        return Some(consolidated.error);
      }
      if consolidated.value.Some? && isStrictStartupMode {
        return Some(AggregatedLoad(consolidated.value.value));
      }
      subscription := Live;
      isInitialized := true;
      thrown := None;
    }

    /** The update stream has ended: a non-loading error without an error marks it. */
    method OnUpdatesTerminated()
      modifies this`events
      ensures events == old(events) + [NonLoadingError(None)]
      ensures events[|events| - 1].MarksTermination()
    {
      events := events + [NonLoadingError(None)];
    }

    /** `stop`: dispose of the subscription if there is one; initialization is not undone. */
    method Stop()
      modifies this`subscription
      ensures subscription == (if old(subscription) == NotSubscribed then NotSubscribed else Disposed)
    {
      if subscription != NotSubscribed {
        subscription := Disposed;
      }
    }
  }

  /** The events of two runs of results are the events of each, in order. */
  lemma PublishedAppend(a: seq<LoadOperationResult>, b: seq<LoadOperationResult>)
    ensures Published(a + b) == Published(a) + Published(b)
  {
  }

  /** The bootstrap results of one more listed entity are followed by that entity's attempts. */
  lemma BootstrapStep(c: Collaborators, infos: seq<EntityInfo>, i: nat)
    requires i < |infos|
    ensures BootstrapResults(c, infos[..i + 1])
         == BootstrapResults(c, infos[..i]) + LoadAttempts(c, ADD, Some(infos[i]), true, ENTITY_LOAD_RETRIES)
  {
    assert infos[..i + 1][..i] == infos[..i];
  }

  /** The events of one more result are the earlier events followed by that result's event. */
  lemma PublishedSnoc(rs: seq<LoadOperationResult>, r: LoadOperationResult)
    ensures Published(rs + [r]) == Published(rs) + [Operation(r)]
  {
  }

  /** One turn of the fallback loop: the attempt made, then the attempts still to come. */
  lemma AttemptStep(c: Collaborators, changeType: ChangeType, info: EntityInfo, isBootstrap: bool, retries: nat,
                    results: seq<LoadOperationResult>, result: LoadOperationResult)
    requires retries > 0
    requires result == LoadAttempt(c, changeType, info, isBootstrap)
    ensures result.Failure? ==>
      results + LoadAttempts(c, changeType, Some(info), isBootstrap, retries)
      == (results + [result]) + LoadAttempts(c, changeType, info.priorVersion, isBootstrap, retries - 1)
    ensures !result.Failure? ==>
      results + LoadAttempts(c, changeType, Some(info), isBootstrap, retries) == results + [result]
  {
  }

  lemma EventsAppend(a: seq<LoadEvent>, b: seq<LoadEvent>, c: seq<LoadEvent>)
    ensures a + b + c == a + (b + c)
  {
  }

  /** Once the batch body throws, later deltas are not applied. */
  lemma {:induction false} RunBatchStopsAtThrow(c: Collaborators, updates: seq<Delta>, n: nat)
    requires n <= |updates|
    requires RunBatch(c, updates[..n]).thrown.Some?
    ensures RunBatch(c, updates) == RunBatch(c, updates[..n])
    decreases |updates| - n
  {
    if n < |updates| {
      RunBatchPrefix(c, updates, n);
      RunBatchStopsAtThrow(c, updates, n + 1);
    } else {
      assert updates[..n] == updates;
    }
  }
}
