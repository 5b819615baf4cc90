/** The listener that keeps the version index in step with load and unload events. */
module VersionListener {
  import opened Wrappers
  import opened Entities
  import opened Errors
  import opened LoadEvents
  import opened VersionIndex

  /** What one event does to the index, and what the listener throws (if anything). */
  datatype Reaction = Reaction(state: IndexState, thrown: Option<Exception>)

  /**
   * A Loaded policy is registered with its activation status; a Loaded entity of any other
   * kind fails the cast and changes nothing; an Unloaded info is removed; failures and
   * store-level errors are ignored.
   */
  function React(st: IndexState, event: LoadEvent): Reaction
  {
    match event
    case Operation(Loaded(Policy(info, status, _, _), _, _)) => Reaction(Put(st, info.version, status), None)
    case Operation(Loaded(OtherKind(info), _, _)) => Reaction(st, Some(NotAPolicy(info)))
    case Operation(Unloaded(info, _, _)) => Reaction(Drop(st, info.version), None)
    case _ => Reaction(st, None)
  }

  /** Every reaction keeps the index invariant. */
  lemma ReactValid(st: IndexState, event: LoadEvent)
    requires IndexValid(st)
    ensures IndexValid(React(st, event).state)
  {
    match event
    case Operation(Loaded(Policy(info, status, _, _), _, _)) => PutValid(st, info.version, status);
    case Operation(Unloaded(info, _, _)) => DropValid(st, info.version);
    case _ =>
  }

  /** Loading a policy of a version not yet registered and then unloading it restores the index. */
  lemma LoadedThenUnloadedRestores(st: IndexState, entity: Entity, c1: ChangeType, b1: bool, c2: ChangeType, b2: bool)
    requires IndexValid(st)
    requires entity.Policy?
    requires Create(entity.info.version) !in st.statusMap
    ensures React(React(st, Operation(Loaded(entity, c1, b1))).state, Operation(Unloaded(entity.info, c2, b2))).state == st
  {
    DropPutRestores(st, entity.info.version, entity.activationStatus);
  }

  /** A repeated Loaded event of the same policy changes nothing more. */
  lemma LoadedTwiceIdempotent(st: IndexState, entity: Entity, c: ChangeType, b: bool)
    requires IndexValid(st)
    requires entity.Policy?
    ensures var once := React(st, Operation(Loaded(entity, c, b))).state;
      React(once, Operation(Loaded(entity, c, b))).state == once
  {
    PutIdempotent(st, entity.info.version, entity.activationStatus);
  }

  /** `PolicyVersionEventListener`: forwards Loaded and Unloaded events to the version service. */
  class PolicyVersionEventListener {
    const policyVersionService: PolicyVersionService

    constructor(policyVersionService: PolicyVersionService)
      ensures this.policyVersionService == policyVersionService
    {
      this.policyVersionService := policyVersionService;
    }

    /** `publishEvent(...)` for every event kind; the cast failure is returned as the thrown exception. */
    method PublishEvent(event: LoadEvent) returns (thrown: Option<Exception>)
      requires policyVersionService.Valid()
      modifies policyVersionService
      ensures policyVersionService.Valid()
      ensures Reaction(policyVersionService.State(), thrown) == React(old(policyVersionService.State()), event)
    {
      match event
      case Operation(Loaded(entity, _, _)) =>
        if entity.Policy? {
          policyVersionService.Set(entity.info.version, entity.activationStatus);
          thrown := None;
        } else {
          thrown := Some(NotAPolicy(entity.info));
        }
      case Operation(Unloaded(info, _, _)) =>
        policyVersionService.Remove(info.version);
        thrown := None;
      case _ =>
        thrown := None;
    }
  }
}
