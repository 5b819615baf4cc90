/** Results of load operations, which double as the events the load manager publishes. */
module LoadEvents {
  import opened Wrappers
  import opened Entities
  import opened Errors

  /** The kind of change a store delta (and the operation it causes) describes. */
  datatype ChangeType = ADD | UPDATE | DELETE

  /** The immutable record of one attempted load or unload (timing metadata left out). */
  datatype LoadOperationResult =
    | Failure(changeType: ChangeType, error: Exception, isBootstrap: bool, info: EntityInfo)
    | Loaded(entity: Entity, changeType: ChangeType, isBootstrap: bool)
    | Unloaded(info: EntityInfo, changeType: ChangeType, isBootstrap: bool)
  {
    /** The info every result exposes; for Loaded it is the loaded entity's own info. */
    function Info(): (i: EntityInfo)
      ensures Loaded? ==> i == entity.info
      ensures !Loaded? ==> i == info
    {
      if Loaded? then entity.info else info
    }
  }

  /** `Unloaded(info, metadata)`: the constructor defaults (DELETE, not bootstrap) apply. */
  function UnloadedWithDefaults(info: EntityInfo): (r: LoadOperationResult)
    ensures r.Unloaded? && r.Info() == info
    ensures r.changeType == DELETE && !r.isBootstrap
  {
    Unloaded(info, DELETE, false)
  }

  /** Every event kind a listener can receive. */
  datatype LoadEvent =
    | Operation(result: LoadOperationResult)
      /** A store-level error; a missing error marks that the update monitoring has ended. */
    | NonLoadingError(error: Option<Exception>)
  {
    predicate MarksTermination() { NonLoadingError? && error.None? }
  }
}
