/** The exceptions the core throws or catches, as values. */
module Errors {
  import opened Entities

  datatype Exception =
      /** `load` of an entity that is not a Policy (UnsupportedOperationException). */
    | UnsupportedEntityType(info: EntityInfo)
      /** a second `initialize` (IllegalStateException). */
    | AlreadyInitialized
      /** `Collectors.toMap` met the same key twice (IllegalStateException). */
    | DuplicateKey(key: string)
      /** the per-entity failures of one load pass, keyed by location prefix (AggregatedLoadError). */
    | AggregatedLoad(causes: map<string, Exception>)
      /** the per-delta aggregates of one change batch (AggregatedLoadError). */
    | BatchLoad(aggregates: seq<map<string, Exception>>)
      /** a rule-engine runtime id already bound to another identifier (IllegalStateException). */
    | RuntimeIdConflict(runtimeId: string, existingIdentifier: string, identifier: string)
      /** the rule engine refused or failed a rule-set load (LoadRuleException). */
    | LoadRule(runtimeName: string, ruleNames: seq<string>, cause: CauseOption)
      /** a rule item whose name has no `rules/` directory segment (IllegalArgumentException). */
    | MissingRuleDirectory(itemName: string)
      /** invoke of a patch with no rule group (IllegalArgumentException). */
    | PolicyNotFound(identifier: string)
      /** a Loaded event whose entity is not a Policy reached the version listener (ClassCastException). */
    | NotAPolicy(info: EntityInfo)
      /** a method called on a null reference (NullPointerException). */
    | NullReference
      /** anything a collaborator (store, engine, load target, listener) throws. */
    | Collaborator(description: string)

  /** The optional original cause a LoadRuleException wraps. */
  datatype CauseOption = NoCause | Cause(cause: Exception)

  const POLICY_NOT_FOUND_PREFIX: string := "Requested Policy Not Found. identifier:="

  /** The message of the "policy not found" exception names the phrase and the identifier. */
  function PolicyNotFoundMessage(identifier: string): (m: string)
    ensures POLICY_NOT_FOUND_PREFIX <= m
    ensures m[|POLICY_NOT_FOUND_PREFIX|..] == identifier
  {
    POLICY_NOT_FOUND_PREFIX + identifier
  }
}
