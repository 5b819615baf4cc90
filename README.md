# Versioned policy runtime — a Dafny model

This project models the core of a runtime for versioned policy artifacts. Each policy is stored under a location prefix and identified by a name and a `major.minor.patch` version. The runtime has these parts:

- **Load manager.** It takes the entities a store lists at start-up and the change deltas the store streams later. For each one it retries with the chain of prior versions. It publishes every load and unload result to a listener and consolidates failures per location prefix. At start-up it either tolerates failures or, in strict mode, fails on them.
- **Load events.** The results a load operation produces, which double as the events a listener receives.
- **Aggregate listener.** It forwards every event to a fixed array of listeners. Any exception one listener throws is caught, so it reaches neither the later listeners nor the publisher.
- **Version service and its listener.** The service indexes loaded policies under three keys: the major version, `major.minor` and `major.minor.patch`. A request for an exact version is answered by the highest patch, when that patch is not disabled. A request for a bare major version picks the highest minor that has an active top patch. The listener registers loaded policies and removes unloaded ones.
- **Invoker.** It resolves the requested address and version through the version service. It then answers "missing policy", or runs the runtime context and hands the result or the error to the host's response handler.
- **Configuration runtime context.** It registers each policy's configuration model under the policy's patch identifier. An invocation answers the configuration that matches a business event.
- **Decision runtime context.**
  - Loading a policy groups its rule files with the rule factory. It then claims a runtime id with the load service and loads the files into the decision engine. Finally it unloads the entity's previous patch.
  - Invoking rejects argument keys that use the reserved configuration prefix, merges the matching configuration into the arguments and evaluates one decision file.
- **Rule factory and load service.** These hold the path handling, the sanitising of identifiers, the grouping of rule files and the runtime-id bookkeeping behind the decision context.

Pure decision logic is written as functions with lemmas. Each object the source updates in place is a class whose methods are proved against those functions:

- `PolicyLoadManager`
- `PolicyVersionService`
- `PolicyVersionEventListener`
- `AggregateEntityLoadListener`
- `ConfigManagementService`
- `ConfigPolicyRuntimeContext`
- `DecisionPolicyRuntimeContext`
- `DecisionPolicyRuntimeLoadService`

Collaborators the core calls but does not define are parameters or oracle values:

- the store client and the load target;
- the decision engine;
- the configuration-matching library;
- the host's response handler.

Two behaviours of the code as written are stated as lemmas, not corrected:

- When a newer patch of an entity is already loaded, unloading an older patch in the configuration context forgets the entity's latest version. The newer patch's configuration stays registered (`ConfigContext.UnloadOlderPatchForgetsNewer`).
- A decision load that fails after its configuration model was registered leaves that model registered (`DecisionContext.FailedLoadKeepsConfiguration`).

## Model

| member | source | states |
|---|---|---|
| LoadManager.LoadAttempt | sdk/src/main/java/com/capitalone/identity/platform/loading/PolicyLoadManager.java:186-200 | One load attempt fetches the entity and hands it to the load target. It fails exactly when the fetch or the load throws, and the failure carries the requested info, the change type, the bootstrap flag and the exception thrown. A success reports `Loaded` with the fetched entity. It is never an unload. |
| LoadManager.DeleteAttempt | sdk/src/main/java/com/capitalone/identity/platform/loading/PolicyLoadManager.java:202-211 | An unload attempt reports a result whose info is the requested one, with change type DELETE and not bootstrap. It fails exactly when the load target's unload throws, and then carries that exception. Otherwise it reports `Unloaded`. |
| LoadManager.LoadAttemptsBounds | sdk/src/main/java/com/capitalone/identity/platform/loading/PolicyLoadManager.java:168-184 | A load with fallback makes at most the retry budget of attempts, and at least one when there is an entity and budget left. |
| LoadManager.LoadAttemptsFollowPriorChain | sdk/src/main/java/com/capitalone/identity/platform/loading/PolicyLoadManager.java:171-183 | Attempt i loads the i-th prior version. Every attempt but the last failed. An early stop after a failure means the prior chain ran out. |
| LoadManager.LoadSucceedsIffLastAttemptDoes | sdk/src/main/java/com/capitalone/identity/platform/loading/PolicyLoadManager.java:174-183 | Some attempt loads the entity exactly when the last attempt does, and no attempt is an unload. |
| LoadManager.ApplyUpdate | sdk/src/main/java/com/capitalone/identity/platform/loading/PolicyLoadManager.java:156-166 | A DELETE delta is one unload attempt. Any other delta is a non-bootstrap load with the fixed retry budget. |
| LoadManager.Published | sdk/src/main/java/com/capitalone/identity/platform/loading/PolicyLoadManager.java:186-227 | Each operation result is published as one operation event, in order. |
| LoadManager.CollectFailures | sdk/src/main/java/com/capitalone/identity/platform/loading/PolicyLoadManager.java:141-144 | Failures are collected by location prefix. Collection succeeds exactly when no prefix fails twice, and the map then holds exactly the failed prefixes with their errors. Otherwise it throws a duplicate-key error naming a repeated prefix. |
| LoadManager.ConsolidateLoadErrors | sdk/src/main/java/com/capitalone/identity/platform/loading/PolicyLoadManager.java:140-154 | Consolidation gives no error map when nothing failed and a non-empty map when something did. It throws exactly when a prefix fails twice. |
| LoadManager.RunBatchPrefix | sdk/src/main/java/com/capitalone/identity/platform/loading/PolicyLoadManager.java:96-104 | The batch run is the step-by-step fold of the deltas in order. |
| LoadManager.BatchFailsIffSomeDeltaFailed | sdk/src/main/java/com/capitalone/identity/platform/loading/PolicyLoadManager.java:96-113 | Without duplicate failure prefixes, every delta is applied. The batch then collects an aggregated error exactly when some delta had a failure. |
| LoadManager.StepWithoutDuplicates | sdk/src/main/java/com/capitalone/identity/platform/loading/PolicyLoadManager.java:99-103 | One clean step never throws, and it adds an aggregate exactly when the delta had a failure. |
| LoadManager.CleanBatchSucceeds | sdk/src/main/java/com/capitalone/identity/platform/loading/PolicyLoadManager.java:105-106 | A batch without failures passes its deltas through unchanged. |
| LoadManager.RunBatchStopsAtThrow | sdk/src/main/java/com/capitalone/identity/platform/loading/PolicyLoadManager.java:96-104 | Once a consolidation throws, the later deltas change nothing. |
| LoadManager.LenientStartupToleratesFailures | sdk/src/main/java/com/capitalone/identity/platform/loading/PolicyLoadManager.java:80-88 | Lenient start-up completes despite entity failures with distinct prefixes. |
| LoadManager.StrictStartupFailsOnAnyFailure | sdk/src/main/java/com/capitalone/identity/platform/loading/PolicyLoadManager.java:85-88 | Strict start-up completes exactly when no bootstrap load failed. |
| LoadManager.SharedPrefixChainThrows | sdk/src/main/java/com/capitalone/identity/platform/loading/PolicyLoadManager.java:80-85 | If an entity and its prior version share a prefix and both fail, start-up throws even in lenient mode. |
| LoadManager.PolicyLoadManager.constructor | sdk/src/main/java/com/capitalone/identity/platform/loading/PolicyLoadManager.java:64-74 | A new manager holds its collaborators and mode, is not initialised, not subscribed, and has published nothing. |
| LoadManager.PolicyLoadManager.TryLoadOnce | sdk/src/main/java/com/capitalone/identity/platform/loading/PolicyLoadManager.java:186-200 | The method's result is `LoadAttempt`'s, so a throw becomes a failure with the attempt's fields and a success reports the fetched entity. That result is published once. |
| LoadManager.PolicyLoadManager.TryDeleteEntity | sdk/src/main/java/com/capitalone/identity/platform/loading/PolicyLoadManager.java:202-211 | One unload attempt: it returns the attempt's result and publishes it. |
| LoadManager.PolicyLoadManager.TryLoadEntity | sdk/src/main/java/com/capitalone/identity/platform/loading/PolicyLoadManager.java:168-184 | The retry loop: it returns the attempts along the prior chain and publishes each of them. |
| LoadManager.PolicyLoadManager.ApplyDelta | sdk/src/main/java/com/capitalone/identity/platform/loading/PolicyLoadManager.java:156-166 | It applies one delta and publishes its results. |
| LoadManager.PolicyLoadManager.ProcessBatch | sdk/src/main/java/com/capitalone/identity/platform/loading/PolicyLoadManager.java:96-118 | The batch outcome is the fold over the deltas. A consolidation that throws is also published as a non-loading error. |
| LoadManager.PolicyLoadManager.Initialize | sdk/src/main/java/com/capitalone/identity/platform/loading/PolicyLoadManager.java:76-128 | A second call throws AlreadyInitialized and changes nothing. Otherwise it publishes the bootstrap results and follows the start-up outcome. It becomes initialised and subscribed exactly when nothing was thrown. |
| LoadManager.PolicyLoadManager.OnUpdatesTerminated | sdk/src/main/java/com/capitalone/identity/platform/loading/PolicyLoadManager.java:123 | Termination of the update stream is published as a non-loading error with no exception. |
| LoadManager.PolicyLoadManager.Stop | sdk/src/main/java/com/capitalone/identity/platform/loading/PolicyLoadManager.java:134-138 | A live subscription is disposed. An absent one stays absent. |
| LoadEvents.LoadOperationResult.Info | sdk/src/main/java/com/capitalone/identity/platform/loading/EntityLoadEvents.kt:34-41 | A loaded result exposes the loaded entity's info. The other results expose their own info. |
| LoadEvents.UnloadedWithDefaults | sdk/src/main/java/com/capitalone/identity/platform/loading/EntityLoadEvents.kt:44-49 | The short Unloaded constructor gives change type DELETE, not bootstrap. |
| Entities.PatchIdentifierInjective | decision-policy/src/main/java/com/capitalone/identity/platform/DecisionPolicyRuntimeContext.java:101-103 | Distinct logical versions have distinct patch identifiers. |
| Errors.PolicyNotFoundMessage | decision-policy/src/main/java/com/capitalone/identity/platform/DecisionPolicyRuntimeContext.java:203 | The "policy not found" message is the fixed prefix followed by the identifier. |
| PolicyErrors.FindId | sdk/src/main/java/com/capitalone/identity/platform/runtime/PolicyError.kt:12-19 | The search returns a constant with the given id from the searched range, or reports that none has it. |
| PolicyErrors.FromId | sdk/src/main/java/com/capitalone/identity/platform/runtime/PolicyError.kt:12-19 | The lookup by id returns a constant with that id, and returns nothing exactly when no constant has it. |
| PolicyErrors.FromIdOfId | sdk/src/main/java/com/capitalone/identity/platform/runtime/PolicyError.kt:12-19 | Looking a constant up by its own id returns that constant. |
| PolicyErrors.IdsDistinct | sdk/src/main/java/com/capitalone/identity/platform/runtime/PolicyError.kt:5-8 | The four error ids are pairwise distinct. |
| PolicyErrors.AllConstantsListed | sdk/src/main/java/com/capitalone/identity/platform/runtime/PolicyError.kt:3-8 | Every error constant appears in the list of values. |
| PolicyResults.PolicyResult.Status | sdk/src/main/java/com/capitalone/identity/platform/runtime/PolicyResult.kt:11-19 | The status is SUCCESS exactly for a success result. |
| PolicyResults.PolicyResult.Result | sdk/src/main/java/com/capitalone/identity/platform/runtime/PolicyResult.kt:11-19 | The value is present exactly for a success result, and is its value. |
| PolicyResults.PolicyResult.ErrorInfo | sdk/src/main/java/com/capitalone/identity/platform/runtime/PolicyResult.kt:11-19 | The error info is present exactly for a failure result, and is its info. |
| Strings.ParseInt | sdk/src/main/java/com/capitalone/identity/platform/versioning/PolicyVersionService.java:31 | Unsigned digits, `+` and digits, or `-` and digits parse to their value when it fits in 32 bits, and fail when it does not. Any other text fails: the empty text, a lone sign, a non-digit after the first character, or a first character that is neither a digit nor a sign. |
| Strings.ParseIntOfNatToString | sdk/src/main/java/com/capitalone/identity/platform/versioning/PolicyVersionService.java:31 | Parsing the decimal text of an in-range number gives the number back. |
| Strings.NatToStringInjective | sdk/src/main/java/com/capitalone/identity/platform/versioning/PolicyVersionService.java:47-49 | Distinct numbers have distinct decimal texts. |
| Strings.Join | decision-policy/src/main/java/com/capitalone/identity/platform/DecisionPolicyRuntimeContext.java:168 | Joining one key gives that key, and joining none gives the empty string. |
| Strings.JoinInjective | decision-policy/src/main/java/com/capitalone/identity/platform/DecisionPolicyRuntimeContext.java:168 | The comma-joined key list in the reserved-prefix message determines the keys: equally long lists of comma-free keys with the same text are the same list. |
| VersionIndex.Create | sdk/src/main/java/com/capitalone/identity/platform/versioning/PolicyDataObject.kt:16-24 | The key object copies the name, major, minor and patch of the version. |
| VersionIndex.CreateIdempotent | sdk/src/main/java/com/capitalone/identity/platform/versioning/PolicyDataObject.kt:9-32 | Copying a key object's own coordinates gives an equal key object, and the key object reads back as the version. |
| VersionIndex.CreateInjective | sdk/src/main/java/com/capitalone/identity/platform/versioning/PolicyDataObject.kt:9-14 | Two key objects are equal exactly when their versions are. |
| VersionIndex.KeyCollision | sdk/src/main/java/com/capitalone/identity/platform/versioning/PolicyVersionService.java:47-49 | Keys join name and version with no separator, so "a/b/c" major 11 and "a/b/c1" major 1 share a major key. |
| VersionIndex.LookupPut | sdk/src/main/java/com/capitalone/identity/platform/versioning/PolicyVersionService.java:43-51 | Registering a version adds its key object under exactly its three keys. |
| VersionIndex.LookupDrop | sdk/src/main/java/com/capitalone/identity/platform/versioning/PolicyVersionService.java:53-60 | Removing a version takes its key object out of every key. |
| VersionIndex.PutValid | sdk/src/main/java/com/capitalone/identity/platform/versioning/PolicyVersionService.java:43-51 | Registering keeps the two index maps consistent, with no empty key sets. |
| VersionIndex.DropValid | sdk/src/main/java/com/capitalone/identity/platform/versioning/PolicyVersionService.java:53-60 | Removing keeps the two index maps consistent, with no empty key sets. |
| VersionIndex.PutIdempotent | sdk/src/main/java/com/capitalone/identity/platform/versioning/PolicyVersionService.java:43-51 | Registering the same version with the same status twice is the same as once. |
| VersionIndex.PutLastWins | sdk/src/main/java/com/capitalone/identity/platform/versioning/PolicyVersionService.java:43-51 | Registering a version twice keeps only the later status. |
| VersionIndex.PutCommutes | sdk/src/main/java/com/capitalone/identity/platform/versioning/PolicyVersionService.java:43-51 | Registering two distinct versions in either order gives the same index. |
| VersionIndex.PutDropCommute | sdk/src/main/java/com/capitalone/identity/platform/versioning/PolicyVersionService.java:43-60 | Registering one version and removing a distinct one commute. |
| VersionIndex.DropUnregistered | sdk/src/main/java/com/capitalone/identity/platform/versioning/PolicyVersionService.java:53-60 | Removing a version that is not registered changes nothing. |
| VersionIndex.DropPutRestores | sdk/src/main/java/com/capitalone/identity/platform/versioning/PolicyVersionService.java:43-60 | Registering a new version and then removing it restores the index. |
| VersionIndex.MaxPatch | sdk/src/main/java/com/capitalone/identity/platform/versioning/PolicyVersionService.java:24 | The chosen key object has the highest patch of the set. |
| VersionIndex.MaxMinor | sdk/src/main/java/com/capitalone/identity/platform/versioning/PolicyVersionService.java:38 | The chosen key object has the highest minor of the set. |
| VersionIndex.ResolveExact | sdk/src/main/java/com/capitalone/identity/platform/versioning/PolicyVersionService.java:22-29 | An exact query answers the highest-patch key object when it is active or available, and nothing when it is disabled or the key is unknown. |
| VersionIndex.ResolveFloating | sdk/src/main/java/com/capitalone/identity/platform/versioning/PolicyVersionService.java:31-39 | A major-only query answers nothing exactly when no minor's top patch is active. Otherwise it answers an active top patch with the highest minor. |
| VersionIndex.Resolve | sdk/src/main/java/com/capitalone/identity/platform/versioning/PolicyVersionService.java:21-41 | A dotted version is an exact query. A number is a major-only query. Any other text is a number-format error. |
| VersionIndex.ResolveOnEmpty | sdk/src/main/java/com/capitalone/identity/platform/versioning/PolicyVersionService.java:21-41 | An empty index resolves every well-formed request to nothing. |
| VersionIndex.NonNumericMajorFails | sdk/src/main/java/com/capitalone/identity/platform/versioning/PolicyVersionService.java:31 | A non-numeric or empty major version is a number-format error. |
| VersionIndex.QueriesSelectOwnKeys | sdk/src/main/java/com/capitalone/identity/platform/versioning/PolicyVersionService.java:21-49 | The three version texts of a version query exactly its patch, minor and major keys. |
| VersionIndex.DisabledTopHidesExact | sdk/src/main/java/com/capitalone/identity/platform/versioning/PolicyVersionService.java:23-29 | A disabled highest patch hides the exact key, even when lower patches are active. |
| VersionIndex.AvailableTopAnswersExact | sdk/src/main/java/com/capitalone/identity/platform/versioning/PolicyVersionService.java:23-29 | An available highest patch answers the exact query. |
| VersionIndex.FloatingNeedsActive | sdk/src/main/java/com/capitalone/identity/platform/versioning/PolicyVersionService.java:37 | Without an active key object, a major-only query answers nothing. |
| VersionIndex.DisabledTopHidesGroup | sdk/src/main/java/com/capitalone/identity/platform/versioning/PolicyVersionService.java:32-37 | A disabled top patch removes its whole minor from major-only answers. |
| VersionIndex.PutThenExactPatch | sdk/src/main/java/com/capitalone/identity/platform/versioning/PolicyVersionService.java:21-51 | After registering a version, its full version answers it unless it was registered disabled. |
| VersionIndex.PutHigherMinorFloats | sdk/src/main/java/com/capitalone/identity/platform/versioning/PolicyVersionService.java:30-51 | Registering an active version with a new highest minor makes it the major-only answer. |
| VersionIndex.PutIsolated | sdk/src/main/java/com/capitalone/identity/platform/versioning/PolicyVersionService.java:43-51 | Registering a version leaves the answers for all other keys unchanged. |
| VersionIndex.DropIsolated | sdk/src/main/java/com/capitalone/identity/platform/versioning/PolicyVersionService.java:53-60 | Removing a version leaves the answers for all other keys unchanged. |
| VersionIndex.ResolvedIsRegistered | sdk/src/main/java/com/capitalone/identity/platform/versioning/PolicyVersionService.java:21-41 | Every answer is a registered key object, and an exact answer's name is a prefix of the requested key. |
| VersionIndex.PolicyVersionService.constructor | sdk/src/main/java/com/capitalone/identity/platform/versioning/PolicyVersionService.java:15-19 | A new service is empty and consistent. |
| VersionIndex.PolicyVersionService.Set | sdk/src/main/java/com/capitalone/identity/platform/versioning/PolicyVersionService.java:43-51 | `set` registers the version with its status and keeps the index consistent. |
| VersionIndex.PolicyVersionService.Remove | sdk/src/main/java/com/capitalone/identity/platform/versioning/PolicyVersionService.java:53-60 | `remove` removes the version and keeps the index consistent. |
| VersionIndex.PolicyVersionService.GetPolicyVersion | sdk/src/main/java/com/capitalone/identity/platform/versioning/PolicyVersionService.java:21-41 | `getPolicyVersion` is the resolution over the current index, and answers only registered key objects. |
| VersionListener.ReactValid | sdk/src/main/java/com/capitalone/identity/platform/versioning/PolicyVersionEventListener.java:16-25 | Reacting to any event keeps the index consistent. |
| VersionListener.LoadedThenUnloadedRestores | sdk/src/main/java/com/capitalone/identity/platform/versioning/PolicyVersionEventListener.java:16-25 | Loading a new policy and then unloading it restores the index. |
| VersionListener.LoadedTwiceIdempotent | sdk/src/main/java/com/capitalone/identity/platform/versioning/PolicyVersionEventListener.java:16-20 | A repeated load event changes nothing more. |
| VersionListener.PolicyVersionEventListener.constructor | sdk/src/main/java/com/capitalone/identity/platform/versioning/PolicyVersionEventListener.java:12-14 | The listener keeps the service it was given. |
| VersionListener.PolicyVersionEventListener.PublishEvent | sdk/src/main/java/com/capitalone/identity/platform/versioning/PolicyVersionEventListener.java:16-25 | A loaded policy is registered with its own activation status. An unloaded entity is removed. A loaded non-policy throws. Other events change nothing. |
| ConfigManagement.ConfigManagementService.constructor | config-management-policy/src/main/java/com/capitalone/identity/platform/ConfigManagementService.java:12 | A new service holds no configurations. |
| ConfigManagement.ConfigManagementService.SetPolicyConfiguration | config-management-policy/src/main/java/com/capitalone/identity/platform/ConfigManagementService.java:14-16 | A model is stored under its identifier, replacing any earlier one. A null model changes nothing. |
| ConfigManagement.ConfigManagementService.GetPolicyConfiguration | config-management-policy/src/main/java/com/capitalone/identity/platform/ConfigManagementService.java:18-20 | Lookup answers the stored model exactly when one is stored. |
| ConfigManagement.ConfigManagementService.DeletePolicyConfiguration | config-management-policy/src/main/java/com/capitalone/identity/platform/ConfigManagementService.java:22-24 | Deletion removes only that identifier and returns what was stored there. |
| Paths.LastSegment | decision-policy/src/main/java/com/capitalone/identity/platform/dmn/RuleDefinitionModelGroupFactory.java:28 | The last segment is a slash-free suffix that starts right after a slash, or at the start of the string. |
| Paths.LastSegmentAfterSlash | decision-policy/src/main/java/com/capitalone/identity/platform/dmn/RuleDefinitionModelGroupFactory.java:28 | The last segment of `dir/seg` is `seg`. |
| Paths.TrimTrailingSlashes | decision-policy/src/main/java/com/capitalone/identity/platform/dmn/RuleDefinitionModelGroupFactory.java:28 | The result is the longest prefix that does not end in a slash; everything cut was a slash. |
| Paths.CollapseSlashes | decision-policy/src/main/java/com/capitalone/identity/platform/dmn/RuleDefinitionModelGroupFactory.java:42 | The result has no double slash, is no longer than the input and keeps its first character. |
| Paths.CollapseSlashRun | decision-policy/src/main/java/com/capitalone/identity/platform/dmn/RuleDefinitionModelGroupFactory.java:42 | A run of any number of slashes anywhere collapses exactly as a single slash does. |
| Paths.CollapseSlashesNoop | decision-policy/src/main/java/com/capitalone/identity/platform/dmn/RuleDefinitionModelGroupFactory.java:42 | A string without a double slash is unchanged. |
| Paths.Trim | decision-policy/src/main/java/com/capitalone/identity/platform/dmn/RuleDefinitionModelGroupFactory.java:42 | The result starts and ends with a character above U+0020 and is no longer than the input. |
| Paths.TrimKeepsNoDoubleSlash | decision-policy/src/main/java/com/capitalone/identity/platform/dmn/RuleDefinitionModelGroupFactory.java:42 | Trimming introduces no double slash. |
| Paths.TrimStartCutsTrimmable | decision-policy/src/main/java/com/capitalone/identity/platform/dmn/RuleDefinitionModelGroupFactory.java:42 | Only characters up to U+0020 are cut from the start. |
| Paths.TrimEndCutsTrimmable | decision-policy/src/main/java/com/capitalone/identity/platform/dmn/RuleDefinitionModelGroupFactory.java:42 | Only characters up to U+0020 are cut from the end. |
| Paths.TrimInside | decision-policy/src/main/java/com/capitalone/identity/platform/dmn/RuleDefinitionModelGroupFactory.java:42 | The trimmed text is the infix of the input that starts after its leading trimmable characters. |
| Paths.TrimCutsOnlyTrimmable | decision-policy/src/main/java/com/capitalone/identity/platform/dmn/RuleDefinitionModelGroupFactory.java:42 | Every character cut before or after the kept infix is at most U+0020. |
| Paths.TrimNoop | decision-policy/src/main/java/com/capitalone/identity/platform/dmn/RuleDefinitionModelGroupFactory.java:42 | A string with no whitespace at either end is unchanged. |
| Paths.Tokens | decision-policy/src/main/java/com/capitalone/identity/platform/dmn/DecisionPolicyRuntimeLoadService.java:94 | Every token is non-empty and slash-free. |
| Paths.TokensTrailingSlashes | decision-policy/src/main/java/com/capitalone/identity/platform/dmn/DecisionPolicyRuntimeLoadService.java:94 | Trailing slashes add no token. |
| Paths.TokensSlashRun | decision-policy/src/main/java/com/capitalone/identity/platform/dmn/DecisionPolicyRuntimeLoadService.java:94 | A run of one or more slashes followed by a non-empty slash-free segment adds exactly that token. |
| Paths.TokensOfJoin | decision-policy/src/main/java/com/capitalone/identity/platform/dmn/DecisionPolicyRuntimeLoadService.java:94 | Splitting a slash-joined list of non-empty slash-free tokens gives the list back. |
| Paths.TokensOfPair | decision-policy/src/main/java/com/capitalone/identity/platform/dmn/DecisionPolicyRuntimeLoadService.java:94-103 | `a/b` splits into exactly `a` and `b`. |
| RuleFactory.SanitizeIdentifier | decision-policy/src/main/java/com/capitalone/identity/platform/dmn/RuleDefinitionModelGroupFactory.java:42 | The runtime id has no double slash, no whitespace at either end, and is no longer than the identifier. |
| RuleFactory.SanitizeSlashRun | decision-policy/src/main/java/com/capitalone/identity/platform/dmn/RuleDefinitionModelGroupFactory.java:42 | A run of slashes in an identifier gives the same runtime id as a single slash. |
| RuleFactory.SanitizeKeepsCleanIdentifier | decision-policy/src/main/java/com/capitalone/identity/platform/dmn/RuleDefinitionModelGroupFactory.java:42-43 | A clean identifier is its own runtime id. |
| RuleFactory.SanitizeIdempotent | decision-policy/src/main/java/com/capitalone/identity/platform/dmn/RuleDefinitionModelGroupFactory.java:42 | Sanitising twice is the same as sanitising once. |
| RuleFactory.RuleShortName | decision-policy/src/main/java/com/capitalone/identity/platform/dmn/RuleDefinitionModelGroupFactory.java:57-60 | The short name is a non-empty, slash-free proper suffix of the rule's path. |
| RuleFactory.RuleShortNameOf | decision-policy/src/main/java/com/capitalone/identity/platform/dmn/RuleDefinitionModelGroupFactory.java:26-28 | A file directly under a `rules` directory has its file name as short name. |
| RuleFactory.RuleShortNameDecomposes | decision-policy/src/main/java/com/capitalone/identity/platform/dmn/RuleDefinitionModelGroupFactory.java:26-28 | Every path with a short name is a prefix, `rules`, one or more slashes, then that short name. |
| RuleFactory.RuleFileShortName | decision-policy/src/main/java/com/capitalone/identity/platform/dmn/RuleDefinitionModelGroupFactory.java:27 | `rules/a.dmn` has the short name `a.dmn`. |
| RuleFactory.DirectoryHasNoShortName | decision-policy/src/main/java/com/capitalone/identity/platform/dmn/RuleDefinitionModelGroupFactory.java:28 | A path ending in a slash has no short name. |
| RuleFactory.FileOutsideRulesHasNoShortName | decision-policy/src/main/java/com/capitalone/identity/platform/dmn/DecisionRegexUtil.java:8-15 | A file that is not under a `rules` directory has no short name. |
| RuleFactory.CreateModels | decision-policy/src/main/java/com/capitalone/identity/platform/dmn/RuleDefinitionModelGroupFactory.java:44-46 | The model list succeeds exactly when every item has a short name, and then maps each item to its short name and content in order. Otherwise it names an item without one. |
| RuleFactory.Create | decision-policy/src/main/java/com/capitalone/identity/platform/dmn/RuleDefinitionModelGroupFactory.java:40-48 | A group carries the identifier, its sanitised runtime id and the models. Otherwise it fails with a missing-rule-directory error. |
| RuleFactory.ShortNames | decision-policy/src/main/java/com/capitalone/identity/platform/dmn/LoadRuleException.java:13-15 | The rule names reported in a load failure are the short names of the models, in order. |
| RuleFactory.ConvertItemsToMap | decision-policy/src/main/java/com/capitalone/identity/platform/dmn/RuleDefinitionModelGroupFactory.java:62-64 | Items become a name-to-content map exactly when their names are distinct. Otherwise it throws a duplicate-key error naming a repeated name. |
| RuntimeLoadService.DmnContentMap | decision-policy/src/main/java/com/capitalone/identity/platform/dmn/DecisionPolicyRuntimeLoadService.java:37-39 | The content map has exactly the models' short names as keys, each mapped to a model's content. |
| RuntimeLoadService.CreateDecisionPolicyInfo | decision-policy/src/main/java/com/capitalone/identity/platform/dmn/DecisionPolicyRuntimeLoadService.java:91-104 | A runtime id yields a policy name and version exactly when it has two path tokens, both non-empty and slash-free. |
| RuntimeLoadService.PolicyInfoOfNameAndVersion | decision-policy/src/main/java/com/capitalone/identity/platform/dmn/DecisionPolicyRuntimeLoadService.java:94-103 | `name/version` yields that name and version. |
| RuntimeLoadService.NoPolicyInfoForNestedPath | decision-policy/src/main/java/com/capitalone/identity/platform/dmn/DecisionPolicyRuntimeLoadService.java:95-99 | A path with more than two tokens yields nothing. |
| RuntimeLoadService.LoadRequest | decision-policy/src/main/java/com/capitalone/identity/platform/dmn/DecisionPolicyRuntimeLoadService.java:42-48 | The engine request carries the runtime id, the short-name-to-content map of the group's models, the policy info parsed from the runtime id, and the identifier as its only supplemental attribute. |
| RuntimeLoadService.LoadFailure | decision-policy/src/main/java/com/capitalone/identity/platform/dmn/DecisionPolicyRuntimeLoadService.java:49-54 | Only a successful status is not a failure. A failure names the runtime id and the rule short names, and carries a cause exactly when the engine threw. |
| RuntimeLoadService.Bind | decision-policy/src/main/java/com/capitalone/identity/platform/dmn/DecisionPolicyRuntimeLoadService.java:71-79 | Claiming a runtime id fails exactly when it is bound to another identifier. Otherwise it binds it and keeps every other binding. |
| RuntimeLoadService.BindingIsPermanent | decision-policy/src/main/java/com/capitalone/identity/platform/dmn/DecisionPolicyRuntimeLoadService.java:71-79 | Once bound, a runtime id cannot be claimed by a different identifier, whatever was bound later. |
| RuntimeLoadService.DecisionPolicyRuntimeLoadService.constructor | decision-policy/src/main/java/com/capitalone/identity/platform/dmn/DecisionPolicyRuntimeLoadService.java:25-27 | A new service has no bindings and has made no engine calls. |
| RuntimeLoadService.DecisionPolicyRuntimeLoadService.LoadRulesIntoDecisionRuntime | decision-policy/src/main/java/com/capitalone/identity/platform/dmn/DecisionPolicyRuntimeLoadService.java:33-55 | A conflicting claim throws before the engine is called. Otherwise the binding is kept and the engine loads the request; a failed load is reported as a load-rule error. |
| RuntimeLoadService.DecisionPolicyRuntimeLoadService.RemoveDecisionRuntime | decision-policy/src/main/java/com/capitalone/identity/platform/dmn/DecisionPolicyRuntimeLoadService.java:57-59 | The engine removes the group's runtime id, and what it throws is passed on. |
| ConfigContext.LoadStep | config-management-policy/src/main/java/com/capitalone/identity/platform/ConfigPolicyRuntimeContext.java:46-59 | A policy's configuration model for the environment is registered under its patch identifier, and its info becomes the entity's latest. Every other patch and entity id keeps its entry, so an earlier patch is not cleaned up. A policy without a model changes nothing. Other entity kinds throw. |
| ConfigContext.UnloadStep | config-management-policy/src/main/java/com/capitalone/identity/platform/ConfigPolicyRuntimeContext.java:65-73 | A registered patch is dropped from both maps and its entity id is forgotten. Every other patch and entity id keeps its entry. An unknown patch changes nothing. |
| ConfigContext.LoadNewerKeepsOlderConfiguration | config-management-policy/src/main/java/com/capitalone/identity/platform/ConfigPolicyRuntimeContext.java:46-59 | After a newer patch of an entity is loaded, invoking the older patch answers as before, and the entity's latest is the newer patch. |
| ConfigContext.LoadValid | config-management-policy/src/main/java/com/capitalone/identity/platform/ConfigPolicyRuntimeContext.java:46-59 | Loading keeps the context's two maps in step. |
| ConfigContext.UnloadValid | config-management-policy/src/main/java/com/capitalone/identity/platform/ConfigPolicyRuntimeContext.java:65-73 | Unloading keeps the context's two maps in step. |
| ConfigContext.LoadedEntities | config-management-policy/src/main/java/com/capitalone/identity/platform/ConfigPolicyRuntimeContext.java:75-78 | The loaded entities are exactly the latest info of each entity id. |
| ConfigContext.InvokeOn | config-management-policy/src/main/java/com/capitalone/identity/platform/ConfigPolicyRuntimeContext.java:80-95 | An invocation succeeds exactly when the patch has a model whose match for the event is a non-empty map, and then answers it. Otherwise it reports the missing-configuration error. |
| ConfigContext.LoadThenInvoke | config-management-policy/src/main/java/com/capitalone/identity/platform/ConfigPolicyRuntimeContext.java:46-95 | After loading a model, invocation succeeds exactly when that model matches the event with a non-empty map. |
| ConfigContext.UnloadThenInvokeFails | config-management-policy/src/main/java/com/capitalone/identity/platform/ConfigPolicyRuntimeContext.java:65-95 | After unloading a patch, invoking it reports the missing configuration. |
| ConfigContext.UnloadOlderPatchForgetsNewer | config-management-policy/src/main/java/com/capitalone/identity/platform/ConfigPolicyRuntimeContext.java:65-73 | When a newer patch of an entity is loaded, unloading the older patch forgets the newer one as loaded, while its configuration stays registered. |
| ConfigContext.ConfigPolicyRuntimeContext.constructor | config-management-policy/src/main/java/com/capitalone/identity/platform/ConfigPolicyRuntimeContext.java:41-44 | A new context is empty and owns a fresh configuration service. |
| ConfigContext.ConfigPolicyRuntimeContext.Load | config-management-policy/src/main/java/com/capitalone/identity/platform/ConfigPolicyRuntimeContext.java:46-59 | `load` performs the load step and keeps the maps in step. |
| ConfigContext.ConfigPolicyRuntimeContext.Unload | config-management-policy/src/main/java/com/capitalone/identity/platform/ConfigPolicyRuntimeContext.java:65-73 | `unload` performs the unload step and keeps the maps in step. |
| ConfigContext.ConfigPolicyRuntimeContext.GetLoadedEntities | config-management-policy/src/main/java/com/capitalone/identity/platform/ConfigPolicyRuntimeContext.java:75-78 | The loaded entities of the current state. |
| ConfigContext.ConfigPolicyRuntimeContext.Invoke | config-management-policy/src/main/java/com/capitalone/identity/platform/ConfigPolicyRuntimeContext.java:80-95 | `invoke` is the invocation over the current state. |
| DecisionContext.UnloadStep | decision-policy/src/main/java/com/capitalone/identity/platform/DecisionPolicyRuntimeContext.java:148-158 | The patch's rule group is dropped. Its engine runtime is removed, and a throw there ends the unload. Otherwise the patch's configuration alone is dropped, and the entity id is forgotten only when it maps to this very info; every other entity id keeps its latest info. The engine calls record the single removal. Bindings stay. |
| DecisionContext.BuildGroup | decision-policy/src/main/java/com/capitalone/identity/platform/DecisionPolicyRuntimeContext.java:122-125 | The group builds exactly when the rule names are distinct and every rule has a short name. It carries the patch identifier and its sanitised runtime id. A repeated name fails with a duplicate-key error. |
| DecisionContext.LoadGroupStep | decision-policy/src/main/java/com/capitalone/identity/platform/DecisionPolicyRuntimeContext.java:127-129 | Filing succeeds exactly when the runtime id can be claimed and the engine loads it. It then files the group and makes the info the latest. On failure, groups and latest infos are unchanged. |
| DecisionContext.Configured | decision-policy/src/main/java/com/capitalone/identity/platform/DecisionPolicyRuntimeContext.java:118-120 | The environment's configuration model, if any, is registered under the patch identifier; rule groups, latest infos, bindings and engine calls are unchanged. |
| DecisionContext.LoadStep | decision-policy/src/main/java/com/capitalone/identity/platform/DecisionPolicyRuntimeContext.java:110-146 | Reloading the latest info changes nothing, and other entity kinds throw. A new policy load throws exactly when building or loading its rule group throws, so a throw from unloading the previous patch is swallowed. A load that throws records no latest info. The configuration model for the environment is registered whether or not the rules load. A successful load makes the info the latest, files its rule group and drops the entity's previous patch. Bindings are never removed. |
| DecisionContext.LoadStepFrame | decision-policy/src/main/java/com/capitalone/identity/platform/DecisionPolicyRuntimeContext.java:110-146 | On a successful new policy load the latest infos are the old ones with this entity's updated, the bindings gain the group's runtime id, the rule groups are the old ones plus this patch minus the entity's previous patch, and the engine calls are the rules load followed by at most one removal. The configurations gain this patch's model for the environment and lose the previous patch's unless removing its engine runtime threw. Every other entity id and patch stays as it was. |
| DecisionContext.FailedLoadFrame | decision-policy/src/main/java/com/capitalone/identity/platform/DecisionPolicyRuntimeContext.java:118-127 | A policy load that throws files no rule group and records no latest info; its only change to the configurations is registering its own model. |
| DecisionContext.LoadReplacesOnlyOwnEntity | decision-policy/src/main/java/com/capitalone/identity/platform/DecisionPolicyRuntimeContext.java:128-140 | After a successful new policy load the loaded entities are those of other entity ids plus the new info, so versions of distinct entities coexist. |
| DecisionContext.UnloadValid | decision-policy/src/main/java/com/capitalone/identity/platform/DecisionPolicyRuntimeContext.java:148-158 | Unloading keeps every group filed under its identifier and its owned runtime id. |
| DecisionContext.LoadGroupValid | decision-policy/src/main/java/com/capitalone/identity/platform/DecisionPolicyRuntimeContext.java:122-129 | Filing a group with its sanitised runtime id keeps the invariant. |
| DecisionContext.LoadValid | decision-policy/src/main/java/com/capitalone/identity/platform/DecisionPolicyRuntimeContext.java:110-146 | Loading keeps the invariant, whether it succeeds or throws. |
| DecisionContext.LoadIdempotent | decision-policy/src/main/java/com/capitalone/identity/platform/DecisionPolicyRuntimeContext.java:114-116 | Loading the same policy twice is the same as loading it once. |
| DecisionContext.FailedLoadKeepsConfiguration | decision-policy/src/main/java/com/capitalone/identity/platform/DecisionPolicyRuntimeContext.java:118-127 | A load that throws after registering the configuration model leaves that model registered. |
| DecisionContext.DuplicateRuleNamesFailLoad | decision-policy/src/main/java/com/capitalone/identity/platform/DecisionPolicyRuntimeContext.java:122-125 | A policy with two rule files of the same name fails to load with a duplicate-key error. |
| DecisionContext.PrefixedEntries | decision-policy/src/main/java/com/capitalone/identity/platform/DecisionPolicyRuntimeContext.java:191-193 | Each configuration entry appears under its prefixed key, and nothing else does. |
| DecisionContext.WithConfigEntries | decision-policy/src/main/java/com/capitalone/identity/platform/DecisionPolicyRuntimeContext.java:174-193 | The argument holds every configuration entry under its prefixed key. It keeps every body entry when no body key is reserved, and holds nothing else. |
| DecisionContext.InvokeOn | decision-policy/src/main/java/com/capitalone/identity/platform/DecisionPolicyRuntimeContext.java:160-227 | For a request whose key order lists each body key once, a reserved key in the body is rejected with the keys listed. An unmatched configuration is a missing-configuration error. An unloaded patch throws "policy not found". A missing decision file gives an error naming the file. Otherwise the engine evaluates the merged argument under the patch identifier: a SUCCESS status gives its result map, any other status the "Decision execution error." result, and a throw the "Decision invocation error." result. |
| DecisionContext.KeyOrderCoversBody | decision-policy/src/main/java/com/capitalone/identity/platform/DecisionPolicyRuntimeContext.java:164-168 | A key order that lists each body key once has exactly the body's keys, as many as the body has. |
| DecisionContext.UnloadedPolicyIsNotFound | decision-policy/src/main/java/com/capitalone/identity/platform/DecisionPolicyRuntimeContext.java:148-203 | After a clean unload, invoking that version throws "policy not found". |
| DecisionContext.LoadedPolicyIsFound | decision-policy/src/main/java/com/capitalone/identity/platform/DecisionPolicyRuntimeContext.java:110-203 | After a successful load, invoking that version never throws. |
| DecisionContext.MergeConfiguration | decision-policy/src/main/java/com/capitalone/identity/platform/DecisionPolicyRuntimeContext.java:174-193 | The merge loop builds exactly the body with every configuration entry added under the prefix. |
| DecisionContext.WithConfigStep | decision-policy/src/main/java/com/capitalone/identity/platform/DecisionPolicyRuntimeContext.java:191-193 | Adding one more configuration entry is one more prefixed map update. |
| DecisionContext.MergeStep | decision-policy/src/main/java/com/capitalone/identity/platform/DecisionPolicyRuntimeContext.java:191-193 | One loop step preserves the merge invariant. |
| DecisionContext.DecisionPolicyRuntimeContext.constructor | decision-policy/src/main/java/com/capitalone/identity/platform/DecisionPolicyRuntimeContext.java:93-99 | A new context is empty, consistent and owns a fresh configuration service. |
| DecisionContext.DecisionPolicyRuntimeContext.GetLoadedEntities | decision-policy/src/main/java/com/capitalone/identity/platform/DecisionPolicyRuntimeContext.java:105-108 | The loaded entities are exactly the latest info of each entity id. |
| DecisionContext.DecisionPolicyRuntimeContext.Unload | decision-policy/src/main/java/com/capitalone/identity/platform/DecisionPolicyRuntimeContext.java:148-158 | `unload` performs the unload step and keeps the invariant. |
| DecisionContext.DecisionPolicyRuntimeContext.LoadGroup | decision-policy/src/main/java/com/capitalone/identity/platform/DecisionPolicyRuntimeContext.java:127-129 | Loading a group performs the filing step. |
| DecisionContext.DecisionPolicyRuntimeContext.Load | decision-policy/src/main/java/com/capitalone/identity/platform/DecisionPolicyRuntimeContext.java:110-146 | `load` performs the load step and keeps the invariant. |
| DecisionContext.DecisionPolicyRuntimeContext.Invoke | decision-policy/src/main/java/com/capitalone/identity/platform/DecisionPolicyRuntimeContext.java:160-227 | `invoke` is the invocation over the current state. |
| Invoker.PolicyInvoker.Invoke | sdk/src/main/java/com/capitalone/identity/platform/runtime/PolicyInvoker.java:27-40 | A number-format error propagates. An unresolved version gets the missing-policy response for the request as given. A resolved version runs the context on exactly that version, and what the context throws propagates. Otherwise the success or error response carries the resolved request info and the result. |
| Invoker.ResponseKinds | sdk/src/main/java/com/capitalone/identity/platform/runtime/PolicyInvoker.java:29-38 | The missing-policy response means the version did not resolve. A success response means the context returned a success. |
| Invoker.UnresolvedIgnoresContext | sdk/src/main/java/com/capitalone/identity/platform/runtime/PolicyInvoker.java:28-30 | An unresolved version never consults the context. |
| Invoker.ResolvedUsesOnlyThatVersion | sdk/src/main/java/com/capitalone/identity/platform/runtime/PolicyInvoker.java:32-33 | Only the context's answer for the resolved version matters. |
| Invoker.ServiceLookup | sdk/src/main/java/com/capitalone/identity/platform/runtime/PolicyInvoker.java:28 | The lookup succeeds, and answers nothing, exactly when the version service's resolution does. |
| Invoker.EmptyIndexAnswersMissing | sdk/src/main/java/com/capitalone/identity/platform/runtime/PolicyInvoker.java:28-30 | Before any registration, every well-formed request gets the missing-policy response. |
| Invoker.NonNumericVersionPropagates | sdk/src/main/java/com/capitalone/identity/platform/runtime/PolicyInvoker.java:28 | A non-numeric version propagates the number-format error. |
| Invoker.ConfigRuntime | sdk/src/main/java/com/capitalone/identity/platform/runtime/PolicyInvoker.java:33 | The configuration context never throws into the invoker. |
| Invoker.UnloadedConfigGetsErrorResponse | sdk/src/main/java/com/capitalone/identity/platform/runtime/PolicyInvoker.java:32-37 | A version resolving to an unloaded configuration patch gets the error response with the missing-configuration error and that patch's request info. |
| AggregateListener.Fanout | sdk/src/main/java/com/capitalone/identity/platform/loading/AggregateEntityLoadListener.java:16-24 | Every listener, in array order, receives the event once, and each delivery records what that listener threw. |
| AggregateListener.ThrowDoesNotStopLater | sdk/src/main/java/com/capitalone/identity/platform/loading/AggregateEntityLoadListener.java:18-22 | A listener that throws does not keep later listeners from receiving the event. |
| AggregateListener.EventKindsForwardedAlike | sdk/src/main/java/com/capitalone/identity/platform/loading/AggregateEntityLoadListener.java:26-44 | All event kinds reach the same listeners in the same order. |
| AggregateListener.FanoutAppend | sdk/src/main/java/com/capitalone/identity/platform/loading/AggregateEntityLoadListener.java:16-24 | Fanning out over two arrays joined is fanning out over each, the second shifted. |
| AggregateListener.VersionListenerOf | sdk/src/main/java/com/capitalone/identity/platform/versioning/PolicyVersionEventListener.java:16-25 | The version listener in the array throws exactly what its reaction throws. |
| AggregateListener.NonPolicyLoadStillReachesNext | sdk/src/main/java/com/capitalone/identity/platform/loading/AggregateEntityLoadListener.java:16-24 | A non-policy load makes the version listener throw, and the next listener still receives the event. |
| AggregateListener.AggregateEntityLoadListener.constructor | sdk/src/main/java/com/capitalone/identity/platform/loading/AggregateEntityLoadListener.java:12-14 | The listener array is the one given, and nothing has been delivered. |
| AggregateListener.AggregateEntityLoadListener.PublishEvent | sdk/src/main/java/com/capitalone/identity/platform/loading/AggregateEntityLoadListener.java:16-44 | `publishEvent` delivers the event to every listener in order and never throws. |

## Left out

- The reactive pipeline is not modelled: the streaming flux, retry with back-off, and the scheduling of subscriptions. The subscription is a three-valued state, and a batch of deltas is a parameter.
- LoadManager.PolicyLoadManager.Initialize: the store listing at start-up is one answer, either a whole list or an error. The source streams it, so an error part-way through the listing arrives after the earlier entities were already loaded and published. The model does not capture that partial start-up.
- The collaborator oracles do not depend on history: `getEntity`, `load` and `unload` give the same answer for the same argument on every call.
- Thread safety (`synchronized`), timing metadata on results, clocks and logging are not modelled.
- The store client, the load target, the decision engine, the configuration-matching library and the host's response handler are oracles given as parameters:
  - their behaviour is whatever the parameter returns;
  - the decision engine's `evaluate` does not depend on which runtimes it holds;
  - the listeners in the aggregate array are modelled only by what they throw, not by their own state changes.
- Hash-map iteration order is modelled as the order of the store listing and of the rule items. The order of a request's body keys, used in the reserved-prefix message, is an explicit `keyOrder` field. `DecisionContext.ListsBodyKeys` requires it to list each body key exactly once, as the key set's iteration does.
- The message texts of aggregated load errors are not modelled. The errors carry their per-prefix maps instead.
- The `NumberFormatException` message text is replaced by a `NumberFormat` error carrying the version text.
- The unused runtime-id pattern constant of the rule factory is not modelled.
- The regular-expression engine behind the rule path pattern is replaced by a function over path segments.
- The deprecated and default constructors are not modelled; only the full constructors are.
- Exceptions thrown by the listener the load manager publishes to are not modelled. Publishing is assumed never to fail.
- When the decision context loads an entity with no previous version, the clean-up unload runs on a null info and its exception is swallowed. The model records no effect for it.
- The invoker's generic response type is replaced by a `Response` datatype recording which handler method is called with which arguments.
- RuntimeLoadService.DecisionPolicyRuntimeLoadService.Evaluate: forwards to the engine and has no contract of its own.
- Strings.ParseInt: only the ASCII digits `0` to `9` are digits. `Integer.parseInt` also accepts other Unicode decimal digits, such as Arabic-Indic digits.
- Versions are unbounded naturals. The 32-bit limit appears only where version texts are parsed.
