/**
 * The entity model the runtime consumes: version coordinates, entity infos (identity of one
 * versioned artifact, with its prior-version back reference) and entities (an info plus content).
 */
module Entities {
  import opened Wrappers
  import opened Strings

  /** Activation status of a policy; governs eligibility during version resolution. */
  datatype ActivationStatus = ACTIVE | AVAILABLE | DISABLED

  /** The version coordinates of a versioned artifact: logical name plus major.minor.patch. */
  datatype LogicalVersion = LogicalVersion(name: string, major: nat, minor: nat, patch: nat) {
    /** "major.minor" */
    function MinorVersionString(): string { NatToString(major) + "." + NatToString(minor) }
    /** "major.minor.patch" */
    function PatchVersionString(): string { MinorVersionString() + "." + NatToString(patch) }
  }

  /** The unit of load/unload granularity: `name + "/" + major.minor.patch`. */
  function PatchIdentifier(v: LogicalVersion): string {
    v.name + "/" + v.PatchVersionString()
  }

  lemma VersionStringChars(v: LogicalVersion)
    ensures forall i :: 0 <= i < |v.PatchVersionString()| ==>
      IsDigit(v.PatchVersionString()[i]) || v.PatchVersionString()[i] == '.'
  {
  }

  /** Different logical versions never share a patch identifier. */
  lemma PatchIdentifierInjective(a: LogicalVersion, b: LogicalVersion)
    requires PatchIdentifier(a) == PatchIdentifier(b)
    ensures a == b
  {
    VersionStringChars(a);
    VersionStringChars(b);
    SplitAtLast(a.name, a.PatchVersionString(), b.name, b.PatchVersionString(), '/');
    SplitAtLast(a.MinorVersionString(), NatToString(a.patch), b.MinorVersionString(), NatToString(b.patch), '.');
    SplitAtLast(NatToString(a.major), NatToString(a.minor), NatToString(b.major), NatToString(b.minor), '.');
    NatToStringInjective(a.major, b.major);
    NatToStringInjective(a.minor, b.minor);
    NatToStringInjective(a.patch, b.patch);
  }

  /** One named document of an entity (a rule file, a configuration file, ...). */
  datatype ConfigStoreItem = ConfigStoreItem(name: string, content: string)

  /** A serialised argument or configuration value; the runtime never looks inside it. */
  type Value = string

  /** Parsed configuration of a policy; only the matching collaborator interprets it. */
  datatype ConfigModel = ConfigModel(documents: seq<ConfigStoreItem>)

  /**
   * Identity of one versioned artifact. `id` is the entity id the runtime contexts key their
   * "latest loaded" map by; `itemTags` stands for the item-level metadata that makes two infos
   * of the same version with different content unequal; `priorVersion` is the version to fall
   * back on when this one fails to load.
   */
  datatype EntityInfo = EntityInfo(
    id: string,
    version: LogicalVersion,
    locationPrefix: string,
    itemTags: set<string>,
    priorVersion: Option<EntityInfo>)

  /** An entity fetched from the store: a Policy, or any other kind the runtime rejects. */
  datatype Entity =
    | Policy(
        info: EntityInfo,
        activationStatus: ActivationStatus,
        configModels: map<Option<string>, ConfigModel>,
        ruleItems: seq<ConfigStoreItem>)
    | OtherKind(info: EntityInfo)
  {
    /** The configuration model for an environment label (None stands for a null label). */
    function ConfigManagementModelForEnv(env: Option<string>): Option<ConfigModel>
      requires Policy?
    {
      if env in configModels then Some(configModels[env]) else None
    }
  }
}
