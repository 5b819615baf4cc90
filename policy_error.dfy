/** The invocation-time error codes and the error info attached to a failed invocation. */
module PolicyErrors {
  import opened Wrappers

  datatype PolicyError =
    | BAD_REQUEST_PARAMETER_RESERVED_PREFIX
    | BAD_REQUEST_MISSING_DMN_FILE
    | POLICY_EXECUTION_ERROR
    | BAD_REQUEST_MISSING_CONFIG
  {
    /** The numeric error code, as a string. */
    function Id(): string {
      match this
      case BAD_REQUEST_PARAMETER_RESERVED_PREFIX => "787400"
      case BAD_REQUEST_MISSING_DMN_FILE => "787401"
      case POLICY_EXECUTION_ERROR => "787200"
      case BAD_REQUEST_MISSING_CONFIG => "788401"
    }

    /** The user-facing text; every constant supplies its own, so the `text = id` default is unused. */
    function Text(): string {
      match this
      case BAD_REQUEST_PARAMETER_RESERVED_PREFIX => "Reserved parameter prefix used in request body key."
      case BAD_REQUEST_MISSING_DMN_FILE => "Requested dmn file not found."
      case POLICY_EXECUTION_ERROR => "Error during policy execution."
      case BAD_REQUEST_MISSING_CONFIG => "Requested config could not be found"
    }
  }

  /** `PolicyError.values()`, in declaration order. */
  const VALUES: seq<PolicyError> := [
    BAD_REQUEST_PARAMETER_RESERVED_PREFIX,
    BAD_REQUEST_MISSING_DMN_FILE,
    POLICY_EXECUTION_ERROR,
    BAD_REQUEST_MISSING_CONFIG
  ]

  /** The linear search of `fromId` over the constants from index `from` on. */
  function FindId(id: string, from: nat): (r: Option<PolicyError>)
    requires from <= |VALUES|
    ensures r.Some? ==> r.value.Id() == id
    ensures r.Some? ==> exists i :: from <= i < |VALUES| && VALUES[i] == r.value
    ensures r.None? ==> forall i :: from <= i < |VALUES| ==> VALUES[i].Id() != id
    decreases |VALUES| - from
  {
    if from == |VALUES| then None
    else if id == VALUES[from].Id() then Some(VALUES[from])
    else FindId(id, from + 1)
  }

  /** `PolicyError.fromId`: the constant with that id, or null. */
  function FromId(id: string): (r: Option<PolicyError>)
    ensures r.Some? ==> r.value.Id() == id
    ensures r.None? <==> forall e: PolicyError :: e.Id() != id
  {
    AllConstantsListed();
    FindId(id, 0)
  }

  lemma AllConstantsListed()
    ensures forall e: PolicyError :: e in VALUES
  {
    forall e: PolicyError ensures e in VALUES {
      match e
      case BAD_REQUEST_PARAMETER_RESERVED_PREFIX => assert VALUES[0] == e;
      case BAD_REQUEST_MISSING_DMN_FILE => assert VALUES[1] == e;
      case POLICY_EXECUTION_ERROR => assert VALUES[2] == e;
      case BAD_REQUEST_MISSING_CONFIG => assert VALUES[3] == e;
    }
  }

  /** The four ids are pairwise distinct. */
  lemma IdsDistinct(a: PolicyError, b: PolicyError)
    ensures a.Id() == b.Id() ==> a == b
  {
  }

  /** Looking a constant up by its own id gives the constant back. */
  lemma FromIdOfId(e: PolicyError)
    ensures FromId(e.Id()) == Some(e)
  {
    IdsDistinct(e, FromId(e.Id()).value);
  }

  /** Error details of a failed invocation; `id` and `text` come from the error. */
  datatype PolicyErrorInfo = PolicyErrorInfo(error: PolicyError, developerText: string) {
    function Id(): string { error.Id() }
    function Text(): string { error.Text() }
  }
}
