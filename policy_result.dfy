/** The outcome of one policy invocation: a result or an error info, never both. */
module PolicyResults {
  import opened Wrappers
  import opened PolicyErrors

  datatype PolicyResultStatus = SUCCESS | FAILURE

  datatype PolicyResult<R> = Success(value: R) | Failure(info: PolicyErrorInfo) {
    function Status(): (s: PolicyResultStatus)
      ensures s == SUCCESS <==> Success?
    {
      if Success? then SUCCESS else FAILURE
    }

    /** `getResult()`: null on a failure. */
    function Result(): (r: Option<R>)
      ensures r.Some? <==> Success?
      ensures Success? ==> r == Some(value)
    {
      if Success? then Some(value) else None
    }

    /** `getErrorInfo()`: null on a success, always present on a failure. */
    function ErrorInfo(): (e: Option<PolicyErrorInfo>)
      ensures e.None? <==> Success?
      ensures Failure? ==> e == Some(info)
    {
      if Failure? then Some(info) else None
    }
  }
}
