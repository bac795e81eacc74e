/**
 The one decision rule of `src/DAL/BackendDAL.ts`:
 `sendServerRequestAndSetErrorsIfNeeded`, which turns the response of a
 backend request into the value handed back to the caller and, for a
 validation failure, a call of the caller's `setErrors` callback.
 */
module BackendDAL {
  import opened Wrappers

  /** An HTTP response: its status code and its body (the requested data or validation errors). */
  datatype Response<D> = Response(status: int, data: D)

  /**
   What the caller observes: the value the promise resolves to (`None` for
   `null`) and the arguments of every `setErrors` call, in order.
   */
  datatype RequestOutcome<D> = RequestOutcome(returned: Option<D>, setErrorsCalls: seq<D>)

  /** The statuses whose body is handed back as the requested data. */
  const SuccessStatuses: set<int> := {200, 201}

  /** The status of a request the backend rejected with validation errors. */
  const ValidationErrorStatus: int := 400

  /**
   `sendServerRequestAndSetErrorsIfNeeded`, given what the request function
   resolved to (`None` for a missing response). A 400 response passes its
   body to `setErrors` and yields `null`; a 200 or 201 response yields its
   body; anything else yields `null`.
   */
  function SendServerRequestAndSetErrorsIfNeeded<D>(response: Option<Response<D>>): (outcome: RequestOutcome<D>)
    ensures |outcome.setErrorsCalls| <= 1
    ensures outcome.setErrorsCalls != [] <==> response.Some? && response.value.status == ValidationErrorStatus
    ensures outcome.setErrorsCalls != [] ==> outcome.setErrorsCalls == [response.value.data]
    ensures outcome.returned.Some? <==> response.Some? && response.value.status in SuccessStatuses
    ensures outcome.returned.Some? ==> outcome.returned.value == response.value.data
    ensures !(outcome.returned.Some? && outcome.setErrorsCalls != [])
  {
    match response
    case None => RequestOutcome(None, [])
    case Some(r) =>
      if r.status == ValidationErrorStatus then RequestOutcome(None, [r.data])
      else if r.status !in SuccessStatuses then RequestOutcome(None, [])
      else RequestOutcome(Some(r.data), [])
  }

  /** A missing response yields `null` and leaves the errors alone. */
  lemma MissingResponseIsNull<D>()
    ensures SendServerRequestAndSetErrorsIfNeeded<D>(None) == RequestOutcome(None, [])
  {
  }

  /**
   Every status other than 200, 201 and 400 (a 204, a redirect, a 404, a 500)
   yields `null` without reporting errors, whatever the body.
   */
  lemma OtherStatusIsNull<D>(status: int, data: D)
    requires status !in SuccessStatuses && status != ValidationErrorStatus
    ensures SendServerRequestAndSetErrorsIfNeeded(Some(Response(status, data))) == RequestOutcome(None, [])
  {
  }
}
