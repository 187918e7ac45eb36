/** What addFirmwareWithFile decides once its wait for the resource loader's callback
    has returned. The request, the callback and the lock handshake between them are
    not modelled; their combined effect is a `Fetch`. */
module ResourceFetch {
  import opened KernelTypes

  /** One OSKextRequestResource call as the manager observes it: `status` is what the
      request returned when it was issued; `delivered` holds the bytes the callback
      recorded when it reported kOSReturnSuccess, and is None when it reported an error
      (the descriptor in the callback context then stays zero). */
  datatype Fetch = Fetch(status: IOReturn, delivered: Option<seq<byte>>)

  /** The two ways addFirmwareWithFile goes on after the wait: return a status at once,
      or add the delivered bytes under the file name. */
  datatype PostWaitStep = ReturnStatus(code: IOReturn) | AddDelivered(data: seq<byte>)

  /** The decision as written: without data, or with zero bytes, it returns the status
      of the request itself. */
  function PostWaitAsWritten(f: Fetch): (step: PostWaitStep)
    ensures step.AddDelivered? <==> f.delivered.Some? && |f.delivered.value| > 0
    ensures step.AddDelivered? ==> step.data == f.delivered.value
    ensures step.ReturnStatus? ==> step.code == f.status
  {
    if f.delivered.None? || |f.delivered.value| == 0 then ReturnStatus(f.status)
    else AddDelivered(f.delivered.value)
  }

  /** A request that was issued successfully but whose callback reported an error (the
      file was not found, say) makes the decision as written report success while
      nothing is added. */
  lemma MissingFileReportsSuccess()
    ensures PostWaitAsWritten(Fetch(IOReturnSuccess, None)) == ReturnStatus(IOReturnSuccess)
  {
  }

  /** The decision with that case corrected: when no bytes arrived it still returns the
      request's own status when that is a failure, and kIOReturnError when the request
      had been issued successfully. It never reports success without adding. */
  function PostWait(f: Fetch): (step: PostWaitStep)
    ensures step.AddDelivered? <==> f.delivered.Some? && |f.delivered.value| > 0
    ensures step.AddDelivered? ==> step == PostWaitAsWritten(f)
    ensures step.ReturnStatus? ==> step.code != IOReturnSuccess
    ensures step.ReturnStatus? && f.status != IOReturnSuccess ==> step == PostWaitAsWritten(f)
  {
    if f.delivered.None? || |f.delivered.value| == 0 then
      ReturnStatus(if f.status == IOReturnSuccess then IOReturnError else f.status)
    else AddDelivered(f.delivered.value)
  }
}
