/** StatusPoller: the reply of `get_task_status` and how the stream loop
    reads it. The HTTP request itself is not modelled; a reply is an input. */
module StatusPoller {
  import opened Wrappers

  /** The fields of the status JSON the front end reads; a missing key is `None`. */
  datatype TaskStatus = TaskStatus(status: Option<string>, result: Option<string>, message: Option<string>)

  /** What `get_task_status` returns when the request or the JSON decoding
      fails: a reply carrying the failure text that neither copy of the loop
      stops on. */
  function ErrorStatus(message: string): (s: TaskStatus)
    ensures s.status == Some("error") && s.result == None && s.message == Some(message)
    ensures forall h :: Disposition(s, h) == KeepRunning
  {
    TaskStatus(Some("error"), None, Some(message))
  }

  const FailurePrefix: string := "任务执行失败: "
  const UnknownError: string := "未知错误"

  /** What one due poll tells the loop to do. */
  datatype Poll = Complete | Fail(message: string) | Terminate | KeepRunning

  /** The `if/elif` chain on `status.get("status")`. Only the newer loop has a
      `terminated` branch (`handlesTerminated`); in the older one that value,
      like every other one, keeps the loop running. */
  function Disposition(s: TaskStatus, handlesTerminated: bool): (p: Poll)
    ensures p == Complete <==> s.status == Some("completed")
    ensures p.Fail? <==> s.status == Some("failed")
    ensures p.Fail? ==> p.message == FailurePrefix + s.result.GetOr(UnknownError)
    ensures p == Terminate <==> handlesTerminated && s.status == Some("terminated")
    ensures p == KeepRunning <==> s.status !in {Some("completed"), Some("failed")}
                                  && !(handlesTerminated && s.status == Some("terminated"))
  {
    if s.status == Some("completed") then Complete
    else if s.status == Some("failed") then Fail(FailurePrefix + s.result.GetOr(UnknownError))
    else if handlesTerminated && s.status == Some("terminated") then Terminate
    else KeepRunning
  }

  /** A failed request never stops the stream: the loop polls again later. */
  lemma ErrorKeepsRunning(message: string, handlesTerminated: bool)
    ensures Disposition(ErrorStatus(message), handlesTerminated) == KeepRunning
  {
  }
}
