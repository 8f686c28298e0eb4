/**
 * The three polling endpoints (`batch_status`, `processing_status`,
 * `task_status`) map a task's state, as the result backend reports it, to a
 * JSON reply with a `status` of `SUCCESS`, `FAILURE` or `PENDING`.
 */
module Status {
  import opened Wrappers
  import opened Batch

  /** The reply's optional second field: its key and its value. */
  datatype Field<T> = Field(key: string, value: T)

  /** `{"status": status}` or `{"status": status, key: value}`. */
  datatype Reply<T> = Reply(status: string, field: Option<Field<T>>)

  /** Shared logic of the three endpoints. A result is exposed, under `key`,
      only in state `SUCCESS`; `FAILURE` is reported without a result; every
      other state (`PENDING`, `STARTED`, `RETRY`, ...) reads as `PENDING`. */
  function Poll<T>(state: string, key: string, result: T): (r: Reply<T>)
    ensures r.status == "SUCCESS" <==> state == "SUCCESS"
    ensures r.status == "FAILURE" <==> state == "FAILURE"
    ensures r.status == "PENDING" <==> state != "SUCCESS" && state != "FAILURE"
    ensures r.field.Some? <==> state == "SUCCESS"
    ensures r.field.Some? ==> r.field.value == Field(key, result)
  {
    if state == "SUCCESS" then Reply("SUCCESS", Some(Field(key, result)))
    else if state == "FAILURE" then Reply("FAILURE", None)
    else Reply("PENDING", None)
  }

  /** `batch_status`: the per-item entries under `results`. */
  function BatchStatus(state: string, entries: seq<Entry>): (r: Reply<seq<Entry>>)
    ensures r.field.Some? <==> state == "SUCCESS"
    ensures r.field.Some? ==> r.field.value == Field("results", entries)
  {
    Poll(state, "results", entries)
  }

  /** `processing_status`: the processed file's name under `result`. */
  function ProcessingStatus(state: string, outputFile: string): (r: Reply<string>)
    ensures r.field.Some? <==> state == "SUCCESS"
    ensures r.field.Some? ==> r.field.value == Field("result", outputFile)
  {
    Poll(state, "result", outputFile)
  }

  /** `task_status`: the synthesized file's name under `result`. */
  function TaskStatus(state: string, filename: string): (r: Reply<string>)
    ensures r.field.Some? <==> state == "SUCCESS"
    ensures r.field.Some? ==> r.field.value == Field("result", filename)
  {
    Poll(state, "result", filename)
  }

  /** The three endpoints agree on the status they report for a state, and
      that status is the one `Poll` assigns to the state. */
  lemma EndpointsAgree(state: string, entries: seq<Entry>, outputFile: string, filename: string)
    ensures BatchStatus(state, entries).status == ProcessingStatus(state, outputFile).status
    ensures ProcessingStatus(state, outputFile).status == TaskStatus(state, filename).status
    ensures TaskStatus(state, filename).status in {"SUCCESS", "FAILURE", "PENDING"}
    ensures TaskStatus(state, filename).status == "SUCCESS" <==> state == "SUCCESS"
    ensures TaskStatus(state, filename).status == "FAILURE" <==> state == "FAILURE"
    ensures TaskStatus(state, filename).status == "PENDING" <==> state != "SUCCESS" && state != "FAILURE"
  {
  }
}
