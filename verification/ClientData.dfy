/** `_ClientData`: the state of one datagram client and the datagrams waiting for its generator. */
module ClientData {
  import opened Options

  datatype ClientState = TaskPending | TaskRunning

  /**
   * The two fields that the tasks of a client share, and what the atomic pieces of code between two
   * `await`s do to them. `None` is an exception: the inconsistent state error, or `popleft` on an empty
   * queue.
   */
  datatype Record<D> = Record(state: Option<ClientState>, queue: seq<D>) {

    function Push(d: D): Record<D> {
      this.(queue := queue + [d])
    }

    function Pop(): Option<(D, Record<D>)> {
      if queue == [] then None else Some((queue[0], this.(queue := queue[1..])))
    }

    function MarkPending(): Option<Record<D>> {
      if state == None then Some(this.(state := Some(TaskPending))) else None
    }

    function MarkRunning(): Option<Record<D>> {
      if state == Some(TaskPending) then Some(this.(state := Some(TaskRunning))) else None
    }

    function MarkDone(): Option<Record<D>> {
      if state == Some(TaskRunning) then Some(this.(state := None)) else None
    }

    /** The start of `__client_coroutine`: up to the first `await` of its inner loop. */
    function StartCoroutine(): Option<(D, Record<D>)> {
      match MarkRunning()
      case None => None
      case Some(r) => r.Pop()
    }

    /** The end of `handler`, when the client has no task: the coroutine is awaited in place. */
    function StartInPlace(): Option<(D, Record<D>)> {
      match MarkPending()
      case None => None
      case Some(r) => r.StartCoroutine()
    }

    /** The end of `__client_coroutine`: done, and pending again if there are datagrams left. */
    function EndCoroutine(): Option<Record<D>> {
      match MarkDone()
      case None => None
      case Some(r) => if r.queue == [] then Some(r) else r.MarkPending()
    }
  }

  /** The object that the tasks of one address share. `ok` is false for the inconsistent state error. */
  class Client<D> {
    var state: Option<ClientState>
    var queue: seq<D>

    function Value(): Record<D>
      reads this
    {
      Record(state, queue)
    }

    constructor ()
      ensures Value() == Record(None, [])
    {
      state := None;
      queue := [];
    }

    /** The part of `push_datagram` before its `await`; tells whether the condition has to be notified. */
    method Push(d: D) returns (notify: bool)
      modifies this`queue
      ensures queue == old(queue) + [d] && (notify <==> state != None)
    {
      queue := queue + [d];
      notify := state != None;
    }

    /** `None` is the error of an empty queue. */
    method PopNoWait() returns (d: Option<D>)
      modifies this`queue
      ensures d == None ==> queue == old(queue) == []
      ensures d.Some? ==> old(queue) == [d.value] + queue
    {
      if queue == [] {
        return None;
      }
      d := Some(queue[0]);
      queue := queue[1..];
    }

    method MarkPending() returns (ok: bool)
      modifies this`state
      ensures ok <==> old(state) == None
      ensures state == if ok then Some(TaskPending) else old(state)
    {
      ok := state == None;
      if ok {
        state := Some(TaskPending);
      }
    }

    method MarkRunning() returns (ok: bool)
      modifies this`state
      ensures ok <==> old(state) == Some(TaskPending)
      ensures state == if ok then Some(TaskRunning) else old(state)
    {
      ok := state == Some(TaskPending);
      if ok {
        state := Some(TaskRunning);
      }
    }

    method MarkDone() returns (ok: bool)
      modifies this`state
      ensures ok <==> old(state) == Some(TaskRunning)
      ensures state == if ok then None else old(state)
    {
      ok := state == Some(TaskRunning);
      if ok {
        state := None;
      }
    }
  }
}
