/**
 * The LOG service task of src/mlog/main.c: `main`, which registers the task
 * name and enters the loop, and `Loop`, which receives a message, checks it
 * and dispatches it through the function table, over and over.
 *
 * The kernel is not part of this model. Each call of its receive is given as
 * the next element of a finite sequence of outcomes, and the loop runs once
 * per element instead of forever.
 */
module MlogMain {
  import opened MlogTypes
  import opened MlogDispatch

  /** What the receive call leaves in its out-parameters and buffer. */
  datatype Received = Received(ret: MkRet, srcTaskId: TaskId, err: MkErr, buf: Msg)

  /**
   * The kernel's receive, as seen by the loop. On success it writes the
   * sender and overwrites the buffer with the message, leaving `err` alone;
   * on failure it writes the error detail only.
   */
  function Receive(o: RecvOutcome, srcTaskId: TaskId, err: MkErr, buf: Msg): Received
  {
    match o
    case RecvFail(e) => Received(RetFailure, srcTaskId, e, buf)
    case RecvOk(src, msg) => Received(RetSuccess, src, err, msg)
  }

  /**
   * `Loop`, run for one iteration per element of `recv`. It returns the trace
   * of handler calls it made and the values `err` and `srcTaskId` hold at the
   * end of the last iteration. Those depend on that iteration's receive
   * alone, because every iteration first resets them to MK_ERR_NONE and
   * MK_TASKID_NULL. The table is only read.
   */
  method Loop(funcTbl: array<Handler>, recv: seq<RecvOutcome>) returns (trace: seq<Call>, err: MkErr, srcTaskId: TaskId)
    requires funcTbl.Length == FUNCID_NUM
    ensures trace == Dispatched(funcTbl[..], recv)
    ensures |recv| > 0 && recv[|recv| - 1].RecvFail? ==>
      err == recv[|recv| - 1].err && srcTaskId == TaskIdNull
    ensures |recv| > 0 && recv[|recv| - 1].RecvOk? ==>
      err == ErrNone && srcTaskId == recv[|recv| - 1].src
  {
    trace := [];
    err, srcTaskId := ErrNone, TaskIdNull;
    // The buffer's contents before the first receive are undefined. The model
    // never reads them, because every successful receive writes a whole header.
    var pMsgHdr := Msg(0, []);
    for i := 0 to |recv|
      invariant trace == Dispatched(funcTbl[..], recv[..i])
      invariant i > 0 && recv[i - 1].RecvFail? ==> err == recv[i - 1].err && srcTaskId == TaskIdNull
      invariant i > 0 && recv[i - 1].RecvOk? ==> err == ErrNone && srcTaskId == recv[i - 1].src
    {
      assert recv[..i + 1][..i] == recv[..i];
      err := ErrNone;
      srcTaskId := TaskIdNull;

      var received := Receive(recv[i], srcTaskId, err, pMsgHdr);
      var ret := received.ret;
      srcTaskId, err, pMsgHdr := received.srcTaskId, received.err, received.buf;

      if ret != RetSuccess {
        continue;
      }

      if pMsgHdr.funcId > FUNCID_MAX {
        continue;
      }

      trace := trace + [Call(funcTbl[pMsgHdr.funcId], srcTaskId, pMsgHdr)];
    }
    assert recv[..|recv|] == recv;
  }

  /**
   * `main`: builds the function table, registers the task name and enters
   * the loop. The registration result `regRet` does not change what happens
   * next: on failure the task only writes a console diagnostic and runs the
   * loop all the same.
   */
  method TaskMain(regRet: MkRet, recv: seq<RecvOutcome>) returns (trace: seq<Call>)
    ensures trace == Dispatched(FUNC_TBL, recv)
  {
    var funcTbl := new Handler[FUNCID_NUM] [PutDo];
    assert funcTbl[..] == FUNC_TBL;

    if regRet != RetSuccess {
      // The source only writes a console diagnostic here (its abort is a TODO);
      // console output is not part of this model, so the loop is entered anyway.
    }

    var lastErr, lastSrc;
    trace, lastErr, lastSrc := Loop(funcTbl, recv);
  }
}
