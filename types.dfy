/**
 * Types and constants the LOG service task shares with the kernel library
 * (libmk.h) and with its clients (mlog.h). Neither header is part of this
 * model; the values below are the ones the dispatch table in
 * src/mlog/main.c implies.
 */
module MlogTypes {

  /** The conventional optional value. */
  datatype Option<+T> = None | Some(value: T)

  /** A kernel task identifier; `TaskIdNull` stands for MK_TASKID_NULL. */
  datatype TaskId = TaskIdNull | Task(id: nat)

  /** A kernel error detail; `ErrNone` stands for MK_ERR_NONE. */
  datatype MkErr = ErrNone | Err(code: nat)

  /** A kernel return code: MK_RET_SUCCESS or any failure. */
  datatype MkRet = RetSuccess | RetFailure

  /** A byte of message payload. */
  type Byte = bv8

  /**
   * The content of the receive buffer: the header's function identifier
   * (an unsigned field, so never negative) and the bytes that follow it,
   * which only the handler interprets.
   */
  datatype Msg = Msg(funcId: nat, payload: seq<Byte>)

  /**
   * What one call of the kernel's blocking receive reports: a failure with
   * its error detail, or the sender of the message now in the buffer.
   */
  datatype RecvOutcome = RecvFail(err: MkErr) | RecvOk(src: TaskId, msg: Msg)

  /** MLOG_FUNCID_PUT: the identifier of the "put" (log write) function. */
  const FUNCID_PUT: nat := 0

  /** MLOG_FUNCID_NUM: the number of function identifiers, one per table slot. */
  const FUNCID_NUM: nat := 1

  /** MLOG_FUNCID_MAX: the largest valid function identifier. */
  const FUNCID_MAX: nat := FUNCID_NUM - 1
}
