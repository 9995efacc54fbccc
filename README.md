# mlog: the LOG service task's receive–validate–dispatch loop

This project models the `LOG` service task of mlog, a logging service that runs on a
microkernel. The task registers its name with the kernel and then loops forever. Each
iteration receives one message from any sender. A failed receive is dropped. A message
whose header function identifier is above `MLOG_FUNCID_MAX` is dropped silently. Any
other message goes to the handler that the function table `gFuncTbl` holds for its
identifier, together with the sender's task id and the message buffer.

Files:

- `types.dfy` (module `MlogTypes`): the shared types and constants. These are task ids with
  the null sentinel, kernel error and return codes, the message header with its
  function identifier, the outcome of one receive, and `MLOG_FUNCID_PUT`, `_NUM` and
  `_MAX`.
- `dispatch.dfy` (module `MlogDispatch`): the dispatch table, one iteration as the call it
  makes (`Step`), the trace of calls over a finite run of receives (`Dispatched`), and
  the lemmas about that trace.
- `main.dfy` (module `MlogMain`): `Loop` as an imperative method. It loops over the
  receive outcomes, resets `err` and `srcTaskId` at the start of every iteration,
  overwrites the buffer on each receive, and indexes the table array after the range
  check. `TaskMain` models `main`.

Assumptions:

- `mlog.h` and `libmk.h` are not part of this model. The constants are taken as
  `MLOG_FUNCID_PUT = 0`, `MLOG_FUNCID_NUM = 1` and `MLOG_FUNCID_MAX = MLOG_FUNCID_NUM - 1`.
  This matches the one-entry table initialiser `{ PutDo }` at `MLOG_FUNCID_PUT`.
- The kernel's receive is an input outcome, `RecvFail(err)` or `RecvOk(src, msg)`.
- On success the receive writes the sender and the buffer and leaves `err` unchanged.
- On failure it writes only `err`.
- The function identifier is compared with `MLOG_FUNCID_MAX` (src/mlog/main.c:146) and
  used as the table index only after that check (src/mlog/main.c:153). It is assumed
  unsigned, so it is a `nat`: `mlog.h` is not part of this model, and that assumption is
  what makes the range check a bounds check. Its width plays no part.
- Every successful receive delivers at least a whole header, so `funcId` is always the
  current message's own (see "## Left out").

The bounds safety of `gFuncTbl[ pMsgHdr->funcId ]` is a proof obligation Dafny discharges
inside `Loop`: the index is checked against the table array's length, which is
`MLOG_FUNCID_NUM`. `Loop` has no `modifies` clause, so the table cannot change while it runs.

## Model

| member | source | states |
|---|---|---|
| `MlogDispatch.FuncTblCoversRange` | src/mlog/main.c:45-46 | the table has exactly `MLOG_FUNCID_NUM` slots, `PutDo` is at `MLOG_FUNCID_PUT`, and every identifier that passes the range check is a valid index |
| `MlogDispatch.Step` | src/mlog/main.c:139-153 | one iteration calls a handler if and only if the receive succeeded and `funcId <= MLOG_FUNCID_MAX`; the handler is then `gFuncTbl[funcId]`, and it gets the receive's own sender and message |
| `MlogDispatch.AcceptedIndicesExact` | src/mlog/main.c:139-150 | the positions of the dispatched receives are exactly those that succeeded and passed the range check, strictly increasing |
| `MlogDispatch.DispatchedIsAcceptedInOrder` | src/mlog/main.c:125-154 | over any run of receives the trace has one call per accepted receive, in receive order; the k-th call is the table entry of the k-th accepted message with that receive's sender and message |
| `MlogDispatch.DispatchedAppend` | src/mlog/main.c:125-154 | under the whole-header assumption, iterations do not interact: the trace of two consecutive runs of receives is the concatenation of their traces |
| `MlogDispatch.FailedReceiveSkipped` | src/mlog/main.c:139-143 | a failed receive invokes no handler, and the receives after it are dispatched as if it had not happened |
| `MlogDispatch.OutOfRangeDropped` | src/mlog/main.c:146-150 | a message with `funcId > MLOG_FUNCID_MAX` is dropped: the trace is unchanged |
| `MlogDispatch.InRangeDispatchedOnce` | src/mlog/main.c:146-153 | a successful receive with `funcId <= MLOG_FUNCID_MAX` adds exactly one call, `gFuncTbl[funcId]` with the sender unchanged, at its place in the trace |
| `MlogMain.Loop` | src/mlog/main.c:96-155 | the loop's trace equals `Dispatched` over the receives; after the last iteration `err` and `srcTaskId` depend only on that iteration's receive (MK_ERR_NONE / MK_TASKID_NULL unless the receive wrote them) |
| `MlogMain.TaskMain` | src/mlog/main.c:58-84 | whatever the name registration returns, the task enters the loop with the table `{ PutDo }` and produces the same trace |

## Left out

- Console output (`VramInit`, `VramWriteStr`, the startup banner and the diagnostics): it writes to the display only and plays no part in the dispatch logic.
- The internals of `LibMkTaskNameRegister` and `LibMkMsgReceive`: the kernel library is not part of this model. Registration is an input return code, and each receive is an input outcome.
- The `malloc` of the receive buffer and its NULL case: the source carries on with a NULL buffer, which is undefined behaviour. The buffer is modelled as a message value that each successful receive replaces.
- Short messages: the model assumes every successful receive delivers at least a whole header. The source does not check the received `size` (src/mlog/main.c:135) before reading `pMsgHdr->funcId` (src/mlog/main.c:146). A shorter message is therefore dispatched on stale `funcId` bytes left in the reused buffer by the previous message, or on uninitialised bytes from `malloc` on the first receive. Through that buffer, one iteration can then affect the next, which the model does not capture.
- The received `size` and the meaning of the payload: the loop reads only `funcId`. The payload is carried through to the handler without being interpreted.
- The behaviour of `PutDo` (in `Put.c`, not part of this model): a handler is an identifier recorded in the trace with its arguments.
- Nontermination of `while ( true )`: `Loop` runs one iteration per element of a finite sequence of receive outcomes. Every property is stated for every finite prefix of a run.
- The abort after a failed registration or allocation: the source marks it "TODO" and does not implement it. The model follows the source as written, and the task carries on.
