/**
 * The dispatch table `gFuncTbl` of src/mlog/main.c and the specification of
 * what the service's receive loop does with a finite run of receives: the
 * trace of handler invocations it makes.
 */
module MlogDispatch {
  import opened MlogTypes

  /**
   * The handler routines a table can hold: `PutDo`, the one `gFuncTbl`
   * holds, or any other routine of the same type, told apart by an id.
   * Handlers are implemented outside this model; here each is only a name
   * recorded in the trace.
   */
  datatype Handler = PutDo | OtherFunc(id: nat)

  /** The initialiser of `gFuncTbl`: slot MLOG_FUNCID_PUT holds `PutDo`. */
  const FUNC_TBL: seq<Handler> := [PutDo]

  /** A table fit for dispatch: exactly one slot per function identifier. */
  predicate IsFuncTbl(tbl: seq<Handler>)
  {
    |tbl| == FUNCID_NUM
  }

  /** One handler invocation: the routine, the sender it was given, and the message in the buffer. */
  datatype Call = Call(handler: Handler, src: TaskId, msg: Msg)

  /** The range check of the loop: a function identifier that may be dispatched. */
  predicate InRange(funcId: nat)
  {
    funcId <= FUNCID_MAX
  }

  /** A receive whose message is dispatched: it succeeded and its identifier passed the range check. */
  predicate Accepted(o: RecvOutcome)
  {
    o.RecvOk? && InRange(o.msg.funcId)
  }

  /**
   * The table is fully populated, `PutDo` sits at MLOG_FUNCID_PUT, and every
   * identifier that passes the range check is a valid index into it.
   */
  lemma FuncTblCoversRange()
    ensures IsFuncTbl(FUNC_TBL)
    ensures FUNC_TBL[FUNCID_PUT] == PutDo
    ensures forall f: nat :: InRange(f) ==> f < |FUNC_TBL|
  {
  }

  /**
   * One iteration of the loop, as the handler call it makes, if any: a failed
   * receive and an out-of-range identifier call nothing; any other receive
   * calls the table's entry for its identifier with its own sender and message.
   */
  function Step(tbl: seq<Handler>, o: RecvOutcome): (r: Option<Call>)
    requires IsFuncTbl(tbl)
    ensures r.Some? <==> Accepted(o)
    ensures r.Some? ==> r.value.handler == tbl[o.msg.funcId] && r.value.src == o.src && r.value.msg == o.msg
  {
    match o
    case RecvFail(_) => None
    case RecvOk(src, msg) =>
      if msg.funcId > FUNCID_MAX then None else Some(Call(tbl[msg.funcId], src, msg))
  }

  /** The calls of one iteration, as a (possibly empty) piece of the trace. */
  function StepCalls(tbl: seq<Handler>, o: RecvOutcome): seq<Call>
    requires IsFuncTbl(tbl)
  {
    match Step(tbl, o)
    case None => []
    case Some(c) => [c]
  }

  /** The trace of handler calls the loop makes over the receives `recv`, in order. */
  function Dispatched(tbl: seq<Handler>, recv: seq<RecvOutcome>): seq<Call>
    requires IsFuncTbl(tbl)
  {
    if recv == [] then []
    else Dispatched(tbl, recv[..|recv| - 1]) + StepCalls(tbl, recv[|recv| - 1])
  }

  /** The positions, in `recv`, of the receives that are accepted for dispatch. */
  function AcceptedIndices(recv: seq<RecvOutcome>): seq<nat>
  {
    if recv == [] then []
    else AcceptedIndices(recv[..|recv| - 1]) + (if Accepted(recv[|recv| - 1]) then [|recv| - 1] else [])
  }

  /** `AcceptedIndices` lists exactly the accepted positions, each once, in increasing order. */
  lemma {:induction false} AcceptedIndicesExact(recv: seq<RecvOutcome>)
    ensures forall k :: 0 <= k < |AcceptedIndices(recv)| ==> AcceptedIndices(recv)[k] < |recv|
    ensures forall j, k :: 0 <= j < k < |AcceptedIndices(recv)| ==> AcceptedIndices(recv)[j] < AcceptedIndices(recv)[k]
    ensures forall i :: 0 <= i < |recv| ==> (Accepted(recv[i]) <==> i in AcceptedIndices(recv))
  {
    if recv != [] {
      var front := recv[..|recv| - 1];
      AcceptedIndicesExact(front);
      forall i | 0 <= i < |front|
        ensures recv[i] == front[i]
      {
      }
    }
  }

  /**
   * The trace is the accepted receives in receive order, one call per
   * accepted receive: its k-th call is the table entry of the k-th accepted
   * message, given that receive's own sender and message.
   */
  lemma {:induction false} DispatchedIsAcceptedInOrder(tbl: seq<Handler>, recv: seq<RecvOutcome>)
    requires IsFuncTbl(tbl)
    ensures |Dispatched(tbl, recv)| == |AcceptedIndices(recv)|
    ensures forall k :: 0 <= k < |AcceptedIndices(recv)| ==>
      var i := AcceptedIndices(recv)[k];
      i < |recv| && recv[i].RecvOk? && InRange(recv[i].msg.funcId) &&
      Dispatched(tbl, recv)[k] == Call(tbl[recv[i].msg.funcId], recv[i].src, recv[i].msg)
  {
    AcceptedIndicesExact(recv);
    if recv != [] {
      var front := recv[..|recv| - 1];
      DispatchedIsAcceptedInOrder(tbl, front);
      AcceptedIndicesExact(front);
      forall k | 0 <= k < |AcceptedIndices(front)|
        ensures AcceptedIndices(front)[k] < |front|
        ensures recv[AcceptedIndices(front)[k]] == front[AcceptedIndices(front)[k]]
      {
      }
    }
  }

  /** The trace of consecutive runs of receives is the concatenation of their traces. */
  lemma {:induction false} DispatchedAppend(tbl: seq<Handler>, a: seq<RecvOutcome>, b: seq<RecvOutcome>)
    requires IsFuncTbl(tbl)
    ensures Dispatched(tbl, a + b) == Dispatched(tbl, a) + Dispatched(tbl, b)
  {
    if b == [] {
      assert a + b == a;
    } else {
      var front := b[..|b| - 1];
      DispatchedAppend(tbl, a, front);
      assert (a + b)[..|a + b| - 1] == a + front;
    }
  }

  /** The trace of a single receive is that iteration's calls. */
  lemma DispatchedOne(tbl: seq<Handler>, o: RecvOutcome)
    requires IsFuncTbl(tbl)
    ensures Dispatched(tbl, [o]) == StepCalls(tbl, o)
  {
  }

  /**
   * A failed receive calls no handler and does not stop the loop: the
   * receives after it are dispatched exactly as if it had not happened.
   */
  lemma FailedReceiveSkipped(tbl: seq<Handler>, before: seq<RecvOutcome>, e: MkErr, after: seq<RecvOutcome>)
    requires IsFuncTbl(tbl)
    ensures Dispatched(tbl, before + [RecvFail(e)] + after) == Dispatched(tbl, before) + Dispatched(tbl, after)
  {
    DispatchedAppend(tbl, before + [RecvFail(e)], after);
    DispatchedAppend(tbl, before, [RecvFail(e)]);
    DispatchedOne(tbl, RecvFail(e));
  }

  /** A message whose identifier fails the range check is dropped silently: it adds nothing to the trace. */
  lemma OutOfRangeDropped(tbl: seq<Handler>, before: seq<RecvOutcome>, src: TaskId, msg: Msg, after: seq<RecvOutcome>)
    requires IsFuncTbl(tbl)
    requires msg.funcId > FUNCID_MAX
    ensures Dispatched(tbl, before + [RecvOk(src, msg)] + after) == Dispatched(tbl, before) + Dispatched(tbl, after)
  {
    DispatchedAppend(tbl, before + [RecvOk(src, msg)], after);
    DispatchedAppend(tbl, before, [RecvOk(src, msg)]);
    DispatchedOne(tbl, RecvOk(src, msg));
  }

  /**
   * A successful receive of an in-range message adds exactly one call to the
   * trace, at its place in receive order: the table entry for its identifier,
   * given its sender unchanged and its message.
   */
  lemma InRangeDispatchedOnce(tbl: seq<Handler>, before: seq<RecvOutcome>, src: TaskId, msg: Msg, after: seq<RecvOutcome>)
    requires IsFuncTbl(tbl)
    requires msg.funcId <= FUNCID_MAX
    ensures Dispatched(tbl, before + [RecvOk(src, msg)] + after)
         == Dispatched(tbl, before) + [Call(tbl[msg.funcId], src, msg)] + Dispatched(tbl, after)
  {
    DispatchedAppend(tbl, before + [RecvOk(src, msg)], after);
    DispatchedAppend(tbl, before, [RecvOk(src, msg)]);
    DispatchedOne(tbl, RecvOk(src, msg));
  }
}
