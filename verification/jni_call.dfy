/** The call gates every host operation goes through: the JNI_CALL,
    JNI_CALL_RETURN and JNI_CALL_DECLARE macros of JNIBridge.h, and the
    void call operations built on them. */
module JniCall {
  import opened Common
  import opened JniErrors

  /** What a host function does to the thread's stack of local frames. */
  datatype FrameEffect = NoFrame | PushFrame | PopFrame

  /** What a wrapped host function does once it runs: the value it returns
      (0 stands for null), the exception it raises, if any, and its effect
      on the local frames. */
  datatype HostCall = HostCall(value: int, raises: Option<Throwable>, frames: FrameEffect)

  /** The host function's effect on the thread: a raised exception becomes
      the pending one; a pop of an empty frame stack is not modelled and
      leaves the depth at 0. */
  function RunHost(t: ThreadState, f: HostCall): ThreadState {
    var t1 := if f.raises.Some? then t.(pending := f.raises) else t;
    match f.frames
    case NoFrame => t1
    case PushFrame => t1.(frameDepth := t1.frameDepth + 1)
    case PopFrame => t1.(frameDepth := if t1.frameDepth > 0 then t1.frameDepth - 1 else 0)
  }

  /** The gate shared by the macros: a call context must be obtainable, the
      parameters valid, and, for a checking call, no exception pending
      beforehand. The checks run in that order and stop at the first that
      fails. Returns the state after the checks and whether the call may run. */
  function Gate(t: ThreadState, parameters: bool, checkException: bool): (r: (ThreadState, bool))
    ensures r.1 <==> EnvObtainable(t) && parameters && (!checkException || t.pending.None?)
    ensures r.1 ==> r.0 == t.(attached := true)
    ensures !r.1 ==> r.0.pending == t.pending
    ensures EnvObtainable(t) && !parameters && PeekError(t) == NoError ==> PeekError(r.0) == InvalidParameters
    ensures EnvObtainable(t) && parameters && checkException && t.pending.Some? && PeekError(t) == NoError
      ==> PeekError(r.0) == Errno.ExceptionThrown
  {
    var (t1, env) := AttachCurrentThread(t);
    if !env then (t1, false)
    else
      var (t2, bad) := CheckForParameterError(t1, parameters);
      if bad then (t2, false)
      else if checkException then
        var (t3, exc) := CheckForExceptionError(t2);
        (t3, !exc)
      else (t2, true)
  }

  /** JNI_CALL: runs `f` behind the gate and always checks for an exception
      after it ran. Returns the final state and whether `f` ran. */
  function Call(t: ThreadState, parameters: bool, checkException: bool, f: HostCall): (r: (ThreadState, bool))
    ensures r.1 <==> EnvObtainable(t) && parameters && (!checkException || t.pending.None?)
    ensures !r.1 ==> r.0.pending == t.pending
    ensures r.1 ==> r.0.pending == RunHost(t, f).pending
    ensures r.1 && RunHost(t, f).pending.Some? && PeekError(t) == NoError ==>
      Record(r.0) == ErrorRecord(Errno.ExceptionThrown, Truncate(RunHost(t, f).pending.value.description))
  {
    var (t1, open) := Gate(t, parameters, checkException);
    if open then (CheckForExceptionError(RunHost(t1, f)).0, true) else (t1, false)
  }

  /** JNI_CALL_RETURN: returns 0 whenever the gate is closed, and otherwise
      the host value unless the call checks exceptions and one is pending
      after it. */
  function CallReturn(t: ThreadState, parameters: bool, checkException: bool, f: HostCall): (r: (ThreadState, int))
    ensures !Gate(t, parameters, checkException).1 ==> r.1 == 0
    ensures Gate(t, parameters, checkException).1 && checkException ==>
      r.1 == (if f.raises.Some? then 0 else f.value)
    ensures Gate(t, parameters, checkException).1 && !checkException ==> r.1 == f.value
    ensures r.0 == Call(t, parameters, checkException, f).0
  {
    var (t1, open) := Gate(t, parameters, checkException);
    if open then
      var (t2, exc) := CheckForExceptionError(RunHost(t1, f));
      if !(exc && checkException) then (t2, f.value) else (t2, 0)
    else (t1, 0)
  }

  /** JNI_CALL_DECLARE: the result starts at 0, takes the host value when
      the call runs, and is reset to 0 on a later exception of a checking
      call. */
  function CallDeclare(t: ThreadState, parameters: bool, checkException: bool, f: HostCall): (r: (ThreadState, int))
    ensures !(EnvObtainable(t) && parameters && (!checkException || t.pending.None?)) ==> r.1 == 0
    ensures EnvObtainable(t) && parameters && (!checkException || t.pending.None?) ==>
      r.1 == (if checkException && f.raises.Some? then 0 else f.value)
    ensures r.0 == Call(t, parameters, checkException, f).0
  {
    var result := 0;
    var (t1, open) := Gate(t, parameters, checkException);
    if open then
      var result := f.value;
      var (t2, exc) := CheckForExceptionError(RunHost(t1, f));
      if exc && checkException then (t2, 0) else (t2, result)
    else (t1, result)
  }

  /** The two returning macros are interchangeable: same state, same value. */
  lemma DeclareAgreesWithReturn(t: ThreadState, parameters: bool, checkException: bool, f: HostCall)
    ensures CallDeclare(t, parameters, checkException, f) == CallReturn(t, parameters, checkException, f)
  {
  }

  /** A recorded error survives any gated call: neither its code nor its
      message changes, whatever the gate and the host function do. */
  lemma CallKeepsFirstError(t: ThreadState, parameters: bool, checkException: bool, f: HostCall)
    requires PeekError(t) != NoError
    ensures Record(Call(t, parameters, checkException, f).0) == Record(t)
    ensures Record(CallReturn(t, parameters, checkException, f).0) == Record(t)
  {
  }

  /** Op<jvoid>::CallMethod and Op<jvoid>::CallStaticMethod: a checking
      call on a non-null target (object or class) and method id whose value
      is discarded. Either always returns 0; the method runs only behind an
      open gate, and an exception it raises is left pending. */
  function CallVoidMethod(t: ThreadState, target: nat, methodId: nat, f: HostCall): (r: (ThreadState, int))
    ensures r.1 == 0
    ensures (target == 0 || methodId == 0 || t.pending.Some? || !EnvObtainable(t)) ==> r.0.pending == t.pending
    ensures target != 0 && methodId != 0 && t.pending.None? && EnvObtainable(t) ==>
      r.0.pending == f.raises && r.0.attached
  {
    (Call(t, target != 0 && methodId != 0, true, f).0, 0)
  }
}
