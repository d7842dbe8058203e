/** The per-thread sticky error slot and thread attachment of the bridge
    (JNIBridge.h, JNIBridge.cpp).

    The host runtime is abstract: a thread either has a call context
    ("env") or can obtain one by attaching, may have a pending host
    exception, and owns one lazily allocated error record. */
module JniErrors {
  import opened Common

  /** The bridge's error codes, in declaration order. */
  datatype Errno = NoError | AttachFailed | InvalidParameters | ExceptionThrown

  /** Integer value of a code as the enum assigns it. */
  function Code(e: Errno): (c: int)
    ensures 0 <= c <= 3
    ensures c == 0 <==> e == NoError
  {
    match e
    case NoError => 0
    case AttachFailed => 1
    case InvalidParameters => 2
    case ExceptionThrown => 3
  }

  /** Distinct codes have distinct values. */
  lemma CodeInjective(a: Errno, b: Errno)
    ensures Code(a) == Code(b) <==> a == b
  {
  }

  /** Size of the message buffer, terminator included. */
  const ErrStrSize: nat := 256

  const AttachFailedMessage: string := "java.lang.IllegalThreadStateException: Unable to attach to VM"
  const NullParameterMessage: string := "java.lang.IllegalArgumentException: Null parameter detected"

  /** One thread's error record: a code and a message (without its terminator). */
  datatype ErrorRecord = ErrorRecord(errno: Errno, errstr: string)

  /** The record a fresh thread gets: all bytes zero. */
  const ZeroRecord := ErrorRecord(NoError, "")

  /** A host exception object: its identity, the classes it is an instance
      of, and what its `toString` yields. */
  datatype Throwable = Throwable(id: nat, classes: set<nat>, description: string)

  /** Everything the bridge can observe about the current thread.
      `slot` is None until the error record has been allocated;
      `frameDepth` counts the host's pushed local frames. */
  datatype ThreadState = ThreadState(
    vmInitialized: bool,
    attached: bool,
    attachSucceeds: bool,
    pending: Option<Throwable>,
    slot: Option<ErrorRecord>,
    frameDepth: nat)

  /** A thread that has never touched its error record. */
  function FreshThread(vmInitialized: bool, attached: bool, attachSucceeds: bool): ThreadState {
    ThreadState(vmInitialized, attached, attachSucceeds, None, None, 0)
  }

  /** The record the thread sees; allocating it lazily yields the zero record. */
  function Record(t: ThreadState): ErrorRecord {
    t.slot.GetOr(ZeroRecord)
  }

  /** Current error code, without clearing it. */
  function PeekError(t: ThreadState): (e: Errno)
    ensures t.slot == None ==> e == NoError
  {
    Record(t).errno
  }

  /** Current error message. */
  function GetErrorMessage(t: ThreadState): string {
    Record(t).errstr
  }

  /** A fresh thread reports no error. */
  lemma FreshThreadHasNoError(vm: bool, attached: bool, attachSucceeds: bool)
    ensures PeekError(FreshThread(vm, attached, attachSucceeds)) == NoError
    ensures GetErrorMessage(FreshThread(vm, attached, attachSucceeds)) == ""
  {
  }

  /** Records an error only when the slot is clear: the first error wins.
      The message is copied whole, so it must fit the buffer. */
  function SetError(t: ThreadState, e: Errno, msg: string): (r: ThreadState)
    requires |msg| < ErrStrSize
    ensures PeekError(t) != NoError ==> Record(r) == Record(t)
    ensures PeekError(t) == NoError ==> Record(r) == ErrorRecord(e, msg)
    ensures r.(slot := t.slot) == t
  {
    var rec := Record(t);
    if rec.errno != NoError then t.(slot := Some(rec))
    else t.(slot := Some(ErrorRecord(e, msg)))
  }

  /** Applies SetError once per element, in order. */
  function SetErrors(t: ThreadState, errs: seq<(Errno, string)>): ThreadState
    requires forall i :: 0 <= i < |errs| ==> |errs[i].1| < ErrStrSize
    decreases |errs|
  {
    if |errs| == 0 then t else SetErrors(SetError(t, errs[0].0, errs[0].1), errs[1..])
  }

  /** Index of the first error in `errs` that is not NoError, or |errs|. */
  function FirstRealError(errs: seq<(Errno, string)>): (k: nat)
    ensures k <= |errs|
    ensures forall i :: 0 <= i < k ==> errs[i].0 == NoError
    ensures k < |errs| ==> errs[k].0 != NoError
  {
    if |errs| == 0 then 0
    else if errs[0].0 != NoError then 0
    else 1 + FirstRealError(errs[1..])
  }

  /** Over any sequence of errors reported on a clear slot, the record ends
      up holding the first real one; the later ones are all dropped. */
  lemma {:induction false} FirstErrorWins(t: ThreadState, errs: seq<(Errno, string)>)
    requires forall i :: 0 <= i < |errs| ==> |errs[i].1| < ErrStrSize
    requires PeekError(t) == NoError
    ensures var k := FirstRealError(errs);
      k < |errs| ==> Record(SetErrors(t, errs)) == ErrorRecord(errs[k].0, errs[k].1)
    ensures FirstRealError(errs) == |errs| ==> PeekError(SetErrors(t, errs)) == NoError
    decreases |errs|
  {
    if |errs| > 0 {
      var t1 := SetError(t, errs[0].0, errs[0].1);
      if errs[0].0 != NoError {
        StickyUnderSetErrors(t1, errs[1..]);
      } else {
        FirstErrorWins(t1, errs[1..]);
      }
    }
  }

  /** Once an error is recorded, further reports leave the record alone. */
  lemma {:induction false} StickyUnderSetErrors(t: ThreadState, errs: seq<(Errno, string)>)
    requires forall i :: 0 <= i < |errs| ==> |errs[i].1| < ErrStrSize
    requires PeekError(t) != NoError
    ensures Record(SetErrors(t, errs)) == Record(t)
    decreases |errs|
  {
    if |errs| > 0 {
      StickyUnderSetErrors(SetError(t, errs[0].0, errs[0].1), errs[1..]);
    }
  }

  /** The thread already has a call context (GetEnv yields one). */
  predicate HasEnv(t: ThreadState) {
    t.vmInitialized && t.attached
  }

  /** A call context can be obtained, attaching the thread if needed. */
  predicate EnvObtainable(t: ThreadState) {
    t.vmInitialized && (t.attached || t.attachSucceeds)
  }

  /** Returns the thread's call context, attaching the thread when it has
      none; an attach that yields nothing records AttachFailed. Without an
      initialised VM nothing happens and nothing is recorded. */
  function AttachCurrentThread(t: ThreadState): (r: (ThreadState, bool))
    ensures r.1 <==> EnvObtainable(t)
    ensures r.1 ==> r.0 == t.(attached := true) && HasEnv(r.0)
    ensures !t.vmInitialized ==> r.0 == t
    ensures t.vmInitialized && !r.1 ==>
      r.0 == SetError(t, AttachFailed, AttachFailedMessage)
      && PeekError(r.0) == (if PeekError(t) == NoError then AttachFailed else PeekError(t))
  {
    if !t.vmInitialized then (t, false)
    else if t.attached then (t, true)
    else if t.attachSucceeds then (t.(attached := true), true)
    else (SetError(t, AttachFailed, AttachFailedMessage), false)
  }

  /** Resets the code and drains the pending exception, when a call context
      is obtainable. The message is left as it was. */
  function ClearErrors(t: ThreadState): (r: ThreadState)
    ensures EnvObtainable(t) ==>
      PeekError(r) == NoError && r.pending == None
      && GetErrorMessage(r) == GetErrorMessage(t)
    ensures !EnvObtainable(t) ==> r.pending == t.pending
    ensures !EnvObtainable(t) && PeekError(t) != NoError ==> Record(r) == Record(t)
  {
    var (t1, env) := AttachCurrentThread(t);
    if env then t1.(slot := Some(Record(t1).(errno := NoError)), pending := None)
    else t1
  }

  /** Returns the current code and clears it when it is set. */
  function CheckError(t: ThreadState): (r: (ThreadState, Errno))
    ensures r.1 == PeekError(t)
    ensures r.1 == NoError ==> r.0 == t
    ensures r.1 != NoError && EnvObtainable(t) ==> PeekError(r.0) == NoError && r.0.pending == None
    ensures r.1 != NoError && !EnvObtainable(t) ==> Record(r.0) == Record(t)
  {
    var e := PeekError(t);
    if e != NoError then (ClearErrors(t), e) else (t, e)
  }

  /** With a reachable VM, a second CheckError reports nothing: the first
      one consumed the error. */
  lemma CheckErrorConsumes(t: ThreadState)
    requires EnvObtainable(t)
    ensures CheckError(CheckError(t).0).1 == NoError
  {
    var (t1, e) := CheckError(t);
    if e == NoError {
      assert t1 == t;
    }
  }

  /** Records InvalidParameters when `valid` is false; returns `!valid`. */
  function CheckForParameterError(t: ThreadState, valid: bool): (r: (ThreadState, bool))
    ensures r.1 == !valid
    ensures valid ==> r.0 == t
    ensures !valid ==> r.0 == SetError(t, InvalidParameters, NullParameterMessage)
  {
    if !valid then (SetError(t, InvalidParameters, NullParameterMessage), true) else (t, false)
  }

  /** The message kept from an exception: the buffer holds at most
      ErrStrSize - 1 characters before its terminator. A message's
      characters are the C `char`s of its modified UTF-8 form, that is
      bytes, so the bound counts bytes, not code points. */
  function Truncate(msg: string): (r: string)
    ensures |r| < ErrStrSize
    ensures r <= msg
    ensures |msg| < ErrStrSize ==> r == msg
    ensures |msg| >= ErrStrSize ==> |r| == ErrStrSize - 1
  {
    if |msg| < ErrStrSize then msg else msg[..ErrStrSize - 1]
  }

  /** Reports whether an exception is pending. A pending exception is
      recorded as ExceptionThrown, with its description as the message, only
      when the slot is clear; the exception itself stays pending. */
  function CheckForExceptionError(t: ThreadState): (r: (ThreadState, bool))
    requires HasEnv(t)
    ensures r.1 <==> t.pending.Some?
    ensures r.0.pending == t.pending
    ensures !r.1 || PeekError(t) != NoError ==> r.0 == t
    ensures r.1 && PeekError(t) == NoError ==>
      Record(r.0) == ErrorRecord(Errno.ExceptionThrown, Truncate(t.pending.value.description))
    ensures r.0.(slot := t.slot) == t
  {
    match t.pending
    case None => (t, false)
    case Some(x) =>
      if PeekError(t) == NoError then
        (t.(slot := Some(ErrorRecord(Errno.ExceptionThrown, Truncate(x.description)))), true)
      else (t, true)
  }

  /** Consumes the pending exception when it is an instance of `clazz` (or
      `clazz` is absent), clearing the error slot; otherwise leaves the
      exception pending and returns nothing. */
  function ExceptionThrown(t: ThreadState, clazz: Option<nat>): (r: (ThreadState, Option<Throwable>))
    ensures r.1.Some? <==>
      EnvObtainable(t) && t.pending.Some?
      && (clazz.None? || clazz.value in t.pending.value.classes)
    ensures r.1.Some? ==> r.1 == t.pending && r.0.pending == None && PeekError(r.0) == NoError
    ensures r.1.None? ==> r.0.pending == t.pending
  {
    var (t1, env) := AttachCurrentThread(t);
    if !env then (t1, None)
    else
      match t1.pending
      case None => (t1, None)
      case Some(x) =>
        if clazz.Some? && clazz.value !in x.classes then (t1, None)
        else (ClearErrors(t1), Some(x))
  }
}
