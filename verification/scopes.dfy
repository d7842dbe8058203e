/** The two scope objects of JNIBridge.cpp: ThreadScope (detach on exit a
    thread the scope found unattached) and LocalFrame (a host local frame
    pushed on entry and popped on exit). */
module Scopes {
  import opened Common
  import opened JniErrors
  import opened JniCall

  // ---------------------------------------------------------------------
  // ThreadScope
  // ---------------------------------------------------------------------

  /** DetachCurrentThread: detaches when a VM is known, else does nothing. */
  function DetachCurrentThread(t: ThreadState): (r: ThreadState)
    ensures !HasEnv(r)
    ensures !t.vmInitialized ==> r == t
  {
    if !t.vmInitialized then t else t.(attached := false)
  }

  /** Constructing a ThreadScope remembers whether the thread lacked a call
      context at that moment. */
  function ThreadScopeEnter(t: ThreadState): (needDetach: bool)
    ensures needDetach <==> !(t.vmInitialized && t.attached)
  {
    !HasEnv(t)
  }

  /** Destroying a ThreadScope detaches only when the constructor found no
      call context. */
  function ThreadScopeExit(t: ThreadState, needDetach: bool): (r: ThreadState)
    ensures !needDetach ==> r == t
    ensures needDetach ==> !HasEnv(r)
    ensures r == t.(attached := r.attached)
  {
    if needDetach then DetachCurrentThread(t) else t
  }

  /** Whatever the scope's body attached, the thread leaves the scope with a
      call context exactly when it entered with one, provided the body did
      not itself detach a thread that was attached on entry. */
  lemma ThreadScopeRestoresAttachment(t: ThreadState, u: ThreadState)
    requires u.vmInitialized == t.vmInitialized
    requires HasEnv(t) ==> HasEnv(u)
    ensures HasEnv(ThreadScopeExit(u, ThreadScopeEnter(t))) <==> HasEnv(t)
    ensures HasEnv(t) ==> ThreadScopeExit(u, ThreadScopeEnter(t)) == u
  {
  }

  /** A typical scope: its body attaches the thread for one call. The thread
      is detached again on exit iff it was not attached on entry. */
  lemma ThreadScopeAroundAttach(t: ThreadState)
    requires EnvObtainable(t)
    ensures var u := AttachCurrentThread(t).0;
      HasEnv(u) && (HasEnv(ThreadScopeExit(u, ThreadScopeEnter(t))) <==> HasEnv(t))
  {
  }

  // ---------------------------------------------------------------------
  // LocalFrame
  // ---------------------------------------------------------------------

  /** Default capacity of a LocalFrame. */
  const DefaultFrameCapacity: nat := 64

  /** Message of the fatal error raised when a frame cannot be pushed. */
  const FrameFatalMessage: string := "Out of memory: Unable to allocate local frame(64)"

  /** The host's PushLocalFrame: pushes and returns 0, or returns a negative
      value with an out-of-memory exception pending. */
  function HostPush(pushOk: bool, oom: Throwable, failValue: int): HostCall
    requires failValue < 0
  {
    if pushOk then HostCall(0, None, PushFrame) else HostCall(failValue, Some(oom), NoFrame)
  }

  /** The bridge's PushLocalFrame: a checking returning call. */
  function PushLocalFrame(t: ThreadState, pushOk: bool, oom: Throwable, failValue: int): (r: (ThreadState, int))
    requires failValue < 0
    ensures r.1 >= 0
    ensures r.0.frameDepth == t.frameDepth + (if Gate(t, true, true).1 && pushOk then 1 else 0)
  {
    CallReturn(t, true, true, HostPush(pushOk, oom, failValue))
  }

  /** The bridge's PopLocalFrame(NULL): a non-checking returning call. */
  function PopLocalFrame(t: ThreadState): (r: ThreadState)
    ensures EnvObtainable(t) && t.frameDepth > 0 ==> r.frameDepth == t.frameDepth - 1
    ensures !EnvObtainable(t) ==> r.frameDepth == t.frameDepth
  {
    CallReturn(t, true, false, HostCall(0, None, PopFrame)).0
  }

  /** Result of constructing a frame scope: the process aborts through the
      host's FatalError, or the scope is entered and remembers whether it
      must pop on exit. */
  datatype FrameOutcome = Aborted | Entered(t: ThreadState, framePushed: bool)

  /** The LocalFrame constructor as written: push; on a negative result
      raise a fatal error; then remember "pushed" as "no error is recorded
      now". */
  function LocalFrameEnter(t: ThreadState, pushOk: bool, oom: Throwable, failValue: int): (o: FrameOutcome)
    requires failValue < 0
    ensures o.Entered? ==> (o.framePushed <==> PeekError(o.t) == NoError)
    ensures o.Entered? ==> o.t.frameDepth == t.frameDepth + (if Gate(t, true, true).1 && pushOk then 1 else 0)
    ensures o.Entered? && Gate(t, true, true).1 ==> o.t.pending == (if pushOk then None else Some(oom))
    ensures o.Entered? && !Gate(t, true, true).1 ==> o.t.pending == t.pending
  {
    var (t1, r) := PushLocalFrame(t, pushOk, oom, failValue);
    if r < 0 then
      var (t2, ran) := Call(t1, true, false, HostCall(0, None, NoFrame));
      if ran then Aborted else Entered(t2, PeekError(t2) == NoError)
    else Entered(t1, PeekError(t1) == NoError)
  }

  /** The LocalFrame destructor: pop only when the constructor said so. */
  function LocalFrameExit(t: ThreadState, framePushed: bool): (r: ThreadState)
    ensures !framePushed ==> r == t
    ensures framePushed && EnvObtainable(t) && t.frameDepth > 0 ==> r.frameDepth == t.frameDepth - 1
    ensures framePushed && !EnvObtainable(t) ==> r.frameDepth == t.frameDepth
  {
    if framePushed then PopLocalFrame(t) else t
  }

  /** On a thread with no recorded error and no pending exception, the
      written LocalFrame pops exactly the frame it pushed: the scope leaves
      the frame depth as it found it, and a failed push is not popped. */
  lemma LocalFrameBalancedOnCleanThread(t: ThreadState, pushOk: bool, oom: Throwable, failValue: int)
    requires failValue < 0
    requires PeekError(t) == NoError && t.pending.None? && EnvObtainable(t)
    ensures LocalFrameEnter(t, pushOk, oom, failValue).Entered?
    ensures var o := LocalFrameEnter(t, pushOk, oom, failValue);
      o.framePushed == pushOk
      && LocalFrameExit(o.t, o.framePushed).frameDepth == t.frameDepth
  {
  }

  /** The written constructor's "pushed" flag is exactly "no error is
      recorded after the push", whatever the push did. */
  lemma LocalFramePopsIffNoErrorAfterPush(t: ThreadState, pushOk: bool, oom: Throwable, failValue: int)
    requires failValue < 0
    ensures LocalFrameEnter(t, pushOk, oom, failValue).Entered?
    ensures LocalFrameEnter(t, pushOk, oom, failValue).framePushed
      <==> PeekError(PushLocalFrame(t, pushOk, oom, failValue).0) == NoError
  {
  }

  /** The frame leak of the written constructor: on an attached thread whose
      slot already holds an error, the push succeeds but the scope records
      "not pushed", so its exit leaves one frame too many. */
  lemma LocalFrameLeaksUnderStickyError(t: ThreadState, oom: Throwable, failValue: int)
    requires failValue < 0
    requires HasEnv(t) && t.pending.None? && PeekError(t) != NoError
    ensures var o := LocalFrameEnter(t, true, oom, failValue);
      o.Entered? && !o.framePushed
      && LocalFrameExit(o.t, o.framePushed).frameDepth == t.frameDepth + 1
  {
  }

  /** The fatal branch of the written constructor never fires: a failed
      push raises an exception, and the checking call turns its negative
      result into 0. */
  lemma LocalFrameNeverAborts(t: ThreadState, pushOk: bool, oom: Throwable, failValue: int)
    requires failValue < 0
    ensures LocalFrameEnter(t, pushOk, oom, failValue) != Aborted
  {
  }

  /** The constructor as evidently intended: push whenever a call context is
      obtainable (frames may be pushed with an exception pending), remember
      whether the push succeeded, and abort when it failed. */
  function LocalFrameEnterIntended(t: ThreadState, pushOk: bool): (o: FrameOutcome)
    ensures o == Aborted <==> EnvObtainable(t) && !pushOk
    ensures o.Entered? ==> (o.framePushed <==> o.t.frameDepth == t.frameDepth + 1)
    ensures o.Entered? ==> o.t.frameDepth <= t.frameDepth + 1 && o.t.frameDepth >= t.frameDepth
  {
    var (t1, env) := AttachCurrentThread(t);
    if !env then Entered(t1, false)
    else if pushOk then Entered(t1.(frameDepth := t1.frameDepth + 1), true)
    else Aborted
  }

  /** The intended scope is balanced on every thread, whatever the error
      slot holds: when the body keeps the call context and the frame depth,
      the exit restores the depth found on entry. */
  lemma LocalFrameIntendedBalanced(t: ThreadState, pushOk: bool, u: ThreadState)
    requires LocalFrameEnterIntended(t, pushOk).Entered?
    requires HasEnv(u) || !LocalFrameEnterIntended(t, pushOk).framePushed
    requires u.frameDepth == LocalFrameEnterIntended(t, pushOk).t.frameDepth
    ensures LocalFrameExit(u, LocalFrameEnterIntended(t, pushOk).framePushed).frameDepth == t.frameDepth
  {
  }
}
