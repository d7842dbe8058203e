/** The Java side of a native proxy (JNIBridge.java): the invocation
    handler holding the native pointer, and the two static helpers the
    native side calls. Java monitors are left out: each method runs as one
    step. */
module InterfaceProxy {
  import opened Common

  /** An InterfaceProxy handler: the native pointer, 0 once disabled. */
  datatype Handler = Handler(ptr: nat)

  /** A call into native code that a handler makes. */
  datatype NativeCall = NativeInvoke(ptr: nat) | NativeDelete(ptr: nat)

  /** A Java proxy object: the interfaces it implements and its handler. */
  datatype Stub = Stub(interfaces: seq<nat>, handler: Handler)

  /** newInterfaceProxy: a proxy for exactly the one given interface whose
      handler holds the given pointer. */
  function NewInterfaceProxy(ptr: nat, interfaze: nat): (s: Stub)
    ensures s.interfaces == [interfaze]
    ensures s.handler.ptr == ptr
  {
    Stub([interfaze], Handler(ptr))
  }

  /** invoke: returns null with no native call once disabled; otherwise
      forwards to the native invoke with the handler's pointer. Returns the
      native call made, if any. */
  function Invoke(h: Handler): (c: Option<NativeCall>)
    ensures h.ptr == 0 <==> c == None
    ensures c.Some? ==> c.value == NativeInvoke(h.ptr)
  {
    if h.ptr == 0 then None else Some(NativeInvoke(h.ptr))
  }

  /** finalize: calls the native delete only while the pointer is set. */
  function Finalize(h: Handler): (c: Option<NativeCall>)
    ensures h.ptr == 0 <==> c == None
    ensures c.Some? ==> c.value == NativeDelete(h.ptr)
  {
    if h.ptr == 0 then None else Some(NativeDelete(h.ptr))
  }

  /** disable: clears the pointer. */
  function Disable(h: Handler): (r: Handler)
    ensures r.ptr == 0
  {
    h.(ptr := 0)
  }

  /** disableInterfaceProxy: disables the handler of the given proxy and
      leaves its interfaces alone. */
  function DisableInterfaceProxy(s: Stub): (r: Stub)
    ensures r.interfaces == s.interfaces && r.handler.ptr == 0
  {
    s.(handler := Disable(s.handler))
  }

  /** The handler methods a caller may run. */
  datatype HandlerOp = InvokeOp | FinalizeOp | DisableOp

  /** Runs the handler methods in order; returns the final handler and the
      native calls made. */
  function RunHandler(h: Handler, ops: seq<HandlerOp>): (r: (Handler, seq<NativeCall>))
    decreases |ops|
  {
    if |ops| == 0 then (h, [])
    else
      var call := match ops[0]
        case InvokeOp => Invoke(h)
        case FinalizeOp => Finalize(h)
        case DisableOp => None;
      var h1 := if ops[0] == DisableOp then Disable(h) else h;
      var (h2, calls) := RunHandler(h1, ops[1..]);
      (h2, (if call.Some? then [call.value] else []) + calls)
  }

  /** Disabled is terminal: a disabled handler stays disabled and never
      reaches native code, whatever is run on it. */
  lemma {:induction false} DisabledIsTerminal(h: Handler, ops: seq<HandlerOp>)
    requires h.ptr == 0
    ensures RunHandler(h, ops) == (h, [])
    decreases |ops|
  {
    if |ops| > 0 {
      assert Disable(h) == h;
      DisabledIsTerminal(h, ops[1..]);
      assert RunHandler(h, ops).1 == RunHandler(h, ops[1..]).1;
      assert RunHandler(h, ops).0 == RunHandler(h, ops[1..]).0;
    }
  }

  /** Every native call a handler makes carries the pointer it was built
      with. */
  lemma {:induction false} CallsCarryPointer(h: Handler, ops: seq<HandlerOp>)
    ensures forall c :: c in RunHandler(h, ops).1 ==> c.ptr == h.ptr
    decreases |ops|
  {
    if |ops| > 0 {
      if ops[0] == DisableOp {
        DisabledIsTerminal(Disable(h), ops[1..]);
      } else {
        CallsCarryPointer(h, ops[1..]);
      }
    }
  }

  /** No native call is made after the first disable: the calls of a run
      are those of its prefix ending with the disable, and the handler ends
      disabled. */
  lemma {:induction false} NoNativeCallAfterDisable(h: Handler, ops: seq<HandlerOp>, k: nat)
    requires k < |ops| && ops[k] == DisableOp
    ensures RunHandler(h, ops).0.ptr == 0
    ensures RunHandler(h, ops).1 == RunHandler(h, ops[..k + 1]).1
    decreases |ops|
  {
    var h1 := if ops[0] == DisableOp then Disable(h) else h;
    if k == 0 {
      DisabledIsTerminal(h1, ops[1..]);
      assert ops[..1][1..] == [];
    } else {
      NoNativeCallAfterDisable(h1, ops[1..], k - 1);
      assert ops[..k + 1][1..] == ops[1..][..k];
    }
  }
}
