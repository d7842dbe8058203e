# android-jni-bridge, modelled in Dafny

This project models the native core of android-jni-bridge. That library lets C++ code call Java through JNI. It also lets C++ objects implement Java interfaces, through generated proxies.

The JVM is abstract throughout. A thread is a `ThreadState`, which records:
- whether a VM is initialised;
- whether the thread is attached and whether attaching would succeed;
- the pending exception;
- the per-thread error record;
- the depth of its local-frame stack.

Every host call is a parameter. A `HostCall` gives the value the call returns, the exception it raises and its effect on local frames.

Each module follows one part of the source:

| module | what it models |
|---|---|
| `JniErrors` | The sticky per-thread error record: first error wins, `CheckError` consumes it. Also thread attachment and the exception helpers (JNIBridge.cpp). |
| `JniCall` | The `JNI_CALL`, `JNI_CALL_RETURN` and `JNI_CALL_DECLARE` gates and `Op<jvoid>` (JNIBridge.h). |
| `Scopes` | `ThreadScope`, and `LocalFrame` both as written and as evidently intended (JNIBridge.cpp). |
| `HandleRef` | Reference-counted `Ref`. A trace of constructions, copies, assignments and destructions releases every global reference exactly once; a release that cannot reach the host leaks its handle (APIHelper.h). |
| `TypeHandle` | The lazily resolved `Class`, which owns a copy of its name, plus the null-safe array accessors (APIHelper.h, APIHelper.cpp). |
| `Registry` | The tracking lists: prepend, remove the first match, and bulk teardown that detaches the list first (Proxy.h, Proxy.cpp, LinkedList.h, ListOfCleanables.cpp). |
| `ExpandingArray`, `ExpandingArrayClass` | The doubling array with swap-with-last removal: first as functions over sequences, then as a class over a Dafny array (ExpandingArray.h). |
| `Dispatch` | Probe-based dispatch of a proxy call. At most one probe writes, whatever the evaluation order (Proxy.h, Proxy.cpp, APIHelper.cpp). |
| `InterfaceProxy` | The Java `InterfaceProxy` handler: enabled, then disabled for good (JNIBridge.java). |
| `ProxyLifecycle` | Construction, destruction, finalisation and `DeleteAllProxies` of native proxies together with their Java stubs. No Java call reaches a destroyed proxy as long as every disable call started by native code runs; a skipped one leaves the stub dangling (Proxy.h, Proxy.cpp). |
| `NativeSignatures` | The descriptors under which native code registers and looks up the methods of `JNIBridge.java`. |
| `Descriptors` | `getSignature` / `getMethodSignature` / `getConstructorSignature`, with a decoder as partner (APIGenerator.java). |
| `Mangling` | `safe`, `capitalize`, `getMethodName`, `getFieldName`, `getParameterNames` (APIGenerator.java). |
| `Dependencies` | `collectDependencies` / `collectDirectDependencies` and the `isValid` filters (APIGenerator.java). |
| `UtfString` | The cached UTF characters of the `java.lang.String` wrapper: fetched lazily, released exactly once, moved with the object (templates/java.lang.String.cpp). |

A call on a disabled proxy returns null without calling native code (JNIBridge.java:31-32), and so does `InterfaceProxy.Invoke`.

## Model

| member | source | states |
|---|---|---|
| JniErrors.Code | JNIBridge.h:16-22 | `kJNI_NO_ERROR` is 0, and every other code is a non-zero value up to 3. |
| JniErrors.CodeInjective | JNIBridge.h:16-22 | Two codes have the same numeric value exactly when they are the same code. |
| JniErrors.FreshThreadHasNoError | JNIBridge.cpp:51-61 | The record a thread allocates on first use is zeroed, so it reports no error and an empty message. |
| JniErrors.PeekError | JNIBridge.cpp:91-94 | A thread that never touched its record reads `kJNI_NO_ERROR`. |
| JniErrors.SetError | JNIBridge.cpp:63-71 | First error wins: a set record keeps its code and message, and a clear record takes the new code and message. Nothing outside the record changes. |
| JniErrors.FirstErrorWins | JNIBridge.cpp:63-71 | Over any sequence of reports on a clear record, the record ends as the first report whose code is not `kJNI_NO_ERROR`. It stays clear when there is none. |
| JniErrors.StickyUnderSetErrors | JNIBridge.cpp:63-71 | Once an error is recorded, no later report changes the code or the message. |
| JniErrors.AttachCurrentThread | JNIBridge.cpp:194-218 | A call context is returned iff one can be had, and getting it marks the thread attached. Without an initialised VM nothing changes and no error is recorded. A failed attach records `kJNI_ATTACH_FAILED`. |
| JniErrors.ClearErrors | JNIBridge.cpp:73-81 | With a call context, the code is reset and the pending exception cleared. Without one, the pending exception and a set record are left alone. |
| JniErrors.CheckError | JNIBridge.cpp:101-107 | Returns the current code. A set code is cleared, together with the pending exception, only when a call context is obtainable. Otherwise the record is unchanged, and a clear record changes nothing. |
| JniErrors.CheckErrorConsumes | JNIBridge.cpp:101-107 | With a reachable VM, a second `CheckError` right after the first reports no error. |
| JniErrors.CheckForParameterError | JNIBridge.cpp:133-138 | Returns `!valid`. It records `kJNI_INVALID_PARAMETERS`, first error winning, only when `valid` is false; otherwise the state is untouched. |
| JniErrors.Truncate | JNIBridge.cpp:157-158 | The kept message is a prefix of the original of fewer than 256 C `char`s (bytes of modified UTF-8, not code points). A shorter message is kept whole, and a longer one is cut to exactly 255. |
| JniErrors.CheckForExceptionError | JNIBridge.cpp:140-171 | Returns true iff an exception is pending, and the exception stays pending. `kJNI_EXCEPTION_THROWN` with the truncated description is recorded only on a clear record. Nothing else changes. |
| JniErrors.ExceptionThrown | JNIBridge.cpp:109-131 | The pending exception is returned and consumed, and the record cleared, iff a call context is obtainable and the exception is an instance of the class (or no class is given). Otherwise the exception stays pending. |
| JniCall.Gate | JNIBridge.h:112-116 | The call may run iff a call context is obtainable, the parameters are valid and, for a checking call, no exception is pending. A closed gate records `kJNI_INVALID_PARAMETERS` or `kJNI_EXCEPTION_THROWN` on a clear record and keeps the pending exception. |
| JniCall.Call | JNIBridge.h:112-119 | `JNI_CALL` runs the function exactly when the gate opens. When the function runs, its exception is left pending and is recorded on a clear record. |
| JniCall.CallReturn | JNIBridge.h:121-130 | `JNI_CALL_RETURN` yields 0 when the gate is closed. Otherwise it yields the function's value, except that a checking call whose function raised yields 0. |
| JniCall.CallDeclare | JNIBridge.h:132-141 | `JNI_CALL_DECLARE` yields 0 unless the gate opens. When it opens it yields the function's value, except that a checking call whose function raised yields 0. Its state is that of `JNI_CALL`. |
| JniCall.DeclareAgreesWithReturn | JNIBridge.h:132-141 | `JNI_CALL_DECLARE` (result initialised to 0, reset to 0 on a post-call exception) gives the same state and value as `JNI_CALL_RETURN`, on every input. |
| JniCall.CallKeepsFirstError | JNIBridge.h:112-130 | A recorded error survives any gated call: neither its code nor its message changes. |
| JniCall.CallVoidMethod | JNIBridge.h:383-398 | `Op<jvoid>::CallMethod` and `CallStaticMethod` always return 0. The method runs only with a non-null target and method id, a call context and no exception pending, and an exception it raises stays pending. |
| Scopes.DetachCurrentThread | JNIBridge.cpp:220-227 | Afterwards the thread has no call context. Without an initialised VM nothing changes. |
| Scopes.ThreadScopeEnter | JNIBridge.cpp:361-364 | The scope owes a detach exactly when the thread has no call context on entry. |
| Scopes.ThreadScopeExit | JNIBridge.cpp:366-370 | A scope that owes nothing leaves the thread alone. One that owes a detach leaves the thread without a call context. Nothing but attachment changes. |
| Scopes.ThreadScopeRestoresAttachment | JNIBridge.cpp:361-370 | Whatever the scope's body attached, the thread leaves the scope with a call context iff it entered with one. A thread that entered attached is not touched on exit. |
| Scopes.ThreadScopeAroundAttach | JNIBridge.cpp:361-370 | A body that attaches the thread has a call context inside the scope. The thread is detached on exit iff it had none on entry. |
| Scopes.PushLocalFrame | JNIBridge.cpp:31-34 | Pushing through a checking returning call never yields a negative value. The frame depth grows by one exactly when the gate opens and the host pushes. |
| Scopes.PopLocalFrame | JNIBridge.cpp:36-39 | With a call context and a frame on the stack, one frame is popped. Without a call context the stack is untouched. |
| Scopes.LocalFrameEnter | JNIBridge.cpp:375-380 | As written: the remembered "pushed" flag is "no error is recorded after the push". The depth grows by one exactly when the gate opens and the host pushes. A failed push leaves its out-of-memory exception pending. |
| Scopes.LocalFrameExit | JNIBridge.cpp:381-385 | A frame not remembered as pushed is not popped. A remembered frame is popped when a call context exists, and leaks when none does. |
| Scopes.LocalFrameBalancedOnCleanThread | JNIBridge.cpp:375-385 | On a thread with no recorded error, no pending exception and a call context, the scope is entered, and leaving it restores the frame depth. |
| Scopes.LocalFramePopsIffNoErrorAfterPush | JNIBridge.cpp:375-380 | The written constructor always enters, and its "pushed" flag is exactly "no error is recorded after the push". |
| Scopes.LocalFrameLeaksUnderStickyError | JNIBridge.cpp:375-385 | As written: on an attached thread whose record already holds an error, a successful push is never popped, so the frame depth grows by one. |
| Scopes.LocalFrameNeverAborts | JNIBridge.cpp:375-378 | As written: the fatal-error branch never fires, because the checking call turns every failed push into 0. |
| Scopes.LocalFrameEnterIntended | JNIBridge.cpp:375-380 | As intended: the scope aborts iff a call context exists and the push fails. Otherwise "pushed" holds exactly when the depth grew by one. |
| Scopes.LocalFrameIntendedBalanced | JNIBridge.cpp:375-385 | As intended: leaving the scope restores the frame depth on every thread, whatever its error record. |
| HandleRef.NewRef | APIHelper.h:46-50 | A fresh counter is seeded at 1. A null object issues no `Alloc` and stores null. A non-null object issues exactly one `Alloc` and stores its result. Nothing is freed. |
| HandleRef.CopyRef | APIHelper.h:67-71 | Copying shares the counter and raises its count by exactly 1. Every other counter, and the alloc and free logs, are unchanged. |
| HandleRef.Free | APIHelper.h:8-19 | A null handle is not freed. A non-null one is logged as released once. It leaves its own allocator's table only when the gated delete (JNIBridge.cpp:264-277) reaches the host; otherwise it stays there and is marked leaked. |
| HandleRef.DropRef | APIHelper.h:73-80 | The count drops by 1. The counter is deleted exactly when its count reaches 0, releasing a non-null handle once and a null one never. A release that cannot reach the host leaks its handle. Other counters are unchanged. |
| HandleRef.AssignRef | APIHelper.h:31-40 | Assigning a Ref that already shares the counter changes nothing. Otherwise the old counter is released and the new one acquired. |
| HandleRef.SelfAssignGuardNeeded | APIHelper.h:31-40 | Without the same-counter check, self-assignment of a sole Ref would delete its counter; with the check it changes nothing. |
| HandleRef.NewPreservesInv | APIHelper.h:26 | Construction keeps the invariant: counts equal the live Refs, every live global reference belongs to exactly one counter or has leaked, and every allocated handle is held or was released once. |
| HandleRef.CopyPreservesInv | APIHelper.h:27 | Copy construction keeps the invariant. |
| HandleRef.DropPreservesInv | APIHelper.h:28 | Destruction keeps the invariant, whether or not its release reaches the host, and the destroyed Ref's counter has a positive count beforehand. |
| HandleRef.StepPreservesInv | APIHelper.h:22-84 | Every enabled operation on Refs keeps the invariant. |
| HandleRef.RunKeepsInv | APIHelper.h:22-84 | Any trace of enabled operations keeps the invariant. |
| HandleRef.RunLeaksOnlySkipped | JNIBridge.cpp:264-277 | A trace in which every release reaches the host leaks nothing. |
| HandleRef.SkippedReleaseLeaks | JNIBridge.cpp:264-277 | A strong Ref constructed and then destroyed without a call context leaves its global reference in the host's table, marked leaked. |
| HandleRef.RunReleasesExactlyOnce | APIHelper.h:46-56 | From an empty heap, once the last Ref is gone no counter remains. Every handle `Alloc` returned was released exactly once, and nothing else was. The host's tables hold exactly the leaked handles, so none at all when every release reached the host. |
| TypeHandle.NewClass | APIHelper.cpp:9-13 | The constructor copies the name into a fresh buffer that no other Class owns. Its Ref starts at count 1, and a null class issues no `Alloc`. |
| TypeHandle.DeleteClass | APIHelper.cpp:15-18 | The destructor frees exactly its own name buffer, appends it to the free log and leaves every other buffer alone. Its Ref member is dropped, with the release gated as for any Ref. |
| TypeHandle.ClassNameLifetime | APIHelper.cpp:9-18 | A Class holds exactly the name it was given. Over its lifetime the name buffers end as they began, and its own copy is freed exactly once. |
| TypeHandle.Resolve | APIHelper.h:93-99 | A cached non-null handle is returned without a lookup. Otherwise `FindClass` runs and its result is stored; the result is non-null only when the class was found and referenced. |
| TypeHandle.CachedNeverLooksUp | APIHelper.h:93-99 | Once resolved, a Class answers every later use from its cache with no lookup. |
| TypeHandle.LookupsUntilFirstSuccess | APIHelper.h:93-99 | Starting unresolved, a Class looks its name up on every use up to and including the first success, and never after it: a null result is retried. |
| TypeHandle.ArrayLength | APIHelper.h:142 | A null array has length 0 and makes no host call. A non-null array asks the host. |
| TypeHandle.ArrayElement | APIHelper.h:168-174 | The element of a null array is 0 and makes no host call. A non-null array yields the region the host copied, or 0 when it copied nothing. |
| Registry.Add | Proxy.h:33-36 | Adding puts a new node at the head and keeps the rest of the list. |
| Registry.IndexOf | Proxy.h:40-46 | The walk stops at the first node holding the element, or at the end iff the element is absent. |
| Registry.RemoveFirst | Proxy.h:38-56 | Removing an absent element changes nothing, and removing a present one shortens the list by one. |
| Registry.RemoveFirstSplice | Proxy.h:48-55 | Removal splices out exactly the node at the first index holding the element and keeps the others in order. |
| Registry.RemoveFirstBag | Proxy.cpp:128-148 | As a bag, removal takes away exactly one occurrence of the element. |
| Registry.RemoveFirstNoDup | Proxy.cpp:128-148 | On a list tracking each element once, removal keeps that property and untracks exactly the removed element. |
| Registry.Remove | LinkedList.h:33-53 | The walk with a current and a previous node computes exactly `RemoveFirst`. |
| Registry.RemoveUndoesAdd | ListOfCleanables.cpp:19-46 | Removing what was just added gives the list back. |
| Registry.RemoveDropsOneOccurrence | ListOfCleanables.cpp:26-46 | Removal drops one node holding the element, leaves the count of every other element unchanged, and fully untracks an element tracked once. |
| Registry.CleanupAll | LinkedList.h:55-68 | Whatever each cleanup does to the list, exactly the detached elements are cleaned, once each, head to tail. Each cleanup finds the list as the earlier cleanups left it. When no cleanup lengthens the list, every cleanup finds it empty and it ends empty. |
| Registry.TeardownByStopTrackingEndsEmpty | Proxy.cpp:150-163 | In the proxy teardown every cleanup is a destructor that stops tracking its element, and the list stays empty throughout. |
| ExpandingArray.Init | ExpandingArray.h:8-16 | A new array has capacity 32 and no elements. |
| ExpandingArray.Expand | ExpandingArray.h:82-93 | Expanding doubles the capacity and keeps every existing slot, and so the contents. |
| ExpandingArray.Add | ExpandingArray.h:24-34 | The element goes to index `count` and the count grows by one. A full array doubles first. The contents become the old contents plus the element. |
| ExpandingArray.LastIndex | ExpandingArray.h:38-48 | The search finds the highest index holding the element, or -1 iff the element is absent. |
| ExpandingArray.Remove | ExpandingArray.h:36-50 | Removing an absent element changes nothing. Removing a present one lowers the count by one and keeps the capacity and validity. |
| ExpandingArray.RemoveIsBagMinusOne | ExpandingArray.h:36-50 | As a bag, the contents lose exactly one occurrence of the removed element. |
| ExpandingArray.AddThenRemove | ExpandingArray.h:24-50 | Removing what was just added restores the contents as a bag. |
| ExpandingArray.Clear | ExpandingArray.h:52-58 | Clearing empties the contents and keeps the capacity. |
| ExpandingArray.GetCount | ExpandingArray.h:60-66 | The count is the number of elements in use. |
| ExpandingArray.Get | ExpandingArray.h:68-74 | Indexing an element in use reads that element. There is no bounds check, so the index must be below the count. |
| ExpandingArray.FindLast | ExpandingArray.h:38-48 | The downward search loop over the array finds exactly `LastIndex`. |
| ExpandingArray.LastIndexIsUnique | ExpandingArray.h:38-48 | The last index is the only index holding the element with none after it. |
| ExpandingArrayClass.Array.GetCount | ExpandingArray.h:60-66 | The imperative `GetCount` returns the model's count. |
| ExpandingArrayClass.Array.Get | ExpandingArray.h:68-74 | The imperative `operator[]` returns the model's element. |
| Dispatch.ToString | Proxy.cpp:49-52 | Always the string "<native proxy object>". |
| Dispatch.Equals | Proxy.cpp:44-47 | True iff the argument is the proxy's own stub. |
| Dispatch.HashCode | Proxy.cpp:39-42 | The identity hash of the proxy's stub. |
| Dispatch.ObjectAnswerAnyClass | APIHelper.cpp:82-97 | The earlier built-in probe answers iff the method is hashCode, equals or toString, checked in that order, each with its own answer. |
| Dispatch.ObjectAnswer | Proxy.cpp:71-90 | The built-in probe declines any call whose interface is not `java.lang.Object`, and otherwise answers as the earlier probe. |
| Dispatch.TryInvoke | Proxy.cpp:71-75 | A probe declines without writing once `success` is set. Otherwise it succeeds iff it recognises the call, and then writes its answer and sets `success`. |
| Dispatch.FirstAnswering | Proxy.h:106-111 | The first probe in evaluation order that recognises the call: none before it does. |
| Dispatch.AnsweredSlotIsFinal | Proxy.h:106-111 | An answered slot passes through every probe untouched. |
| Dispatch.RunProbes | Proxy.h:106-111 | Running the probes in any order writes the slot at most once. A write happens only into an unanswered slot, and leaves it answered. Without a write the slot is unchanged, and an answered slot is never touched. |
| Dispatch.AtMostOneWriter | Proxy.h:106-111 | For any evaluation order, at most one probe writes. The call succeeds iff some probe recognises it, with the answer of the first that does. |
| Dispatch.SuccessIffSomeProbeAnswers | Proxy.h:106-111 | For every permutation of the probes, success means that some probe recognises the call. |
| Dispatch.OrderIndependentWhenUnique | Proxy.h:106-111 | When at most one probe recognises a call, the result does not depend on the evaluation order. |
| Dispatch.Invoke | Proxy.cpp:54-64 | The dispatch decision of `__Invoke`, with the throw taken to reach the host: `NoSuchMethodError` with the given message iff no probe recognises the call, and otherwise an answer of some recognising probe. |
| Dispatch.RaiseNoSuchMethod | Proxy.cpp:59-60 | The error path raises `NoSuchMethodError` exactly when all four gated steps open: `ToReflectedMethod`, `toString`, `c_str` and `ThrowNew` (JNIBridge.cpp:239-242). The first two each include the checking `NewGlobalRef` of the `jni::Object` holding their result. Otherwise the exception left pending was already pending, or an earlier step raised it. |
| Dispatch.InvokeOn | Proxy.cpp:54-64 | On a thread, an answered call returns the probe's value and changes nothing. An unanswered one returns no value, the uninitialised `result`. It leaves `NoSuchMethodError` pending only when every gate of the error path opens. |
| Dispatch.PendingExceptionSuppressesNoSuchMethod | Proxy.cpp:59-60 | When nothing answers and an exception is already pending, the error path raises nothing. The earlier exception stays pending, and Java gets the uninitialised result. |
| Dispatch.NullMessageRaisesNothing | JNIBridge.cpp:239-242 | When `toString` yields null, `ThrowNew`'s parameter check only records INVALID_PARAMETERS. Java gets the uninitialised result with no exception pending. |
| Dispatch.ObjectMethodsAlwaysAnswered | Proxy.cpp:80-89 | A call of Object's hashCode, equals or toString on `java.lang.Object` always returns a value. |
| Dispatch.ClassCheckNarrowsBuiltinProbe | Proxy.cpp:76-78 | A toString id on another interface is declined by the Proxy.cpp probe, but answered by the earlier probe without the class check. |
| InterfaceProxy.NewInterfaceProxy | JNIBridge.java:10-13 | A proxy for exactly the one interface given, whose handler holds the given pointer. |
| InterfaceProxy.Invoke | JNIBridge.java:27-35 | A handler calls native `invoke` with its pointer iff the pointer is set. A disabled one returns null. |
| InterfaceProxy.Finalize | JNIBridge.java:37-45 | A handler calls native `delete` with its pointer iff the pointer is set. |
| InterfaceProxy.Disable | JNIBridge.java:47-53 | `disable` clears the pointer. |
| InterfaceProxy.DisableInterfaceProxy | JNIBridge.java:15-18 | The proxy keeps its interfaces and its handler is disabled. |
| InterfaceProxy.DisabledIsTerminal | JNIBridge.java:20-54 | A disabled handler stays disabled and makes no native call, whatever is called on it. |
| InterfaceProxy.CallsCarryPointer | JNIBridge.java:20-54 | Every native call a handler makes carries the pointer it was built with. |
| InterfaceProxy.NoNativeCallAfterDisable | JNIBridge.java:20-54 | After the first `disable`, no further native call is made and the handler ends disabled. |
| ProxyLifecycle.StrategyOf | Proxy.h:116-117 | `Proxy` holds its stub through a global reference and `WeakProxy` through a weak one. |
| ProxyLifecycle.Construct | Proxy.h:91-94 | The constructor creates the stub, with a handler holding the new proxy, before it starts tracking, and tracking prepends the proxy. |
| ProxyLifecycle.Destroy | Proxy.h:96-100 | The destructor untracks the proxy and frees it. It clears the stub's handler only when the gated disable call (Proxy.cpp:100-104) runs; otherwise every handler is left as it was. |
| ProxyLifecycle.DestroySteps | Proxy.h:96-100 | The destructor logs untrack, then disable when it runs, then release of the stub with the proxy's own strength, once each. |
| ProxyLifecycle.DestroyKeepsWf | Proxy.h:96-100 | Destroying a live proxy keeps the facts outside the tracker list, whether or not the disable ran. A handler left enabled then points at a destroyed proxy. |
| ProxyLifecycle.DestroyKeepsInv | Proxy.cpp:128-148 | Destroying a tracked proxy keeps the invariant and untracks it, whether or not the disable ran. |
| ProxyLifecycle.DestroyKeepsNoDangling | Proxy.h:96-100 | A destroy whose disable runs leaves no handler pointing at a destroyed proxy. |
| ProxyLifecycle.DestroySkippedDisableDangles | Proxy.cpp:100-104 | A destroy whose disable is skipped leaves the stub enabled with the freed proxy's address, and the next call on it is dispatched there. |
| ProxyLifecycle.CallStub | Proxy.cpp:9-14 | A call on a stub returns null iff its handler is disabled. Otherwise it reaches the proxy that owns the stub, or a destroyed one. With no dangling handler it always reaches a live proxy. |
| ProxyLifecycle.FinalizeStub | Proxy.cpp:16-19 | Finalising a stub runs the destructor of its proxy iff the handler points at a live proxy, and the stub is gone afterwards. No handler is left dangling by it, even when the disable is skipped. |
| ProxyLifecycle.FinalizeDestroys | JNIBridge.java:37-45 | The destroy run by a finalize keeps the invariant. The only handler a skipped disable could leave dangling is the one being finalised. |
| ProxyLifecycle.TeardownStep | Proxy.cpp:150-163 | During teardown, each destructor finds an empty tracker list and destroys exactly the next detached proxy. |
| ProxyLifecycle.DestroyEach | Proxy.cpp:155-161 | The teardown loop destroys every detached proxy once, in list order, and no native proxy remains. When the disables do not run, no handler changes. |
| ProxyLifecycle.DestroyEachKeepsWf | Proxy.cpp:155-161 | The teardown keeps the facts outside the list. It leaves no handler dangling when every disable runs. |
| ProxyLifecycle.DeleteAllProxies | Proxy.cpp:150-163 | The list is detached first, and every tracked proxy is destroyed exactly once, in list order. Every handler ends disabled when the disables run. When they do not, every handler keeps pointing at its destroyed proxy. |
| ProxyLifecycle.NoCallReachesDestroyedProxy | Proxy.cpp:9-19 | Along any history in which every disable started by native code runs, no Java call or finalisation reaches a destroyed native proxy, and no proxy is destroyed twice. |
| ProxyLifecycle.RunOnlyReachesLive | Proxy.cpp:9-19 | From any state with the invariant and no dangling handler, a history whose native-started disables all run reaches only live proxies. |
| ProxyLifecycle.SkippedDisableThenCall | Proxy.cpp:100-104 | Native code deletes a strong proxy while its disable cannot run. The next Java call on the stub reaches the freed proxy. |
| ProxyLifecycle.SkippedDisableThenFinalize | Proxy.cpp:100-104 | `DeleteAllProxies` destroys a weak proxy while no disable can run. The collector's finalize of the stub then deletes the freed proxy a second time. |
| NativeSignatures.Find | Proxy.cpp:35 | The JVM resolves an entry to a declaration with the same name and descriptor, and finds none iff no declaration matches. |
| NativeSignatures.Register | Proxy.cpp:21-37 | `__Register` reports success iff no error was recorded on entry and, when a VM exists, a call context is obtainable, no exception is pending, and neither the frame push nor the class lookup raises. A failed registration is not gated, so it does not change the result. |
| NativeSignatures.ResolveClass | APIHelper.h:93-99 | A fresh `jni::Class` yields a non-null class only when FindClass finds it and the Ref's NewGlobalRef pins it, neither raising. On a clean thread with a context it always does. The local frames are untouched. |
| NativeSignatures.RegisterFailsOnPendingException | Proxy.cpp:23-36 | With a call context and an exception pending on entry, the frame push records EXCEPTION_THROWN. `__Register` then returns false, and `CheckError` leaves the thread with no error, nothing pending and no frame pushed. |
| NativeSignatures.RegisterOnCleanThread | Proxy.cpp:23-36 | On a clean thread whose host finds the class, `__Register` returns true and the frame is popped again. A failed registration leaves its NoSuchMethodError pending. The destructors' post-call check (JNIBridge.cpp:264-267, 36-39) then records EXCEPTION_THROWN after the result was read. |
| NativeSignatures.GetStaticMethodId | APIHelper.cpp:103 | The lookup yields a non-zero id iff the gate opens and a declaration matches. |
| NativeSignatures.NewInstance | Proxy.cpp:92-98 | The result is null or the stub Java returned. It is the stub when the gate opens and `newInterfaceProxy` is declared with the looked-up descriptor. It is null when either fails. |
| NativeSignatures.AsWrittenMismatch | JNIBridge.java:7-13 | As written, the Java declarations match the table of APIHelper.cpp but not the `invoke` of Proxy.cpp, and the `newInterfaceProxy` lookup finds nothing. |
| NativeSignatures.AsWrittenNewInstanceIsNull | Proxy.cpp:92-98 | As written, registration reports success but leaves its exception pending and EXCEPTION_THROWN recorded. `NewInstance` yields a null proxy and records an exception. |
| NativeSignatures.CorrectedMatches | Proxy.cpp:21-37 | With declarations matching Proxy.cpp, the native table registers and both static lookups succeed. |
| NativeSignatures.CorrectedNewInstanceReturnsStub | Proxy.cpp:92-98 | With the corrected declarations, registration succeeds and leaves no error and nothing pending, and `NewInstance` returns the proxy the Java helper built. |
| Descriptors.PrimLetter | APIGenerator.java:210-218 | Each primitive maps to one of the letters B, S, I, J, F, D, C, Z and V. |
| Descriptors.PrimLetterInjective | APIGenerator.java:210-218 | Distinct primitives get distinct letters. |
| Descriptors.Signature | APIGenerator.java:202-222 | A null class is "V"; anything else gets its field descriptor. |
| Descriptors.SignatureOf | APIGenerator.java:204-221 | A descriptor is never empty. It is one letter exactly for a primitive, starts with "[" exactly for an array, and is "L...;" for a class. |
| Descriptors.Signatures | APIGenerator.java:224-230 | The concatenated descriptors are at least one character per type, and empty exactly for no types. |
| Descriptors.SignaturesSnoc | APIGenerator.java:224-230 | The parameter descriptors are concatenated in order, one per parameter. |
| Descriptors.MethodSignature | APIGenerator.java:232-235 | A method descriptor starts with "(" and is never shorter than "()V". |
| Descriptors.ConstructorSignature | APIGenerator.java:237-240 | A constructor's descriptor is the method descriptor with a void return, so it ends in ")V". |
| Descriptors.ParseSignatureOf | APIGenerator.java:202-222 | A field descriptor ("[" for arrays, a letter for primitives, "L" + internal name + ";" for classes) decodes back to its type, whatever follows it. |
| Descriptors.SignatureOfInjective | APIGenerator.java:202-222 | Distinct types whose names contain neither '/' nor ';' have distinct descriptors. |
| Descriptors.ParseMethodSignature | APIGenerator.java:232-235 | A method descriptor decodes back to its parameter and return types. |
| Mangling.Unreserve | APIGenerator.java:140-141 | The loop prefixes 'x' until the name is no keyword, and leaves a non-keyword unchanged. |
| Mangling.Safe | APIGenerator.java:136-143 | The result is some 'x's followed by the name, and never a keyword. It equals the name iff the name is neither the class's simple name nor a keyword. |
| Mangling.SafeIdempotent | APIGenerator.java:136-143 | Without a class name, mangling twice is mangling once. |
| Mangling.SafeMergesNames | APIGenerator.java:136-143 | Mangling is not injective: "asm" and "xasm" both become "xasm". |
| Mangling.ToUpper | APIGenerator.java:157-162 | ASCII lower-case letters are upper-cased and every other character is kept. |
| Mangling.Capitalize | APIGenerator.java:157-162 | Only the first character changes, to its upper-case form, and the length is kept. |
| Mangling.CapitalizeIdempotent | APIGenerator.java:157-162 | Capitalising twice is capitalising once. |
| Mangling.MethodName | APIGenerator.java:145-149 | The method name is the capitalised Java name with '$' replaced by '_', behind zero or more 'x's. It is never a keyword, and is kept unprefixed when it is neither a keyword nor the owner's name. |
| Mangling.FieldName | APIGenerator.java:151-155 | The field name is "f" plus the capitalised Java name with '$' replaced by '_', behind zero or more 'x's. It is never a keyword, and is kept unprefixed when it is neither a keyword nor the owner's name. |
| Mangling.FieldAndMethodNamesDiffer | APIGenerator.java:145-155 | A generated field accessor never has the name of a generated method accessor, in any class. |
| Mangling.DecimalRoundTrip | APIGenerator.java:335-345 | The decimal form of a parameter index reads back as that index. |
| Mangling.ParameterNames | APIGenerator.java:335-345 | The loop yields "arg0, arg1, ..., arg(n-1)", which is empty iff n is 0. |
| Mangling.ArgNamesDistinct | APIGenerator.java:335-345 | The generated parameter names are pairwise distinct. |
| Dependencies.IsValidCtorExactlyDropsCopy | APIGenerator.java:282-286 | Of the constructors that pass the member check, exactly the copy constructor (one parameter of the class's own type) is dropped. |
| Dependencies.AddIfAbsent | APIGenerator.java:116-134 | Adding to the linked set appends only when absent: the name ends in the set, the old order is a prefix, and no duplicate appears. |
| Dependencies.ChainOkAdd | APIGenerator.java:116-134 | Adding a valid class whose valid superclass is already in the chain keeps the chain well ordered. |
| Dependencies.CollectDirect | APIGenerator.java:116-134 | Arrays are stripped. Only a valid named class is returned; it is then in the chain, superclass first, and the chain only grows and stays well ordered. |
| Dependencies.Collect | APIGenerator.java:73-114 | Collecting from a valid class puts it in the chain and expands it, and the generator's sets only grow. |
| Dependencies.CollectAll | APIGenerator.java:73-114 | Collecting from each type in turn only grows the generator's sets, keeping them sound. |
| Dependencies.Generate | APIGenerator.java:73-134 | From empty sets, the chain has no duplicates and lists every superclass before its subclasses. Each class is expanded at most once, and only after it entered the chain. |
| UtfString.FirstByteZeroIffEmpty | templates/java.lang.String.cpp:56-62 | The first byte of the modified UTF-8 form is 0 exactly for the empty string, because U+0000 is written as two non-zero bytes. |
| UtfString.Fetch | JNIBridge.cpp:328-331 | `GetStringUTFChars` hands out a fresh live buffer iff the string is non-null, the VM can allocate it, a call context is obtainable and no exception is pending. |
| UtfString.DropChars | JNIBridge.cpp:333-336 | A String with no cache releases nothing. With a call context the cached buffer is released and logged, and otherwise it is given up. |
| UtfString.NewString | templates/java.lang.String.cpp:8 | A null C string gives a null String and allocates no string. A new String never has a cache. |
| UtfString.CStr | templates/java.lang.String.cpp:49-54 | `c_str` fetches only for a non-null String without a cache, and otherwise answers the cache unchanged. |
| UtfString.EmptyOrNull | templates/java.lang.String.cpp:56-62 | A null String is empty-or-null with no VM call. Otherwise `c_str` is used. |
| UtfString.Destroy | templates/java.lang.String.cpp:9-14 | The destructor releases a held cache and the String is gone. |
| UtfString.CopyAssign | templates/java.lang.String.cpp:26-37 | Assigning a String over the same object changes nothing. Otherwise the cache is dropped and the other object adopted, with no cache. |
| UtfString.MoveConstruct | templates/java.lang.String.cpp:1-6 | The new String takes the cache and the source keeps none. No buffer is released. |
| UtfString.MoveAssign | templates/java.lang.String.cpp:39-47 | The target takes the source's object and cache and the source keeps none; moving a String onto itself only clears its cache. |
| UtfString.InitialInv | templates/java.lang.String.cpp:1-62 | A world with no Strings satisfies the buffer bookkeeping. |
| UtfString.NewStringKeepsInv | templates/java.lang.String.cpp:8 | Construction keeps the bookkeeping and only extends the history. |
| UtfString.CStrKeepsInv | templates/java.lang.String.cpp:49-54 | `c_str` keeps the bookkeeping and only extends the history. |
| UtfString.EmptyOrNullKeepsInv | templates/java.lang.String.cpp:56-62 | `EmptyOrNull` keeps the bookkeeping and only extends the history. |
| UtfString.DestroyKeepsInv | templates/java.lang.String.cpp:9-14 | Destruction keeps the bookkeeping and only extends the history. |
| UtfString.CopyAssignKeepsInv | templates/java.lang.String.cpp:26-37 | Copy assignment keeps the bookkeeping and only extends the history. |
| UtfString.MoveConstructKeepsInv | templates/java.lang.String.cpp:1-6 | Move construction keeps the bookkeeping: the moved buffer is cached by exactly one String. |
| UtfString.MoveAssignKeepsInv | templates/java.lang.String.cpp:39-47 | Move assignment keeps the bookkeeping, self-moves included. |
| UtfString.CStrCaches | templates/java.lang.String.cpp:49-54 | Once `c_str` has answered a buffer, or the String is null, calling it again answers the same thing with no VM call. |
| UtfString.CStrContents | templates/java.lang.String.cpp:49-54 | The pointer `c_str` answers is live, never released, and holds the String's text. |
| UtfString.EmptyOrNullIff | templates/java.lang.String.cpp:56-62 | True exactly when the String is null, its characters could not be had, or its text is empty. |
| UtfString.SelfMoveReleasesOnce | templates/java.lang.String.cpp:39-47 | Moving a String onto itself releases its buffer exactly once and leaves it holding none. |
| UtfString.StepKeepsInv | templates/java.lang.String.cpp:1-62 | Every String operation keeps the bookkeeping and only extends the history. |
| UtfString.RunKeepsInv | templates/java.lang.String.cpp:1-62 | Any sequence of String operations keeps the bookkeeping. |
| UtfString.ReleasedAtMostOnce | templates/java.lang.String.cpp:1-62 | Whatever a program does with its Strings, no buffer is released twice and no String holds a released buffer. |
| UtfString.StepNoLeak | templates/java.lang.String.cpp:1-62 | While a call context can be had, no operation gives a buffer up unreleased. |
| UtfString.RunNoLeak | templates/java.lang.String.cpp:1-62 | While a call context can be had, no sequence of operations gives a buffer up unreleased. |
| UtfString.ExactlyOnce | templates/java.lang.String.cpp:1-62 | A program that runs with a call context and ends with all its Strings destroyed has released every buffer it was handed exactly once. |

## Left out

- Concurrency: the `__sync_*` counter updates, pthread mutexes, TLS and Java `synchronized` blocks. Every operation is modelled as one sequential step.
- The JVM itself (`FindClass`, `NewGlobalRef`, `RegisterNatives`, `Throw`, `GetStringUTFChars`, reflection). Each is an abstract state change or a parameter: the host value, the exception, whether allocation succeeds.
- The conversion of an exception to a string and the deliberate crash inside `CheckForExceptionError` (JNIBridge.cpp:149-166). An exception's description is a given string, and the exception stays pending.
- The `MethodOps`, `FieldOps`, `FloatFieldOps` and `ArrayOps` templates of JNIBridge.h beyond the gating macros and `Op<jvoid>`. They are per-type plumbing over the same gates, some with floating point.
- Array `Lock`/`Release`/critical locking (APIHelper.h:176-231): malloc and placement new over raw memory.
- The generated wrappers in templates/android.*: one method-id lookup plus one call per method, with no logic of their own.
- APIGenerator I/O: `main`, jar scanning, printing and template reading. Classes are an abstract `ClassDecl` universe.
- test/Test.cpp: it needs a live JVM.
- Static caching of method ids in `__TryInvoke`, `NewInstance` and `DisableInstance`. The ids are parameters (`Dispatch.ObjectIds`, one lookup per call).
- The generated per-interface `__TryInvoke` probes are not part of this model. They are arbitrary probes with the shape of the built-in one.
- Proxy.cpp:56: `result` is left uninitialised when nothing matches, and Java receives it whether or not the throw happened. The model gives no value for it (`InvokeOn` answers None); what that garbage holds is not modelled.
- Dispatch.Invoke: takes the `NoSuchMethodError` to reach the host; the gates that can stop it are modelled in `Dispatch.InvokeOn` and `RaiseNoSuchMethod`, not in `Invoke`.
- Dispatch.RaiseNoSuchMethod: the body of `ToReflectedMethod` is not part of this model. It is taken to be a checking JNI_CALL_RETURN on `clazz && methodID`, like `GetMethodID` (JNIBridge.cpp:289-292). The lookups of the `Method.toString` id and of the NoSuchMethodError class are parameters. The probes' own host calls are not modelled; the thread is taken as they leave it.
- ExpandingArray.Add: `count` and `maxSize` are unbounded integers, so 32-bit overflow after 2^31 elements is not modelled.
- ExpandingArrayClass: its mutating methods state their effect through `old()` against the functional model, and only `GetCount` and `Get` are listed above.
- JniErrors.SetError: requires a message shorter than 256 characters. `GetErrorMessage` and `SetError` copy with `strcpy` into a 256-byte buffer, and every message the bridge passes is shorter; a longer one would overflow.
- Mangling.Capitalize: requires a non-empty name, as do MethodName and FieldName. `capitalize` throws on an empty string, and Java identifiers are never empty.
- Mangling.ToUpper: covers ASCII letters only, not `Character.toUpperCase` on all of Unicode.
- Scopes.PopLocalFrame: the host's behaviour on popping an empty frame stack is not modelled; the depth stays 0.
- UtfString: a String's object is a plain id. Sharing of the underlying `Ref` is modelled separately in `HandleRef`.
- UtfString.NewString: `NewStringUTF`'s decoding of modified UTF-8 is abstract. The C string is given as the characters it decodes to.
- LinkedList.h, ListOfCleanables.cpp and both ProxyTracker versions share the one sequence model in `Registry`, since their list logic is the same.
- The `ProxyTracker` rows of Proxy.h and Proxy.cpp differ only in locking, which is left out above.
- NativeSignatures.Register: the name buffer of its `jni::Class` is left out here, since `TypeHandle` models it. So is the local reference FindClass returns, which the frame pop frees. The ungated `GetEnv()` runs only after the class resolved, when a call context exists.
- ProxyLifecycle.Construct: assumes `NewInstance` returns a stub, which holds only with the corrected declarations and an open gate. The null stub the as-written declarations give is shown in `NativeSignatures`; proxies holding a null stub are not modelled.
- ProxyLifecycle.DeleteAllProxies: one flag says whether the disables run, for every destructor of the teardown alike. A teardown in which only some disables run is not modelled.

## Findings

| source | as written | input that shows it | evidently intended | confidence | as-written member | corrected member |
|---|---|---|---|---|---|---|
| JNIBridge.cpp:379 | `LocalFrame` remembers that it pushed only when no error is recorded after the push. | An attached thread whose error record already holds an error, with no exception pending, and a push that succeeds: the frame is pushed but the destructor never pops it. | Remember whether the push itself succeeded, so every pushed frame is popped. | not executed | Scopes.LocalFrameLeaksUnderStickyError | Scopes.LocalFrameIntendedBalanced |
| JNIBridge.cpp:377-378 | The fatal error fires when `PushLocalFrame` returns a negative value, but the push goes through a checking returning call. | A push that fails with a negative value and raises `OutOfMemoryError`: the call yields 0, so the process is not aborted and runs on without a frame. | Abort whenever the push fails. | not executed | Scopes.LocalFrameNeverAborts | Scopes.LocalFrameEnterIntended |
| JNIBridge.java:7-13 | Declares native `invoke(long, Method, Object[])`, the signature of the earlier APIHelper.cpp, and `newInterfaceProxy(long, Class)`, which neither native file looks up: APIHelper.cpp:103 and Proxy.cpp:96 both ask for `(J[Ljava/lang/Class;)Ljava/lang/Object;`. | `__Register` of Proxy.cpp on a clean attached thread: `RegisterNatives` of the four-argument `invoke` fails, but `__Register` still reports success, and `NewInstance`'s lookup of `(J[Ljava/lang/Class;)Ljava/lang/Object;` finds nothing, so every proxy is null. | Declarations `invoke(long, Class, Method, Object[])` and `newInterfaceProxy(long, Class[])`, matching Proxy.cpp:26 and Proxy.cpp:96. | not executed | NativeSignatures.AsWrittenNewInstanceIsNull | NativeSignatures.CorrectedNewInstanceReturnsStub |
| Proxy.h:96-100 | The destructor clears the stub's handler through `DisableInstance` (Proxy.cpp:100-104), a gated void call that is skipped with no call context, with an exception pending, or with a null method id, and then the proxy is freed. | `DeleteAllProxies` while no disable can run, then the collector finalising a weak proxy's stub: the stub still holds the freed proxy's address and `delete` runs on it a second time. The same holds for a Java call after a native delete. | The handler is always cleared before the proxy is freed, so no call or finalisation reaches a freed proxy. | not executed | ProxyLifecycle.SkippedDisableThenFinalize | ProxyLifecycle.NoCallReachesDestroyedProxy |
