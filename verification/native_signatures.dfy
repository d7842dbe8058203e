/** The contract between the Java class bitter.jnibridge.JNIBridge and the
    native side: the descriptors under which the native side registers its
    `invoke` and `delete` implementations (RegisterNatives) and looks up the
    static helpers `newInterfaceProxy` and `disableInterfaceProxy`
    (GetStaticMethodID). The JVM resolves both by name and descriptor,
    where a Java declaration's descriptor is the one of section 4.3.3 of
    the Java Virtual Machine Specification. */
module NativeSignatures {
  import opened Common
  import opened Descriptors
  import opened JniErrors
  import opened JniCall
  import Scopes

  /** A static method of JNIBridge as the Java source declares it. */
  datatype JavaMethod = JavaMethod(name: string, params: seq<JType>, ret: JType, isNative: bool)

  /** The descriptor the JVM derives from a declaration. */
  function DescriptorOf(m: JavaMethod): string {
    MethodSignature(m.params, m.ret)
  }

  /** One entry of a JNINativeMethod table, or one method-id lookup. */
  datatype NativeEntry = NativeEntry(name: string, descriptor: string)

  const JLong := Prim(Long)
  const JVoid := Prim(Void)
  const JObject := Named("java.lang.Object")
  const JClass := Named("java.lang.Class")
  const JMethod := Named("java.lang.reflect.Method")

  /** JNIBridge.java as written: invoke(long, Method, Object[]),
      delete(long), newInterfaceProxy(long, Class) and
      disableInterfaceProxy(Object). */
  const DeclaredAsWritten: seq<JavaMethod> := [
    JavaMethod("invoke", [JLong, JMethod, ArrayOf(JObject)], JObject, true),
    JavaMethod("delete", [JLong], JVoid, true),
    JavaMethod("newInterfaceProxy", [JLong, JClass], JObject, false),
    JavaMethod("disableInterfaceProxy", [JObject], JVoid, false)
  ]

  /** The declarations the native side of Proxy.cpp expects: invoke also
      receives the interface class, and newInterfaceProxy receives an array
      of interfaces. */
  const DeclaredCorrected: seq<JavaMethod> := [
    JavaMethod("invoke", [JLong, JClass, JMethod, ArrayOf(JObject)], JObject, true),
    JavaMethod("delete", [JLong], JVoid, true),
    JavaMethod("newInterfaceProxy", [JLong, ArrayOf(JClass)], JObject, false),
    JavaMethod("disableInterfaceProxy", [JObject], JVoid, false)
  ]

  /** The native table of Proxy.cpp. */
  const ProxyNatives: seq<NativeEntry> := [
    NativeEntry("invoke", "(JLjava/lang/Class;Ljava/lang/reflect/Method;[Ljava/lang/Object;)Ljava/lang/Object;"),
    NativeEntry("delete", "(J)V")
  ]

  /** The native table of APIHelper.cpp, the earlier native side: its
      invoke receives no interface class. */
  const ApiHelperNatives: seq<NativeEntry> := [
    NativeEntry("invoke", "(JLjava/lang/reflect/Method;[Ljava/lang/Object;)Ljava/lang/Object;"),
    NativeEntry("delete", "(J)V")
  ]

  /** The lookup of ProxyObject::NewInstance, the same in both files. */
  const NewProxyLookup := NativeEntry("newInterfaceProxy", "(J[Ljava/lang/Class;)Ljava/lang/Object;")

  /** The lookup of ProxyObject::DisableInstance, the same in both files. */
  const DisableLookup := NativeEntry("disableInterfaceProxy", "(Ljava/lang/Object;)V")

  /** The declaration an entry names, by name and descriptor; -1 if none. */
  function Find(decls: seq<JavaMethod>, e: NativeEntry): (i: int)
    ensures -1 <= i < |decls|
    ensures i >= 0 ==> decls[i].name == e.name && DescriptorOf(decls[i]) == e.descriptor
    ensures i == -1 <==> forall j :: 0 <= j < |decls| ==>
      decls[j].name != e.name || DescriptorOf(decls[j]) != e.descriptor
    decreases |decls|
  {
    if |decls| == 0 then -1
    else if decls[0].name == e.name && DescriptorOf(decls[0]) == e.descriptor then 0
    else
      var k := Find(decls[1..], e);
      if k < 0 then -1 else k + 1
  }

  /** RegisterNatives succeeds iff every entry names a native declaration. */
  predicate RegistersAll(decls: seq<JavaMethod>, entries: seq<NativeEntry>) {
    forall k :: 0 <= k < |entries| ==>
      Find(decls, entries[k]) >= 0 && decls[Find(decls, entries[k])].isNative
  }

  /** What the host does during `__Register`: whether the LocalFrame's push
      succeeds (and the exception a failed push raises), then what FindClass
      (`found`) and the class Ref's NewGlobalRef (`pinned`) return and
      raise. Neither touches the local frames. */
  datatype RegisterHost = RegisterHost(pushOk: bool, oom: Throwable, found: int, findRaises: Option<Throwable>,
                                       pinned: int, pinRaises: Option<Throwable>)

  /** No host step of the frame push or the class lookup raises. */
  predicate HostRaisesNothing(host: RegisterHost) {
    host.pushOk && host.findRaises.None? && (host.found != 0 ==> host.pinRaises.None?)
  }

  /** The class is found and pinned by a global reference. */
  predicate ClassResolves(host: RegisterHost) {
    host.found != 0 && host.pinned != 0
  }

  /** The failure value the host's PushLocalFrame returns; a checking call
      turns it into 0, so its value never matters. */
  const PushFailValue := -1

  /** The conversion of a fresh `jni::Class` to jclass (APIHelper.h:93-99):
      a checking FindClass, then for a found class the checking
      NewGlobalRef of the Ref it is stored in (APIHelper.h:46-50). */
  function ResolveClass(t: ThreadState, host: RegisterHost): (r: (ThreadState, int))
    ensures r.1 != 0 ==> host.found != 0 && host.findRaises.None?
    ensures r.1 != 0 ==> r.1 == host.pinned && host.pinRaises.None?
    ensures r.0.frameDepth == t.frameDepth
    ensures && HasEnv(t) && t.pending.None? && ClassResolves(host)
            && host.findRaises.None? && host.pinRaises.None?
            ==> r.1 != 0
  {
    var (t1, local) := CallReturn(t, true, true, HostCall(host.found, host.findRaises, NoFrame));
    if local == 0 then (t1, 0) else CallReturn(t1, true, true, HostCall(host.pinned, host.pinRaises, NoFrame))
  }

  /** The destructors of `__Register`'s locals, in reverse order: `~Class`
      drops the Ref holding the class, whose non-checking DeleteGlobalRef
      (JNIBridge.cpp:264-267) runs only for a non-null class, then
      `~LocalFrame` pops a frame it remembers pushing. */
  function RegisterCleanup(t: ThreadState, cls: int, framePushed: bool): (r: ThreadState)
  {
    var t1 := if cls != 0 then Call(t, true, false, HostCall(0, None, NoFrame)).0 else t;
    Scopes.LocalFrameExit(t1, framePushed)
  }

  /** ProxyInvoker::__Register (Proxy.cpp:21-37): a LocalFrame, a Class for
      JNIBridge, RegisterNatives called directly (not through a gate) when
      the class resolved, so a failure only leaves the JVM's
      NoSuchMethodError (`failure`) pending; the result is read from
      CheckError before the destructors run. Returns the state after the
      destructors and what __Register returns. */
  function Register(t: ThreadState, decls: seq<JavaMethod>, entries: seq<NativeEntry>, host: RegisterHost,
                    failure: Throwable): (r: (ThreadState, bool))
    ensures r.1 ==> PeekError(t) == NoError
    ensures r.1 <==> PeekError(t) == NoError
                     && (t.vmInitialized ==> EnvObtainable(t) && t.pending.None? && HostRaisesNothing(host))
  {
    Scopes.LocalFrameNeverAborts(t, host.pushOk, host.oom, PushFailValue);
    var o := Scopes.LocalFrameEnter(t, host.pushOk, host.oom, PushFailValue);
    var (t1, cls) := ResolveClass(o.t, host);
    var t2 := if cls != 0 && !RegistersAll(decls, entries) then t1.(pending := Some(failure)) else t1;
    var (t3, e) := CheckError(t2);
    (RegisterCleanup(t3, cls, o.framePushed), e == NoError)
  }

  /** An exception pending on entry, while a call context exists, closes the
      frame push's checking gate, which records EXCEPTION_THROWN; the class
      lookup is gated off too, and CheckError then reports the error and
      clears it with the exception. __Register fails and leaves the thread
      clean, with no frame pushed. */
  lemma RegisterFailsOnPendingException(t: ThreadState, decls: seq<JavaMethod>, entries: seq<NativeEntry>,
                                        host: RegisterHost, failure: Throwable)
    requires EnvObtainable(t) && t.pending.Some?
    ensures var r := Register(t, decls, entries, host, failure);
      && !r.1 && r.0.pending == None && PeekError(r.0) == NoError && r.0.frameDepth == t.frameDepth
  {
  }

  /** On a clean thread with a call context whose host raises nothing and
      finds the class, __Register reports success and leaves the frame depth
      as it found it. A registration that fails leaves its exception
      pending; the destructors' post-call check then records
      EXCEPTION_THROWN, after CheckError was read. */
  lemma RegisterOnCleanThread(t: ThreadState, decls: seq<JavaMethod>, entries: seq<NativeEntry>,
                              host: RegisterHost, failure: Throwable)
    requires EnvObtainable(t) && t.pending.None? && PeekError(t) == NoError
    requires HostRaisesNothing(host) && ClassResolves(host)
    ensures var r := Register(t, decls, entries, host, failure);
      && r.1 && r.0.frameDepth == t.frameDepth
      && (RegistersAll(decls, entries) ==> r.0.pending == None && PeekError(r.0) == NoError)
      && (!RegistersAll(decls, entries) ==> r.0.pending == Some(failure) && PeekError(r.0) == Errno.ExceptionThrown)
  {
  }

  /** jni::GetStaticMethodID: a checking gated call; the JVM answers a
      missing method with a null id and a pending NoSuchMethodError
      (`failure`). A found method gets the non-zero id index + 1. */
  function GetStaticMethodId(t: ThreadState, clazz: nat, decls: seq<JavaMethod>, e: NativeEntry, failure: Throwable): (r: (ThreadState, int))
    ensures Gate(t, clazz != 0, true).1 && Find(decls, e) >= 0 ==> r.1 == Find(decls, e) + 1
    ensures Find(decls, e) < 0 ==> r.1 == 0
    ensures !Gate(t, clazz != 0, true).1 ==> r.1 == 0
  {
    var i := Find(decls, e);
    var host := if i >= 0 then HostCall(i + 1, None, NoFrame) else HostCall(0, Some(failure), NoFrame);
    CallReturn(t, clazz != 0, true, host)
  }

  /** ProxyObject::NewInstance: looks up newInterfaceProxy, then calls it
      through Op<jobject>::CallStaticMethod, whose gate requires a non-null
      class and method id. `stub` is what the Java helper returns. */
  function NewInstance(t: ThreadState, clazz: nat, decls: seq<JavaMethod>, stub: nat, failure: Throwable): (r: (ThreadState, int))
    ensures r.1 == 0 || r.1 == stub
    ensures Gate(t, clazz != 0, true).1 && Find(decls, NewProxyLookup) >= 0 ==> r.1 == stub
    ensures !Gate(t, clazz != 0, true).1 || Find(decls, NewProxyLookup) < 0 ==> r.1 == 0
  {
    var (t1, mid) := GetStaticMethodId(t, clazz, decls, NewProxyLookup, failure);
    CallDeclare(t1, clazz != 0 && mid != 0, true, HostCall(stub, None, NoFrame))
  }

  // ---------------------------------------------------------------------
  // Spelling out the descriptors. The lemmas below each compute one
  // descriptor or one concatenation step. They exist only to keep each
  // proof obligation small: evaluated in one piece, the string
  // concatenations of a whole method descriptor overwhelm the solver.
  // ---------------------------------------------------------------------

  lemma SignatureOfLong()
    ensures SignatureOf(JLong) == "J"
  {
  }

  lemma SignatureOfObject()
    ensures SignatureOf(JObject) == "Ljava/lang/Object;"
    ensures SignatureOf(ArrayOf(JObject)) == "[Ljava/lang/Object;"
  {
    NamedObject();
    assert "[" + "Ljava/lang/Object;" == "[Ljava/lang/Object;";
  }

  lemma NamedObject()
    ensures SignatureOf(JObject) == "Ljava/lang/Object;"
  {
  }

  lemma SignatureOfClass()
    ensures SignatureOf(JClass) == "Ljava/lang/Class;"
    ensures SignatureOf(ArrayOf(JClass)) == "[Ljava/lang/Class;"
  {
    NamedClass();
    assert "[" + "Ljava/lang/Class;" == "[Ljava/lang/Class;";
  }

  lemma NamedClass()
    ensures SignatureOf(JClass) == "Ljava/lang/Class;"
  {
  }

  lemma SignatureOfMethod()
    ensures SignatureOf(JMethod) == "Ljava/lang/reflect/Method;"
  {
  }

  /** The opening "(" + parameter descriptors of a method descriptor grows
      by one parameter's descriptor at a time. */
  lemma Append(ps: seq<JType>, t: JType, qs: seq<JType>, open: string, piece: string, next: string)
    requires qs == ps + [t]
    requires "(" + Signatures(ps) == open
    requires SignatureOf(t) == piece
    requires open + piece == next
    ensures "(" + Signatures(qs) == next
  {
    SignaturesSnoc(ps, t);
  }

  /** A method descriptor is its opening, ")" and the return descriptor. */
  lemma Finish(ps: seq<JType>, ret: JType, open: string, closed: string, piece: string, full: string)
    requires "(" + Signatures(ps) == open
    requires open + ")" == closed
    requires SignatureOf(ret) == piece
    requires closed + piece == full
    ensures MethodSignature(ps, ret) == full
  {
  }

  // Spelling steps, one concatenation of literals each.

  lemma SpellLong()
    ensures "(" + "J" == "(J" && "(J" + ")" == "(J)" && "(J)" + "V" == "(J)V"
  {
  }

  lemma SpellObject()
    ensures "(" + "Ljava/lang/Object;" == "(Ljava/lang/Object;"
    ensures "(Ljava/lang/Object;" + ")" == "(Ljava/lang/Object;)"
    ensures "(Ljava/lang/Object;)" + "V" == "(Ljava/lang/Object;)V"
  {
  }

  lemma SpellLongMethod()
    ensures "(J" + "Ljava/lang/reflect/Method;" == "(JLjava/lang/reflect/Method;"
  {
  }

  lemma SpellLongMethodObjects()
    ensures "(JLjava/lang/reflect/Method;" + "[Ljava/lang/Object;" == "(JLjava/lang/reflect/Method;[Ljava/lang/Object;"
  {
  }

  lemma SpellInvokeAsWrittenClose()
    ensures "(JLjava/lang/reflect/Method;[Ljava/lang/Object;" + ")" == "(JLjava/lang/reflect/Method;[Ljava/lang/Object;)"
  {
  }

  lemma SpellInvokeAsWritten()
    ensures "(JLjava/lang/reflect/Method;[Ljava/lang/Object;)" + "Ljava/lang/Object;"
      == "(JLjava/lang/reflect/Method;[Ljava/lang/Object;)Ljava/lang/Object;"
  {
  }

  lemma SpellLongClass()
    ensures "(J" + "Ljava/lang/Class;" == "(JLjava/lang/Class;"
  {
  }

  lemma SpellLongClassMethod()
    ensures "(JLjava/lang/Class;" + "Ljava/lang/reflect/Method;" == "(JLjava/lang/Class;Ljava/lang/reflect/Method;"
  {
  }

  lemma SpellLongClassMethodObjects()
    ensures "(JLjava/lang/Class;Ljava/lang/reflect/Method;" + "[Ljava/lang/Object;"
      == "(JLjava/lang/Class;Ljava/lang/reflect/Method;[Ljava/lang/Object;"
  {
  }

  lemma SpellInvokeClose()
    ensures "(JLjava/lang/Class;Ljava/lang/reflect/Method;[Ljava/lang/Object;" + ")"
      == "(JLjava/lang/Class;Ljava/lang/reflect/Method;[Ljava/lang/Object;)"
  {
  }

  lemma SpellInvoke()
    ensures "(JLjava/lang/Class;Ljava/lang/reflect/Method;[Ljava/lang/Object;)" + "Ljava/lang/Object;"
      == "(JLjava/lang/Class;Ljava/lang/reflect/Method;[Ljava/lang/Object;)Ljava/lang/Object;"
  {
  }

  lemma SpellNewProxyAsWritten()
    ensures "(JLjava/lang/Class;" + ")" == "(JLjava/lang/Class;)"
    ensures "(JLjava/lang/Class;)" + "Ljava/lang/Object;" == "(JLjava/lang/Class;)Ljava/lang/Object;"
  {
  }

  lemma SpellNewProxy()
    ensures "(J" + "[Ljava/lang/Class;" == "(J[Ljava/lang/Class;"
    ensures "(J[Ljava/lang/Class;" + ")" == "(J[Ljava/lang/Class;)"
    ensures "(J[Ljava/lang/Class;)" + "Ljava/lang/Object;" == "(J[Ljava/lang/Class;)Ljava/lang/Object;"
  {
  }

  lemma OpenLong()
    ensures "(" + Signatures([JLong]) == "(J"
  {
    SignatureOfLong();
    SpellLong();
    Append([], JLong, [JLong], "(", "J", "(J");
  }

  /** The JVM's descriptor of the invoke declared in JNIBridge.java. */
  lemma InvokeAsWrittenDescriptor()
    ensures DescriptorOf(DeclaredAsWritten[0]) == ApiHelperNatives[0].descriptor
  {
    OpenLong();
    SignatureOfMethod();
    SignatureOfObject();
    SpellLongMethod();
    SpellLongMethodObjects();
    SpellInvokeAsWrittenClose();
    SpellInvokeAsWritten();
    Append([JLong], JMethod, [JLong, JMethod], "(J", "Ljava/lang/reflect/Method;", "(JLjava/lang/reflect/Method;");
    Append([JLong, JMethod], ArrayOf(JObject), [JLong, JMethod, ArrayOf(JObject)],
      "(JLjava/lang/reflect/Method;", "[Ljava/lang/Object;", "(JLjava/lang/reflect/Method;[Ljava/lang/Object;");
    Finish([JLong, JMethod, ArrayOf(JObject)], JObject,
      "(JLjava/lang/reflect/Method;[Ljava/lang/Object;", "(JLjava/lang/reflect/Method;[Ljava/lang/Object;)",
      "Ljava/lang/Object;", "(JLjava/lang/reflect/Method;[Ljava/lang/Object;)Ljava/lang/Object;");
  }

  /** The invoke the native table of Proxy.cpp expects. */
  lemma InvokeCorrectedDescriptor()
    ensures DescriptorOf(DeclaredCorrected[0]) == ProxyNatives[0].descriptor
  {
    OpenLong();
    SignatureOfClass();
    SignatureOfMethod();
    SignatureOfObject();
    SpellLongClass();
    SpellLongClassMethod();
    SpellLongClassMethodObjects();
    SpellInvokeClose();
    SpellInvoke();
    Append([JLong], JClass, [JLong, JClass], "(J", "Ljava/lang/Class;", "(JLjava/lang/Class;");
    Append([JLong, JClass], JMethod, [JLong, JClass, JMethod],
      "(JLjava/lang/Class;", "Ljava/lang/reflect/Method;", "(JLjava/lang/Class;Ljava/lang/reflect/Method;");
    Append([JLong, JClass, JMethod], ArrayOf(JObject), [JLong, JClass, JMethod, ArrayOf(JObject)],
      "(JLjava/lang/Class;Ljava/lang/reflect/Method;", "[Ljava/lang/Object;",
      "(JLjava/lang/Class;Ljava/lang/reflect/Method;[Ljava/lang/Object;");
    Finish([JLong, JClass, JMethod, ArrayOf(JObject)], JObject,
      "(JLjava/lang/Class;Ljava/lang/reflect/Method;[Ljava/lang/Object;",
      "(JLjava/lang/Class;Ljava/lang/reflect/Method;[Ljava/lang/Object;)",
      "Ljava/lang/Object;",
      "(JLjava/lang/Class;Ljava/lang/reflect/Method;[Ljava/lang/Object;)Ljava/lang/Object;");
  }

  /** delete(long) and disableInterfaceProxy(Object), the same in both
      versions. */
  lemma DeleteAndDisableDescriptors()
    ensures DescriptorOf(DeclaredAsWritten[1]) == DescriptorOf(DeclaredCorrected[1]) == ProxyNatives[1].descriptor
    ensures DescriptorOf(DeclaredAsWritten[3]) == DescriptorOf(DeclaredCorrected[3]) == DisableLookup.descriptor
  {
    OpenLong();
    SpellLong();
    Finish([JLong], JVoid, "(J", "(J)", "V", "(J)V");
    SignatureOfObject();
    SpellObject();
    Append([], JObject, [JObject], "(", "Ljava/lang/Object;", "(Ljava/lang/Object;");
    Finish([JObject], JVoid, "(Ljava/lang/Object;", "(Ljava/lang/Object;)", "V", "(Ljava/lang/Object;)V");
  }

  /** newInterfaceProxy(long, Class) as written. */
  lemma NewProxyAsWrittenDescriptor()
    ensures DescriptorOf(DeclaredAsWritten[2]) == "(JLjava/lang/Class;)Ljava/lang/Object;"
  {
    OpenLong();
    SignatureOfClass();
    SignatureOfObject();
    SpellLongClass();
    SpellNewProxyAsWritten();
    Append([JLong], JClass, [JLong, JClass], "(J", "Ljava/lang/Class;", "(JLjava/lang/Class;");
    Finish([JLong, JClass], JObject, "(JLjava/lang/Class;", "(JLjava/lang/Class;)",
      "Ljava/lang/Object;", "(JLjava/lang/Class;)Ljava/lang/Object;");
  }

  /** newInterfaceProxy(long, Class[]) as both native files look it up. */
  lemma NewProxyCorrectedDescriptor()
    ensures DescriptorOf(DeclaredCorrected[2]) == NewProxyLookup.descriptor
  {
    OpenLong();
    SignatureOfClass();
    SignatureOfObject();
    SpellNewProxy();
    Append([JLong], ArrayOf(JClass), [JLong, ArrayOf(JClass)], "(J", "[Ljava/lang/Class;", "(J[Ljava/lang/Class;");
    Finish([JLong, ArrayOf(JClass)], JObject, "(J[Ljava/lang/Class;", "(J[Ljava/lang/Class;)",
      "Ljava/lang/Object;", "(J[Ljava/lang/Class;)Ljava/lang/Object;");
  }

  /** As written, the Java declarations meet neither native side in full:
      Proxy.cpp's native table does not register; APIHelper.cpp's table
      does, but its newInterfaceProxy lookup, like that of Proxy.cpp, asks
      for a Class[] parameter, so the lookup of either file finds nothing;
      only disableInterfaceProxy is found. */
  lemma AsWrittenMismatch()
    ensures !RegistersAll(DeclaredAsWritten, ProxyNatives)
    ensures RegistersAll(DeclaredAsWritten, ApiHelperNatives)
    ensures Find(DeclaredAsWritten, NewProxyLookup) == -1
    ensures Find(DeclaredAsWritten, DisableLookup) == 3
  {
    AsWrittenMissesInvoke();
    AsWrittenFindsOldInvoke();
    AsWrittenFindsDelete();
    RegistersBoth(DeclaredAsWritten, ApiHelperNatives);
    AsWrittenMissesNewProxy();
    AsWrittenFindsDisable();
  }

  lemma AsWrittenMissesInvoke()
    ensures Find(DeclaredAsWritten, ProxyNatives[0]) == -1
  {
    InvokeAsWrittenDescriptor();
  }

  lemma AsWrittenFindsOldInvoke()
    ensures Find(DeclaredAsWritten, ApiHelperNatives[0]) == 0
  {
    InvokeAsWrittenDescriptor();
  }

  lemma AsWrittenFindsDelete()
    ensures Find(DeclaredAsWritten, ApiHelperNatives[1]) == 1
  {
    DeleteAndDisableDescriptors();
  }

  lemma AsWrittenMissesNewProxy()
    ensures Find(DeclaredAsWritten, NewProxyLookup) == -1
  {
    NewProxyAsWrittenDescriptor();
  }

  lemma AsWrittenFindsDisable()
    ensures Find(DeclaredAsWritten, DisableLookup) == 3
  {
    DeleteAndDisableDescriptors();
  }

  /** The consequence on a clean, attached thread with the JNIBridge class
      loaded: __Register of Proxy.cpp reports success although registration
      failed and left an exception pending, and NewInstance yields a null
      proxy. */
  lemma AsWrittenNewInstanceIsNull(t: ThreadState, clazz: nat, host: RegisterHost, stub: nat, failure: Throwable)
    requires HasEnv(t) && t.pending == None && PeekError(t) == NoError && clazz != 0
    requires HostRaisesNothing(host) && ClassResolves(host)
    ensures Register(t, DeclaredAsWritten, ProxyNatives, host, failure).1
    ensures Register(t, DeclaredAsWritten, ProxyNatives, host, failure).0.pending == Some(failure)
    ensures PeekError(Register(t, DeclaredAsWritten, ProxyNatives, host, failure).0) == Errno.ExceptionThrown
    ensures NewInstance(t, clazz, DeclaredAsWritten, stub, failure).1 == 0
    ensures PeekError(NewInstance(t, clazz, DeclaredAsWritten, stub, failure).0) == Errno.ExceptionThrown
  {
    AsWrittenMismatch();
    RegisterOnCleanThread(t, DeclaredAsWritten, ProxyNatives, host, failure);
  }

  /** With the corrected declarations every table registers and every
      lookup finds its method. */
  lemma CorrectedMatches()
    ensures RegistersAll(DeclaredCorrected, ProxyNatives)
    ensures Find(DeclaredCorrected, NewProxyLookup) == 2
    ensures Find(DeclaredCorrected, DisableLookup) == 3
  {
    CorrectedFindsInvoke();
    CorrectedFindsDelete();
    RegistersBoth(DeclaredCorrected, ProxyNatives);
    CorrectedFindsNewProxy();
    CorrectedFindsDisable();
  }

  /** A two-entry table registers when both entries name native
      declarations. */
  lemma RegistersBoth(decls: seq<JavaMethod>, entries: seq<NativeEntry>)
    requires |entries| == 2
    requires Find(decls, entries[0]) >= 0 && decls[Find(decls, entries[0])].isNative
    requires Find(decls, entries[1]) >= 0 && decls[Find(decls, entries[1])].isNative
    ensures RegistersAll(decls, entries)
  {
  }

  lemma CorrectedFindsInvoke()
    ensures Find(DeclaredCorrected, ProxyNatives[0]) == 0
  {
    InvokeCorrectedDescriptor();
  }

  lemma CorrectedFindsDelete()
    ensures Find(DeclaredCorrected, ProxyNatives[1]) == 1
  {
    DeleteAndDisableDescriptors();
  }

  lemma CorrectedFindsNewProxy()
    ensures Find(DeclaredCorrected, NewProxyLookup) == 2
  {
    NewProxyCorrectedDescriptor();
  }

  lemma CorrectedFindsDisable()
    ensures Find(DeclaredCorrected, DisableLookup) == 3
  {
    DeleteAndDisableDescriptors();
  }

  /** With the corrected declarations, on the same thread, registration
      leaves nothing pending and NewInstance returns the proxy the Java
      helper built. */
  lemma CorrectedNewInstanceReturnsStub(t: ThreadState, clazz: nat, host: RegisterHost, stub: nat, failure: Throwable)
    requires HasEnv(t) && t.pending == None && PeekError(t) == NoError && clazz != 0
    requires HostRaisesNothing(host) && ClassResolves(host)
    ensures Register(t, DeclaredCorrected, ProxyNatives, host, failure).1
    ensures Register(t, DeclaredCorrected, ProxyNatives, host, failure).0.pending == None
    ensures PeekError(Register(t, DeclaredCorrected, ProxyNatives, host, failure).0) == NoError
    ensures NewInstance(t, clazz, DeclaredCorrected, stub, failure).1 == stub
    ensures PeekError(NewInstance(t, clazz, DeclaredCorrected, stub, failure).0) == NoError
  {
    CorrectedMatches();
    RegisterOnCleanThread(t, DeclaredCorrected, ProxyNatives, host, failure);
  }
}
