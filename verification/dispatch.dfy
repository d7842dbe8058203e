/** Native dispatch of calls made on a Java proxy: the probes
    (`__TryInvoke`), the probe fold of ProxyGenerator::__InvokeInternal
    (Proxy.h) and `__Invoke` (Proxy.cpp, and its earlier form in
    APIHelper.cpp). Host objects, classes and method ids are opaque numbers;
    distinct methods have distinct ids. */
module Dispatch {
  import opened Common
  import JniErrors
  import JniCall

  /** What a probe can answer with: a boxed Integer, a boxed Boolean, a
      String, or any other host object. */
  datatype Value = IntegerBox(i: int) | BooleanBox(b: bool) | Str(s: string) | Other(obj: nat)

  /** The caller's `success` flag and `result` slot; `result` is None while
      nothing was written (the slot starts uninitialised). */
  datatype Slot = Slot(success: bool, result: Option<Value>)

  const Unanswered := Slot(false, None)

  /** A probe: what it answers for a call on interface `clazz` with method
      id `mid`, or None when it does not recognise the call. */
  type Probe = (nat, nat) -> Option<Value>

  /** The method ids of java.lang.Object that the built-in probe knows. */
  datatype ObjectIds = ObjectIds(objectClass: nat, hashCode: nat, equals: nat, toString: nat)

  /** The three methods are distinct, so their ids differ. */
  predicate DistinctIds(ids: ObjectIds) {
    ids.hashCode != ids.equals && ids.hashCode != ids.toString && ids.equals != ids.toString
  }

  /** The built-in probe's string answer. */
  const ProxyObjectString: string := "<native proxy object>"

  /** A native proxy as the built-in methods see it: its Java stub and the
      host's identity hash of that stub. */
  datatype ProxySelf = ProxySelf(stub: nat, identityHash: int)

  /** ToString: always the fixed string. */
  function ToString(self: ProxySelf): (s: string)
    ensures s == ProxyObjectString
  {
    ProxyObjectString
  }

  /** Equals: identity of the argument with the proxy's own stub. */
  function Equals(self: ProxySelf, arg0: nat): (b: bool)
    ensures b <==> arg0 == self.stub
  {
    self.stub == arg0
  }

  /** HashCode: the identity hash of the stub. */
  function HashCode(self: ProxySelf): (h: int)
    ensures h == self.identityHash
  {
    self.identityHash
  }

  /** The answer of the built-in probe of APIHelper.cpp: hashCode, equals
      and toString by method id, checked in that order, whatever the
      interface. `arg0` is the first call argument. */
  function ObjectAnswerAnyClass(ids: ObjectIds, self: ProxySelf, arg0: nat, mid: nat): (a: Option<Value>)
    ensures a.Some? <==> mid in {ids.hashCode, ids.equals, ids.toString}
    ensures mid == ids.hashCode ==> a == Some(IntegerBox(HashCode(self)))
    ensures mid != ids.hashCode && mid == ids.equals ==> a == Some(BooleanBox(Equals(self, arg0)))
    ensures mid != ids.hashCode && mid != ids.equals && mid == ids.toString ==> a == Some(Str(ToString(self)))
  {
    if mid == ids.hashCode then Some(IntegerBox(HashCode(self)))
    else if mid == ids.equals then Some(BooleanBox(Equals(self, arg0)))
    else if mid == ids.toString then Some(Str(ToString(self)))
    else None
  }

  /** The answer of the built-in probe of Proxy.cpp: as above, but only for
      calls whose interface is java.lang.Object itself. */
  function ObjectAnswer(ids: ObjectIds, self: ProxySelf, arg0: nat, clazz: nat, mid: nat): (a: Option<Value>)
    ensures clazz != ids.objectClass ==> a == None
    ensures clazz == ids.objectClass ==> a == ObjectAnswerAnyClass(ids, self, arg0, mid)
  {
    if clazz != ids.objectClass then None
    else ObjectAnswerAnyClass(ids, self, arg0, mid)
  }

  /** The built-in probe of Proxy.cpp as a probe. */
  function ObjectProbe(ids: ObjectIds, self: ProxySelf, arg0: nat): Probe {
    (clazz: nat, mid: nat) => ObjectAnswer(ids, self, arg0, clazz, mid)
  }

  /** The built-in probe of APIHelper.cpp as a probe. */
  function ObjectProbeAnyClass(ids: ObjectIds, self: ProxySelf, arg0: nat): Probe {
    (clazz: nat, mid: nat) => ObjectAnswerAnyClass(ids, self, arg0, mid)
  }

  /** `__TryInvoke`: declines without writing once `success` is set;
      otherwise, when the probe recognises the call, writes its answer, sets
      `success` and returns true. */
  function TryInvoke(p: Probe, clazz: nat, mid: nat, slot: Slot): (r: (Slot, bool))
    ensures slot.success ==> r == (slot, false)
    ensures !slot.success ==> (r.1 <==> p(clazz, mid).Some?)
    ensures r.1 ==> r.0 == Slot(true, p(clazz, mid))
    ensures !r.1 ==> r.0 == slot
  {
    if slot.success then (slot, false)
    else match p(clazz, mid)
      case None => (slot, false)
      case Some(v) => (Slot(true, Some(v)), true)
  }

  /** Evaluates the probes `probes[order[0]]`, `probes[order[1]]`, ... in
      turn: the language leaves the order of the probe calls unspecified,
      so any order is allowed. Returns the slot and the number of writes. */
  function RunProbes(probes: seq<Probe>, order: seq<nat>, clazz: nat, mid: nat, slot: Slot): (r: (Slot, nat))
    requires forall k :: 0 <= k < |order| ==> order[k] < |probes|
    ensures r.1 <= 1
    ensures r.1 == 0 ==> r.0 == slot
    ensures r.1 == 1 ==> !slot.success && r.0.success
    ensures slot.success ==> r == (slot, 0)
    decreases |order|
  {
    if |order| == 0 then (slot, 0)
    else
      var (s1, wrote) := TryInvoke(probes[order[0]], clazz, mid, slot);
      var (s2, n) := RunProbes(probes, order[1..], clazz, mid, s1);
      (s2, n + (if wrote then 1 else 0))
  }

  /** Index in `order` of the first probe that recognises the call, or |order|. */
  function FirstAnswering(probes: seq<Probe>, order: seq<nat>, clazz: nat, mid: nat): (k: nat)
    requires forall k :: 0 <= k < |order| ==> order[k] < |probes|
    ensures k <= |order|
    ensures forall j :: 0 <= j < k ==> probes[order[j]](clazz, mid).None?
    ensures k < |order| ==> probes[order[k]](clazz, mid).Some?
  {
    if |order| == 0 then 0
    else if probes[order[0]](clazz, mid).Some? then 0
    else 1 + FirstAnswering(probes, order[1..], clazz, mid)
  }

  /** A slot already answered passes through every probe untouched. */
  lemma {:induction false} AnsweredSlotIsFinal(probes: seq<Probe>, order: seq<nat>, clazz: nat, mid: nat, slot: Slot)
    requires forall k :: 0 <= k < |order| ==> order[k] < |probes|
    requires slot.success
    ensures RunProbes(probes, order, clazz, mid, slot) == (slot, 0)
    decreases |order|
  {
    if |order| > 0 {
      AnsweredSlotIsFinal(probes, order[1..], clazz, mid, slot);
    }
  }

  /** Whatever the evaluation order, at most one probe writes the result;
      the call succeeds iff some probe recognises it, and the result is the
      answer of the first probe in that order that does. When none does,
      the result slot is never written. */
  lemma {:induction false} AtMostOneWriter(probes: seq<Probe>, order: seq<nat>, clazz: nat, mid: nat)
    requires forall k :: 0 <= k < |order| ==> order[k] < |probes|
    ensures var (s, n) := RunProbes(probes, order, clazz, mid, Unanswered);
      var k := FirstAnswering(probes, order, clazz, mid);
      && n <= 1
      && (s.success <==> k < |order|)
      && (n == 1 <==> s.success)
      && (k < |order| ==> s.result == probes[order[k]](clazz, mid))
      && (k == |order| ==> s == Unanswered)
    decreases |order|
  {
    if |order| > 0 {
      var (s1, wrote) := TryInvoke(probes[order[0]], clazz, mid, Unanswered);
      if wrote {
        AnsweredSlotIsFinal(probes, order[1..], clazz, mid, s1);
      } else {
        AtMostOneWriter(probes, order[1..], clazz, mid);
      }
    }
  }

  /** `order` is a permutation of the probe indices: it lists every index
      below n, exactly once, and nothing else. */
  predicate IsOrder(order: seq<nat>, n: nat) {
    && (forall k :: 0 <= k < |order| ==> order[k] < n)
    && (forall i :: 0 <= i < n ==> i in order)
    && NoDup(order)
  }

  /** Success does not depend on the evaluation order: for every order that
      lists all probes, the call succeeds iff some probe recognises it. */
  lemma SuccessIffSomeProbeAnswers(probes: seq<Probe>, order: seq<nat>, clazz: nat, mid: nat)
    requires IsOrder(order, |probes|)
    ensures RunProbes(probes, order, clazz, mid, Unanswered).0.success
      <==> exists i :: 0 <= i < |probes| && probes[i](clazz, mid).Some?
  {
    AtMostOneWriter(probes, order, clazz, mid);
    var k := FirstAnswering(probes, order, clazz, mid);
    if exists i :: 0 <= i < |probes| && probes[i](clazz, mid).Some? {
      var i :| 0 <= i < |probes| && probes[i](clazz, mid).Some?;
      assert i in order;
      var j :| 0 <= j < |order| && order[j] == i;
      assert k <= j;
    }
  }

  /** When at most one probe recognises a call (the generated probes check
      their own interface), every evaluation order yields the same slot. */
  lemma OrderIndependentWhenUnique(probes: seq<Probe>, o1: seq<nat>, o2: seq<nat>, clazz: nat, mid: nat)
    requires IsOrder(o1, |probes|) && IsOrder(o2, |probes|)
    requires forall i, j :: 0 <= i < j < |probes| ==> probes[i](clazz, mid).None? || probes[j](clazz, mid).None?
    ensures RunProbes(probes, o1, clazz, mid, Unanswered).0 == RunProbes(probes, o2, clazz, mid, Unanswered).0
  {
    AtMostOneWriter(probes, o1, clazz, mid);
    AtMostOneWriter(probes, o2, clazz, mid);
    SuccessIffSomeProbeAnswers(probes, o1, clazz, mid);
    SuccessIffSomeProbeAnswers(probes, o2, clazz, mid);
    var k1 := FirstAnswering(probes, o1, clazz, mid);
    var k2 := FirstAnswering(probes, o2, clazz, mid);
    if k1 < |o1| && k2 < |o2| {
      var a, b := o1[k1], o2[k2];
      assert probes[a](clazz, mid).Some? && probes[b](clazz, mid).Some?;
      if a != b {
        assert false;
      }
    }
  }

  /** What a call on the proxy does: it returns a value to the Java caller,
      or raises NoSuchMethodError with a message. */
  datatype Outcome = Returned(value: Value) | NoSuchMethod(message: string)

  /** `__Invoke`: the built-in probe first in the list, then the generated
      interface probes, evaluated in `order`. When none recognises the call
      a NoSuchMethodError carrying `noMatchMessage` is raised. */
  function Invoke(probes: seq<Probe>, order: seq<nat>, clazz: nat, mid: nat, noMatchMessage: string): (o: Outcome)
    requires IsOrder(order, |probes|)
    ensures o.NoSuchMethod? <==> forall i :: 0 <= i < |probes| ==> probes[i](clazz, mid).None?
    ensures o.NoSuchMethod? ==> o.message == noMatchMessage
    ensures o.Returned? ==> exists i :: 0 <= i < |probes| && probes[i](clazz, mid) == Some(o.value)
  {
    AtMostOneWriter(probes, order, clazz, mid);
    SuccessIffSomeProbeAnswers(probes, order, clazz, mid);
    var s := RunProbes(probes, order, clazz, mid, Unanswered).0;
    if !s.success then NoSuchMethod(noMatchMessage)
    else
      var k := FirstAnswering(probes, order, clazz, mid);
      assert s.result == probes[order[k]](clazz, mid);
      Returned(s.result.value)
  }

  /** The host calls on `__Invoke`'s error path (Proxy.cpp:57-61), in
      order: `ToReflectedMethod`, the generated `Method.toString`, the
      `GetStringUTFChars` behind `c_str`, and `ThrowNew`. `toStringId` is
      the cached id of `Method.toString` and `errorClass` the resolved
      NoSuchMethodError class; each is 0 when its lookup failed. A host
      value of 0 is null. The reflected Method and the String `toString`
      returns are each held by a `jni::Object`, whose Ref takes a checking
      NewGlobalRef (APIHelper.h:46-50, JNIBridge.cpp:259-262); `reflect`
      and `toString` each stand for the JNI call together with that
      NewGlobalRef, a failing one looking like its step returning null or
      raising. */
  datatype ThrowPath = ThrowPath(reflect: JniCall.HostCall, toString: JniCall.HostCall,
                                 utfChars: JniCall.HostCall, throwNew: JniCall.HostCall,
                                 toStringId: nat, errorClass: nat)

  /** Every gate on the error path opens: a call context, nothing pending
      on entry, and each step handing a non-null result to the next. */
  predicate ThrowReaches(t: JniErrors.ThreadState, clazz: nat, mid: nat, path: ThrowPath) {
    && JniErrors.EnvObtainable(t) && t.pending.None? && clazz != 0 && mid != 0
    && path.reflect.raises.None? && path.reflect.value != 0 && path.toStringId != 0
    && path.toString.raises.None? && path.toString.value != 0
    && path.utfChars.raises.None? && path.utfChars.value != 0
    && path.errorClass != 0
  }

  /** The error path of `__Invoke`: each step is a checking JNI_CALL_RETURN
      whose parameter check needs the previous step's result, and `c_str`
      of a null String returns null without a call. The NoSuchMethodError
      is raised exactly when every gate opens; otherwise the exception
      pending afterwards is one that was pending already or that an
      earlier step raised. */
  function RaiseNoSuchMethod(t: JniErrors.ThreadState, clazz: nat, mid: nat, path: ThrowPath): (r: JniErrors.ThreadState)
    ensures ThrowReaches(t, clazz, mid, path) ==> r.pending == path.throwNew.raises
    ensures !ThrowReaches(t, clazz, mid, path) ==>
      r.pending in {t.pending, path.reflect.raises, path.toString.raises, path.utfChars.raises}
  {
    var p1 := clazz != 0 && mid != 0;
    CheckedStep(t, p1, path.reflect);
    var (t1, reflected) := JniCall.CallReturn(t, p1, true, path.reflect);
    var p2 := reflected != 0 && path.toStringId != 0;
    CheckedStep(t1, p2, path.toString);
    var (t2, str) := JniCall.CallReturn(t1, p2, true, path.toString);
    CheckedStep(t2, true, path.utfChars);
    var (t3, chars) := if str == 0 then (t2, 0) else JniCall.CallReturn(t2, true, true, path.utfChars);
    var p4 := path.errorClass != 0 && chars != 0;
    CheckedStep(t3, p4, path.throwNew);
    JniCall.CallReturn(t3, p4, true, path.throwNew).0
  }

  /** One checking JNI_CALL_RETURN on the error path: it yields non-null
      exactly when its gate opens and the host returns non-null without
      raising, and it leaves pending either what was pending or what the
      host raised. */
  lemma CheckedStep(t: JniErrors.ThreadState, parameters: bool, f: JniCall.HostCall)
    ensures var (t1, v) := JniCall.CallReturn(t, parameters, true, f);
      && (v != 0 <==> JniErrors.EnvObtainable(t) && parameters && t.pending.None? && f.raises.None? && f.value != 0)
      && (v != 0 ==> JniErrors.EnvObtainable(t1) && t1.pending.None?)
      && t1.pending in {t.pending, f.raises}
      && (JniErrors.EnvObtainable(t) && parameters && t.pending.None? ==> t1.pending == f.raises)
  {
  }

  /** `__Invoke` on the calling thread `t`, as the probes leave it. An
      answered call returns the probe's value and touches nothing. An
      unanswered one returns the uninitialised `result`, None here, and
      goes down the error path: it agrees with `Invoke`'s NoSuchMethod
      only when the throw reaches the host. */
  function InvokeOn(t: JniErrors.ThreadState, probes: seq<Probe>, order: seq<nat>, clazz: nat, mid: nat,
                    path: ThrowPath): (r: (JniErrors.ThreadState, Option<Value>))
    requires IsOrder(order, |probes|)
    ensures r.1.None? <==> forall i :: 0 <= i < |probes| ==> probes[i](clazz, mid).None?
    ensures r.1.Some? ==> r.0 == t && Invoke(probes, order, clazz, mid, "") == Returned(r.1.value)
    ensures r.1.None? ==> Invoke(probes, order, clazz, mid, "").NoSuchMethod?
    ensures r.1.None? && ThrowReaches(t, clazz, mid, path) ==> r.0.pending == path.throwNew.raises
    ensures r.1.None? && !ThrowReaches(t, clazz, mid, path) ==>
      r.0.pending in {t.pending, path.reflect.raises, path.toString.raises, path.utfChars.raises}
  {
    match Invoke(probes, order, clazz, mid, "")
    case Returned(v) => (t, Some(v))
    case NoSuchMethod(_) => (RaiseNoSuchMethod(t, clazz, mid, path), None)
  }

  /** An exception already pending when nothing answers closes every gate
      on the error path: no NoSuchMethodError is raised, and Java receives
      the uninitialised result with the earlier exception. */
  lemma PendingExceptionSuppressesNoSuchMethod(t: JniErrors.ThreadState, probes: seq<Probe>, order: seq<nat>,
                                               clazz: nat, mid: nat, path: ThrowPath)
    requires IsOrder(order, |probes|)
    requires forall i :: 0 <= i < |probes| ==> probes[i](clazz, mid).None?
    requires t.pending.Some?
    ensures InvokeOn(t, probes, order, clazz, mid, path) == (RaiseNoSuchMethod(t, clazz, mid, path), None)
    ensures RaiseNoSuchMethod(t, clazz, mid, path).pending == t.pending
  {
    var (t1, reflected) := JniCall.CallReturn(t, clazz != 0 && mid != 0, true, path.reflect);
    assert reflected == 0 && t1.pending == t.pending;
    var (t2, str) := JniCall.CallReturn(t1, reflected != 0 && path.toStringId != 0, true, path.toString);
    assert str == 0 && t2.pending == t.pending;
  }

  /** A `toString` that yields null without raising leaves `c_str` null,
      and ThrowNew's parameter check then only records
      INVALID_PARAMETERS: Java receives the uninitialised result with no
      exception pending. */
  lemma NullMessageRaisesNothing(t: JniErrors.ThreadState, probes: seq<Probe>, order: seq<nat>,
                                 clazz: nat, mid: nat, path: ThrowPath)
    requires IsOrder(order, |probes|)
    requires forall i :: 0 <= i < |probes| ==> probes[i](clazz, mid).None?
    requires JniErrors.HasEnv(t) && t.pending.None? && JniErrors.PeekError(t) == JniErrors.NoError
    requires clazz != 0 && mid != 0 && path.reflect.raises.None? && path.reflect.value != 0
    requires path.toStringId != 0 && path.toString == JniCall.HostCall(0, None, JniCall.NoFrame)
    ensures InvokeOn(t, probes, order, clazz, mid, path).1 == None
    ensures InvokeOn(t, probes, order, clazz, mid, path).0.pending == None
    ensures JniErrors.PeekError(InvokeOn(t, probes, order, clazz, mid, path).0) == JniErrors.InvalidParameters
  {
    var (t1, reflected) := JniCall.CallReturn(t, true, true, path.reflect);
    assert reflected == path.reflect.value && t1.pending == None;
    var (t2, str) := JniCall.CallReturn(t1, true, true, path.toString);
    assert str == 0 && t2.pending == None;
  }

  /** A call of one of Object's three methods on the interface
      java.lang.Object is always answered by the built-in probe of
      Proxy.cpp, whatever the other probes and the order. */
  lemma ObjectMethodsAlwaysAnswered(ids: ObjectIds, self: ProxySelf, arg0: nat, others: seq<Probe>,
                                    order: seq<nat>, mid: nat, reflected: string)
    requires IsOrder(order, |others| + 1)
    requires mid in {ids.hashCode, ids.equals, ids.toString}
    ensures Invoke([ObjectProbe(ids, self, arg0)] + others, order, ids.objectClass, mid, reflected).Returned?
  {
    var probes := [ObjectProbe(ids, self, arg0)] + others;
    assert probes[0](ids.objectClass, mid).Some?;
  }

  /** The built-in probe of Proxy.cpp declines any call on another
      interface, so there only the generated probes can answer; the earlier
      probe of APIHelper.cpp answers an Object method id on any interface. */
  lemma ClassCheckNarrowsBuiltinProbe(ids: ObjectIds, self: ProxySelf, arg0: nat, clazz: nat, mid: nat)
    requires DistinctIds(ids) && clazz != ids.objectClass && mid == ids.toString
    ensures ObjectProbe(ids, self, arg0)(clazz, mid) == None
    ensures ObjectProbeAnyClass(ids, self, arg0)(clazz, mid) == Some(Str(ProxyObjectString))
  {
  }
}
