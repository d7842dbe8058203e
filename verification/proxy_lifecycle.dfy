/** The life of a native proxy (Proxy.h, Proxy.cpp): construction creates
    its Java stub and then starts tracking it; destruction stops tracking,
    disables the stub's handler and releases the global reference to the
    stub; the Java handler's finalize and DeleteAllProxies both destroy
    native proxies through the same destructor. */
module ProxyLifecycle {
  import opened Common
  import opened HandleRef
  import opened InterfaceProxy
  import Registry

  /** Proxy<TX...> holds its stub through a global reference, WeakProxy
      through a weak global reference. */
  datatype ProxyKind = StrongProxy | WeakProxy

  function StrategyOf(kind: ProxyKind): (s: Strategy)
    ensures kind == StrongProxy <==> s == Strong
  {
    match kind
    case StrongProxy => Strong
    case WeakProxy => Weak
  }

  /** A live native proxy: its Java stub and how it holds the stub. */
  datatype Native = Native(stub: nat, strategy: Strategy)

  /** The steps of construction and destruction, in the order they run. */
  datatype Event =
    | StubCreated(stub: nat, ptr: nat)
    | Tracked(p: nat)
    | Untracked(p: nat)
    | Disabled(stub: nat)
    | Released(stub: nat, strategy: Strategy)

  /** The bridge and the Java side together: the tracker's list, the live
      native proxies by address, every Java stub's handler pointer, fresh
      address and stub counters, the log of construction and destruction
      steps and the log of destroyed proxies. */
  datatype Sys = Sys(
    tracked: seq<nat>,
    natives: map<nat, Native>,
    handlers: map<nat, nat>,
    nextAddr: nat,
    nextStub: nat,
    log: seq<Event>,
    destroyed: seq<nat>)

  /** No proxy, no stub; addresses and stubs start at 1 (0 is null). */
  const Empty := Sys([], map[], map[], 1, 1, [], [])

  /** The facts that do not involve the tracker's list: each live proxy's
      stub points back to it; every enabled handler points either to a live
      proxy whose stub it is, or to a destroyed proxy (a dangling pointer,
      left when the destructor's disable did not take effect); no proxy is
      destroyed twice or lives on after destruction. */
  ghost predicate Wf(s: Sys) {
    && s.nextAddr > 0 && s.nextStub > 0
    && (forall p :: p in s.natives ==> 0 < p < s.nextAddr)
    && (forall p :: p in s.natives ==> s.natives[p].stub in s.handlers && s.handlers[s.natives[p].stub] == p)
    && (forall st :: st in s.handlers ==> 0 < st < s.nextStub)
    && (forall st :: st in s.handlers && s.handlers[st] != 0 ==>
          (s.handlers[st] in s.natives && s.natives[s.handlers[st]].stub == st) || s.handlers[st] in s.destroyed)
    && NoDup(s.destroyed)
    && (forall p :: p in s.destroyed ==> p !in s.natives && 0 < p < s.nextAddr)
  }

  /** Every live proxy's stub is a known Java object. */
  ghost predicate StubsKnown(s: Sys) {
    forall p :: p in s.natives ==> s.natives[p].stub in s.handlers
  }

  /** No enabled handler points to a destroyed proxy. */
  ghost predicate NoDangling(s: Sys) {
    forall st :: st in s.handlers && s.handlers[st] != 0 ==> s.handlers[st] in s.natives
  }

  /** `owned` lists every live proxy exactly once. */
  ghost predicate Owns(s: Sys, owned: seq<nat>) {
    NoDup(owned) && forall p :: p in owned <==> p in s.natives
  }

  /** Between operations the tracker's list is what owns the proxies. */
  ghost predicate Inv(s: Sys) {
    Wf(s) && Owns(s, s.tracked)
  }

  lemma EmptyInv()
    ensures Inv(Empty) && NoDangling(Empty)
  {
  }

  /** The ProxyGenerator constructor: the Java stub is created first, with
      a handler holding the new proxy's address, and held through a
      reference of the kind's strength; then the proxy is tracked. Returns
      the system and the new address. */
  function Construct(s: Sys, kind: ProxyKind): (r: (Sys, nat))
    requires Inv(s)
    ensures Inv(r.0)
    ensures NoDangling(s) ==> NoDangling(r.0)
    ensures r.1 !in s.natives && r.1 !in s.destroyed && r.1 != 0
    ensures r.0.tracked == Registry.Add(s.tracked, r.1)
    ensures r.0.natives == s.natives[r.1 := Native(s.nextStub, StrategyOf(kind))]
    ensures r.0.handlers == s.handlers[s.nextStub := r.1]
    ensures NewInterfaceProxy(r.1, 0).handler == Handler(r.0.handlers[s.nextStub])
    ensures r.0.log == s.log + [StubCreated(s.nextStub, r.1), Tracked(r.1)]
    ensures r.0.destroyed == s.destroyed
  {
    var p := s.nextAddr;
    var st := s.nextStub;
    var s1 := s.(handlers := s.handlers[st := p], nextStub := st + 1,
                 natives := s.natives[p := Native(st, StrategyOf(kind))], nextAddr := p + 1,
                 log := s.log + [StubCreated(st, p)]);
    var r := s1.(tracked := Registry.Add(s.tracked, p), log := s1.log + [Tracked(p)]);
    assert p !in s.natives && p !in s.tracked && st !in s.handlers;
    assert Wf(r);
    assert NoDup(r.tracked) by {
      forall i, j | 0 <= i < j < |r.tracked| ensures r.tracked[i] != r.tracked[j] {
        if i == 0 {
          assert r.tracked[j] == s.tracked[j - 1];
        } else {
          assert r.tracked[i] == s.tracked[i - 1] && r.tracked[j] == s.tracked[j - 1];
        }
      }
    }
    (r, p)
  }

  /** The destructor: stop tracking, disable the stub's handler, then the
      reference member releases the stub with the proxy's own strength.
      The disable is a gated void call (Op<jvoid>::CallStaticMethod with the
      cached method id): `disableRuns` says whether its gate opened, which
      needs a call context, no pending exception and a non-null method id.
      When it does not, the handler keeps the address of the freed proxy. */
  function Destroy(s: Sys, p: nat, disableRuns: bool): (r: Sys)
    requires p in s.natives && s.natives[p].stub in s.handlers
    ensures r.natives == s.natives - {p}
    ensures r.tracked == Registry.RemoveFirst(s.tracked, p)
    ensures r.destroyed == s.destroyed + [p]
    ensures r.handlers == if disableRuns then s.handlers[s.natives[p].stub := 0] else s.handlers
  {
    var n := s.natives[p];
    var s1 := s.(tracked := Registry.RemoveFirst(s.tracked, p), log := s.log + [Untracked(p)]);
    var s2 :=
      if disableRuns then
        s1.(handlers := s1.handlers[n.stub := Disable(Handler(s1.handlers[n.stub])).ptr],
            log := s1.log + [Disabled(n.stub)])
      else s1;
    s2.(log := s2.log + [Released(n.stub, n.strategy)],
        natives := s2.natives - {p}, destroyed := s2.destroyed + [p])
  }

  /** The destructor's steps, in order: untrack, disable (only when the
      gated call runs), release the stub with the proxy's own strength. */
  lemma DestroySteps(s: Sys, p: nat, disableRuns: bool)
    requires Wf(s) && p in s.natives
    ensures var n := s.natives[p];
      Destroy(s, p, disableRuns).log ==
        s.log + [Untracked(p)] + (if disableRuns then [Disabled(n.stub)] else []) + [Released(n.stub, n.strategy)]
  {
  }

  /** Destroying a live proxy keeps the facts outside the list, whether or
      not its disable took effect. */
  lemma {:induction false} DestroyKeepsWf(s: Sys, p: nat, disableRuns: bool)
    requires Wf(s) && p in s.natives
    ensures Wf(Destroy(s, p, disableRuns))
  {
    var r := Destroy(s, p, disableRuns);
    assert NoDup(r.destroyed) by {
      forall i, j | 0 <= i < j < |r.destroyed| ensures r.destroyed[i] != r.destroyed[j] {
        if j == |s.destroyed| {
          assert r.destroyed[i] in s.destroyed;
        }
      }
    }
    forall st | st in r.handlers && r.handlers[st] != 0
      ensures (r.handlers[st] in r.natives && r.natives[r.handlers[st]].stub == st) || r.handlers[st] in r.destroyed
    {
      var q := s.handlers[st];
      assert r.handlers[st] == q;
      if q in s.destroyed {
        assert q in r.destroyed;
      } else if q == p {
        assert q in r.destroyed;
      }
    }
  }

  /** A destroy whose disable takes effect leaves no handler dangling. */
  lemma {:induction false} DestroyKeepsNoDangling(s: Sys, p: nat)
    requires Wf(s) && NoDangling(s) && p in s.natives
    ensures NoDangling(Destroy(s, p, true))
  {
    var r := Destroy(s, p, true);
    forall st | st in r.handlers && r.handlers[st] != 0 ensures r.handlers[st] in r.natives {
      assert st != s.natives[p].stub;
      assert s.handlers[st] != p;
    }
  }

  /** Destroying a tracked proxy keeps the invariant and untracks it. */
  lemma {:induction false} DestroyKeepsInv(s: Sys, p: nat, disableRuns: bool)
    requires Inv(s) && p in s.natives
    ensures Inv(Destroy(s, p, disableRuns)) && p !in Destroy(s, p, disableRuns).tracked
  {
    DestroyKeepsWf(s, p, disableRuns);
    var r := Destroy(s, p, disableRuns);
    Registry.RemoveFirstNoDup(s.tracked, p);
    assert Owns(r, r.tracked);
  }

  /** A destroy whose disable is skipped leaves the proxy's stub enabled
      with the address of the freed proxy: the next call on that stub is
      dispatched to it. */
  lemma {:induction false} DestroySkippedDisableDangles(s: Sys, p: nat)
    requires Wf(s) && p in s.natives
    ensures var r := Destroy(s, p, false); var st := s.natives[p].stub;
      && st in r.handlers && r.handlers[st] == p
      && p !in r.natives && p in r.destroyed
      && CallStub(r, st) == DispatchedTo(p)
      && !NoDangling(r)
  {
    var r := Destroy(s, p, false);
    assert p in r.destroyed;
  }

  /** What a call on a Java stub does on the native side. */
  datatype CallResult = ReturnedNull | DispatchedTo(ptr: nat)

  /** The handler's invoke, then the native invoke entry point: a disabled
      handler returns null; an enabled one hands the call to the proxy at
      its pointer, live or not. */
  function CallStub(s: Sys, stub: nat): (r: CallResult)
    requires stub in s.handlers
    ensures Wf(s) && r.DispatchedTo? ==>
      (r.ptr in s.natives && s.natives[r.ptr].stub == stub) || r.ptr in s.destroyed
    ensures NoDangling(s) && r.DispatchedTo? ==> r.ptr in s.natives
    ensures r == ReturnedNull <==> s.handlers[stub] == 0
  {
    match InterfaceProxy.Invoke(Handler(s.handlers[stub]))
    case None => ReturnedNull
    case Some(c) => DispatchedTo(c.ptr)
  }

  /** The collector finalizes only unreachable objects: a stub that a live
      Proxy holds through a global reference is never finalized. */
  predicate Collectable(s: Sys, stub: nat) {
    forall p :: p in s.natives && s.natives[p].stub == stub ==> s.natives[p].strategy == Weak
  }

  /** The Java collector finalizes a stub: an enabled handler calls the
      native delete entry point, which runs the destructor of a live proxy
      (its disable gated by `disableRuns`); the stub is then gone. A delete
      that reaches a destroyed proxy is a second delete of freed memory:
      the model records no effect for it, and Run reports it. */
  function FinalizeStub(s: Sys, stub: nat, disableRuns: bool): (r: Sys)
    requires Inv(s) && stub in s.handlers && Collectable(s, stub)
    ensures Inv(r)
    ensures NoDangling(s) ==> NoDangling(r)
    ensures stub !in r.handlers
    ensures s.handlers[stub] !in s.natives ==> r.destroyed == s.destroyed && r.natives == s.natives
    ensures s.handlers[stub] in s.natives ==> r.destroyed == s.destroyed + [s.handlers[stub]]
  {
    match InterfaceProxy.Finalize(Handler(s.handlers[stub]))
    case None => s.(handlers := s.handlers - {stub})
    case Some(c) =>
      if c.ptr in s.natives then
        FinalizeDestroys(s, stub, disableRuns);
        var r := Destroy(s, c.ptr, disableRuns);
        r.(handlers := r.handlers - {stub})
      else s.(handlers := s.handlers - {stub})
  }

  /** The finalize of a stub whose proxy is live: the destructor runs and
      the stub goes; even when the disable is skipped, the only handler it
      would have left dangling is the finalized one. */
  lemma {:induction false} FinalizeDestroys(s: Sys, stub: nat, disableRuns: bool)
    requires Inv(s) && stub in s.handlers && s.handlers[stub] in s.natives
    ensures var r := Destroy(s, s.handlers[stub], disableRuns);
      var r' := r.(handlers := r.handlers - {stub});
      Inv(r') && (NoDangling(s) ==> NoDangling(r'))
  {
    var p := s.handlers[stub];
    DestroyKeepsInv(s, p, disableRuns);
    var r := Destroy(s, p, disableRuns);
    FinalizeRemovesStub(r, stub);
    if NoDangling(s) {
      FinalizeKeepsNoDangling(s, stub, disableRuns);
    }
  }

  /** Forgetting a stub keeps the invariant. */
  lemma FinalizeRemovesStub(r: Sys, stub: nat)
    requires Inv(r) && stub in r.handlers
    requires forall p :: p in r.natives ==> r.natives[p].stub != stub
    ensures Inv(r.(handlers := r.handlers - {stub}))
  {
  }

  lemma FinalizeKeepsNoDangling(s: Sys, stub: nat, disableRuns: bool)
    requires Wf(s) && NoDangling(s) && stub in s.handlers && s.handlers[stub] in s.natives
    ensures var r := Destroy(s, s.handlers[stub], disableRuns);
      NoDangling(r.(handlers := r.handlers - {stub}))
  {
    var p := s.handlers[stub];
    var r := Destroy(s, p, disableRuns);
    var r' := r.(handlers := r.handlers - {stub});
    forall st | st in r'.handlers && r'.handlers[st] != 0 ensures r'.handlers[st] in r'.natives {
      assert st != stub && s.handlers[st] != p;
    }
  }

  /** One destructor during teardown: the first detached proxy is
      destroyed; the rest of the detached list owns what remains, and the
      tracker's list stays empty. */
  lemma {:induction false} TeardownStep(s: Sys, ps: seq<nat>, disableRuns: bool)
    requires StubsKnown(s) && s.tracked == [] && Owns(s, ps) && |ps| > 0
    ensures var r := Destroy(s, ps[0], disableRuns);
      StubsKnown(r) && r.tracked == [] && Owns(r, ps[1..]) && r.destroyed == s.destroyed + [ps[0]]
  {
    var r := Destroy(s, ps[0], disableRuns);
    assert ps == [ps[0]] + ps[1..];
    assert ps[0] !in ps[1..];
    forall q ensures q in ps[1..] <==> q in r.natives {
      assert q in ps[1..] ==> q in ps;
    }
  }

  /** The destructors DeleteAllProxies runs, over the proxies it detached:
      each destroys one proxy while the tracker's list is already empty, so
      its stop-tracking step finds nothing to walk. When the disables do
      not run, no handler changes. */
  function DestroyEach(s: Sys, ps: seq<nat>, disableRuns: bool): (r: Sys)
    requires StubsKnown(s) && s.tracked == [] && Owns(s, ps)
    ensures r.tracked == [] && r.natives == map[]
    ensures r.destroyed == s.destroyed + ps
    ensures !disableRuns ==> r.handlers == s.handlers
    decreases |ps|
  {
    if |ps| == 0 then
      assert s.natives.Keys == {};
      s
    else
      TeardownStep(s, ps, disableRuns);
      var s1 := Destroy(s, ps[0], disableRuns);
      var r := DestroyEach(s1, ps[1..], disableRuns);
      assert s.destroyed + ps == (s.destroyed + [ps[0]]) + ps[1..];
      r
  }

  /** The teardown keeps the facts outside the list, and leaves no handler
      dangling when every disable takes effect. */
  lemma {:induction false} DestroyEachKeepsWf(s: Sys, ps: seq<nat>, disableRuns: bool)
    requires Wf(s) && s.tracked == [] && Owns(s, ps)
    ensures Wf(DestroyEach(s, ps, disableRuns))
    ensures disableRuns && NoDangling(s) ==> NoDangling(DestroyEach(s, ps, disableRuns))
    decreases |ps|
  {
    if |ps| > 0 {
      TeardownStep(s, ps, disableRuns);
      DestroyKeepsWf(s, ps[0], disableRuns);
      if disableRuns && NoDangling(s) {
        DestroyKeepsNoDangling(s, ps[0]);
      }
      DestroyEachKeepsWf(Destroy(s, ps[0], disableRuns), ps[1..], disableRuns);
    }
  }

  /** DeleteAllProxies: the list is detached from the tracker first, then
      every proxy on it is destroyed once, in list order, and no proxy
      remains. When every disable takes effect, no handler can reach native
      code any more; when none does, every handler is left as it was,
      pointing at a destroyed proxy. */
  function DeleteAllProxies(s: Sys, disableRuns: bool): (r: Sys)
    requires Inv(s)
    ensures Inv(r)
    ensures r.tracked == [] && r.natives == map[]
    ensures r.destroyed == s.destroyed + s.tracked
    ensures disableRuns && NoDangling(s) ==> forall st :: st in r.handlers ==> r.handlers[st] == 0
    ensures !disableRuns ==> r.handlers == s.handlers
  {
    var s0 := s.(tracked := []);
    DestroyEachKeepsWf(s0, s.tracked, disableRuns);
    DestroyEach(s0, s.tracked, disableRuns)
  }

  /** What can happen to the system: a proxy is constructed, Java calls a
      stub, the collector finalizes a stub, native code deletes a proxy, or
      DeleteAllProxies runs. Each destroy carries whether its disable takes
      effect. */
  datatype SysOp =
    | Create(kind: ProxyKind)
    | CallOn(stub: nat)
    | Collect(stub: nat, disableRuns: bool)
    | Delete(p: nat, disableRuns: bool)
    | DeleteAll(disableRuns: bool)

  /** Runs the operations in order, skipping those that cannot happen (a
      stub that does not exist, a stub still strongly held, a proxy that is
      not live). Returns the final system and whether every call from Java
      that reached native code (an invoke or a delete) reached a live
      proxy. */
  function Run(s: Sys, ops: seq<SysOp>): (r: (Sys, bool))
    requires Inv(s)
    ensures Inv(r.0)
    decreases |ops|
  {
    if |ops| == 0 then (s, true)
    else
      match ops[0]
      case Create(kind) => Run(Construct(s, kind).0, ops[1..])
      case CallOn(stub) =>
        if stub !in s.handlers then Run(s, ops[1..])
        else
          var c := CallStub(s, stub);
          var live := c.ReturnedNull? || c.ptr in s.natives;
          var (r, ok) := Run(s, ops[1..]);
          (r, live && ok)
      case Collect(stub, disableRuns) =>
        if stub in s.handlers && Collectable(s, stub) then
          var live := s.handlers[stub] == 0 || s.handlers[stub] in s.natives;
          var (r, ok) := Run(FinalizeStub(s, stub, disableRuns), ops[1..]);
          (r, live && ok)
        else Run(s, ops[1..])
      case Delete(p, disableRuns) =>
        if p in s.natives then
          DestroyKeepsInv(s, p, disableRuns);
          Run(Destroy(s, p, disableRuns), ops[1..])
        else Run(s, ops[1..])
      case DeleteAll(disableRuns) => Run(DeleteAllProxies(s, disableRuns), ops[1..])
  }

  /** Every destroy that native code starts has its disable take effect.
      (A destroy started by the collector finalizing the stub itself needs
      no disable: the stub is gone.) */
  predicate AllDisablesRun(ops: seq<SysOp>) {
    forall k :: 0 <= k < |ops| ==> match ops[k]
      case Delete(_, disableRuns) => disableRuns
      case DeleteAll(disableRuns) => disableRuns
      case _ => true
  }

  /** When every disable takes effect, no call from Java ever reaches a
      destroyed native proxy, neither an invoke nor a second delete, along
      any history from the empty system; and no native proxy is destroyed
      twice. */
  lemma {:induction false} NoCallReachesDestroyedProxy(ops: seq<SysOp>)
    requires AllDisablesRun(ops)
    ensures Run(Empty, ops).1
    ensures NoDup(Run(Empty, ops).0.destroyed)
  {
    EmptyInv();
    RunOnlyReachesLive(Empty, ops);
  }

  /** The induction behind NoCallReachesDestroyedProxy. */
  lemma {:induction false} RunOnlyReachesLive(s: Sys, ops: seq<SysOp>)
    requires Inv(s) && NoDangling(s) && AllDisablesRun(ops)
    ensures Run(s, ops).1
    decreases |ops|
  {
    if |ops| > 0 {
      assert AllDisablesRun(ops[1..]) by {
        forall k | 0 <= k < |ops| - 1 ensures ops[1..][k] == ops[k + 1] { }
      }
      match ops[0]
      case Create(kind) => RunOnlyReachesLive(Construct(s, kind).0, ops[1..]);
      case CallOn(stub) => RunOnlyReachesLive(s, ops[1..]);
      case Collect(stub, disableRuns) =>
        if stub in s.handlers && Collectable(s, stub) {
          RunOnlyReachesLive(FinalizeStub(s, stub, disableRuns), ops[1..]);
        } else {
          RunOnlyReachesLive(s, ops[1..]);
        }
      case Delete(p, disableRuns) =>
        if p in s.natives {
          assert ops[0] == Delete(p, disableRuns);
          DestroyKeepsInv(s, p, true);
          DestroyKeepsNoDangling(s, p);
          RunOnlyReachesLive(Destroy(s, p, true), ops[1..]);
        } else {
          RunOnlyReachesLive(s, ops[1..]);
        }
      case DeleteAll(disableRuns) =>
        assert ops[0] == DeleteAll(disableRuns);
        RunOnlyReachesLive(DeleteAllProxies(s, true), ops[1..]);
    }
  }

  /** A skipped disable, then a call: native code deletes a strong proxy
      while its disable cannot run, and Java's next call on the stub is
      dispatched to the freed proxy. */
  lemma SkippedDisableThenCall()
    ensures !Run(Empty, [Create(StrongProxy), Delete(1, false), CallOn(1)]).1
  {
    EmptyInv();
    var s1 := Construct(Empty, StrongProxy).0;
    assert s1.natives == map[1 := Native(1, Strong)] && s1.handlers == map[1 := 1];
    var s2 := Destroy(s1, 1, false);
    assert s2.handlers == map[1 := 1] && s2.natives == map[];
    assert CallStub(s2, 1) == DispatchedTo(1);
  }

  /** A skipped disable, then the collector: DeleteAllProxies destroys a
      weak proxy while no disable can run, and the collector's finalize of
      its stub deletes the freed proxy a second time. */
  lemma SkippedDisableThenFinalize()
    ensures !Run(Empty, [Create(WeakProxy), DeleteAll(false), Collect(1, true)]).1
  {
    EmptyInv();
    var s1 := Construct(Empty, WeakProxy).0;
    assert s1.natives == map[1 := Native(1, Weak)] && s1.handlers == map[1 := 1];
    var s2 := DeleteAllProxies(s1, false);
    assert s2.handlers == map[1 := 1] && s2.natives == map[];
    assert Collectable(s2, 1);
  }
}
