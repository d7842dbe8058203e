/** Reference-counted handles to host objects: Ref<RefType, ObjType> and its
    RefCounter in APIHelper.h, with the strong and weak global-reference
    allocators.

    Native memory is a map from counter addresses to counters; the host's
    global-reference tables are two sets of handles. Every Alloc and every
    Free is logged so that "released exactly once" can be stated. A Free is
    a gated host call; one whose gate stays closed leaves its handle in the
    host's table, and the model records it as leaked. */
module HandleRef {
  import opened Common

  /** Which allocator a Ref uses: GlobalRefAllocator or WeakGlobalRefAllocator. */
  datatype Strategy = Strong | Weak

  /** A shared counter: the handle it owns (0 is null), how many Refs share
      it, and the allocator that must release the handle. */
  datatype Counter = Counter(obj: nat, count: nat, strategy: Strategy)

  /** Native counters plus the host's global-reference tables.
      `allocCalls` counts Alloc calls; `allocLog` and `freeLog` log the
      non-null handles Alloc returned and the handles Free received;
      `leaked` holds the handles whose Free did not reach the host. */
  datatype Heap = Heap(
    counters: map<nat, Counter>,
    nextCounter: nat,
    strongRefs: set<nat>,
    weakRefs: set<nat>,
    nextRef: nat,
    allocCalls: nat,
    allocLog: seq<nat>,
    freeLog: seq<nat>,
    leaked: set<nat>)

  /** A heap with no counters and no global references. */
  function EmptyHeap(): Heap {
    Heap(map[], 0, {}, {}, 1, 0, [], [], {})
  }

  /** Handles held by counters of one allocator. */
  function ObjsOf(counters: map<nat, Counter>, s: Strategy): set<nat> {
    set c | c in counters && counters[c].obj != 0 && counters[c].strategy == s :: counters[c].obj
  }

  /** Constructs a Ref: a fresh counter seeded at 1. A null object issues no
      Alloc and stores null; any other object issues exactly one Alloc, whose
      result (a fresh handle, or null when the host call fails) is stored. */
  function NewRef(h: Heap, obj: nat, s: Strategy, allocOk: bool): (r: (Heap, nat))
    ensures r.1 in r.0.counters && r.0.counters[r.1].count == 1 && r.0.counters[r.1].strategy == s
    ensures r.0.counters == h.counters[r.1 := r.0.counters[r.1]]
    ensures obj == 0 ==> r.0.allocCalls == h.allocCalls && r.0.counters[r.1].obj == 0
    ensures obj != 0 ==> r.0.allocCalls == h.allocCalls + 1
    ensures obj != 0 && allocOk ==> r.0.counters[r.1].obj == h.nextRef && r.0.allocLog == h.allocLog + [h.nextRef]
    ensures !(obj != 0 && allocOk) ==> r.0.counters[r.1].obj == 0 && r.0.allocLog == h.allocLog
    ensures r.0.freeLog == h.freeLog && r.0.leaked == h.leaked
  {
    var c := h.nextCounter;
    if obj == 0 then
      (h.(counters := h.counters[c := Counter(0, 1, s)], nextCounter := c + 1), c)
    else if !allocOk then
      (h.(counters := h.counters[c := Counter(0, 1, s)], nextCounter := c + 1,
          allocCalls := h.allocCalls + 1), c)
    else
      var g := h.nextRef;
      var h1 := h.(counters := h.counters[c := Counter(g, 1, s)], nextCounter := c + 1,
                   nextRef := g + 1, allocCalls := h.allocCalls + 1, allocLog := h.allocLog + [g]);
      if s == Strong then (h1.(strongRefs := h.strongRefs + {g}), c)
      else (h1.(weakRefs := h.weakRefs + {g}), c)
  }

  /** Copy construction: the new Ref shares the counter, whose count grows by one. */
  function CopyRef(h: Heap, c: nat): (r: Heap)
    requires c in h.counters
    ensures c in r.counters && r.counters[c].count == h.counters[c].count + 1
    ensures r.counters[c].obj == h.counters[c].obj
    ensures forall d :: d != c ==> (d in r.counters <==> d in h.counters)
    ensures forall d :: d in h.counters && d != c ==> r.counters[d] == h.counters[d]
    ensures r.freeLog == h.freeLog && r.allocCalls == h.allocCalls && r.leaked == h.leaked
  {
    var k := h.counters[c];
    h.(counters := h.counters[c := k.(count := k.count + 1)])
  }

  /** Releases the handle a dying counter owns through its own allocator.
      The allocators free through DeleteGlobalRef and DeleteWeakGlobalRef,
      non-checking gated calls on a non-null handle: they reach the host
      only when a call context is obtainable, which `releaseRuns` says.
      Either way the Ref lets go of the handle and the release is logged;
      one that does not reach the host leaves the handle in its table. */
  function Free(h: Heap, k: Counter, releaseRuns: bool): (r: Heap)
    ensures k.obj == 0 ==> r == h
    ensures k.obj != 0 ==> r.freeLog == h.freeLog + [k.obj]
    ensures k.obj != 0 && releaseRuns ==>
      && r.leaked == h.leaked
      && r.strongRefs == (if k.strategy == Strong then h.strongRefs - {k.obj} else h.strongRefs)
      && r.weakRefs == (if k.strategy == Strong then h.weakRefs else h.weakRefs - {k.obj})
    ensures k.obj != 0 && !releaseRuns ==>
      r.leaked == h.leaked + {k.obj} && r.strongRefs == h.strongRefs && r.weakRefs == h.weakRefs
    ensures r.counters == h.counters && r.nextCounter == h.nextCounter && r.nextRef == h.nextRef
    ensures r.allocCalls == h.allocCalls && r.allocLog == h.allocLog
  {
    if k.obj == 0 then h
    else
      var h1 := h.(freeLog := h.freeLog + [k.obj]);
      if !releaseRuns then h1.(leaked := h.leaked + {k.obj})
      else if k.strategy == Strong then h1.(strongRefs := h.strongRefs - {k.obj})
      else h1.(weakRefs := h.weakRefs - {k.obj})
  }

  /** Destroys a Ref: the count drops by one; when it reaches zero the
      counter is deleted and its handle, if non-null, is freed once. */
  function DropRef(h: Heap, c: nat, releaseRuns: bool): (r: Heap)
    requires c in h.counters && h.counters[c].count >= 1
    ensures h.counters[c].count > 1 ==>
      c in r.counters && r.counters[c].count == h.counters[c].count - 1 && r.freeLog == h.freeLog
    ensures h.counters[c].count == 1 ==> c !in r.counters
    ensures h.counters[c].count == 1 && h.counters[c].obj != 0 ==> r.freeLog == h.freeLog + [h.counters[c].obj]
    ensures h.counters[c].count == 1 && h.counters[c].obj == 0 ==> r.freeLog == h.freeLog
    ensures h.counters[c].count == 1 && h.counters[c].obj != 0 && !releaseRuns ==>
      r.leaked == h.leaked + {h.counters[c].obj}
    ensures !(h.counters[c].count == 1 && h.counters[c].obj != 0 && !releaseRuns) ==> r.leaked == h.leaked
    ensures forall d :: d != c ==> (d in r.counters <==> d in h.counters)
    ensures forall d :: d in h.counters && d != c ==> r.counters[d] == h.counters[d]
  {
    var k := h.counters[c];
    if k.count > 1 then h.(counters := h.counters[c := k.(count := k.count - 1)])
    else Free(h.(counters := h.counters - {c}), k, releaseRuns)
  }

  /** Assignment: a Ref already sharing the source's counter is untouched;
      otherwise the old counter is released and the source's acquired. */
  function AssignRef(h: Heap, dst: nat, src: nat, releaseRuns: bool): (r: Heap)
    requires dst in h.counters && h.counters[dst].count >= 1 && src in h.counters
    ensures dst == src ==> r == h
    ensures dst != src ==> src in r.counters && r.counters[src].count == h.counters[src].count + 1
    ensures dst != src ==> r == CopyRef(DropRef(h, dst, releaseRuns), src)
  {
    if dst == src then h else CopyRef(DropRef(h, dst, releaseRuns), src)
  }

  /** Reading the raw handle: no host call. */
  function Get(h: Heap, c: nat): nat
    requires c in h.counters
  {
    h.counters[c].obj
  }

  // ---------------------------------------------------------------------
  // Exactly-once release over any sequence of Ref operations
  // ---------------------------------------------------------------------

  /** One step by some native code holding Refs. `holders` has one entry
      per live Ref object: the counter it points to. A step that may free
      carries whether the free reaches the host. */
  datatype RefOp =
    | New(obj: nat, strategy: Strategy, allocOk: bool)
    | CopyOf(c: nat)
    | DropOf(c: nat, releaseRuns: bool)
    | AssignTo(dst: nat, src: nat, releaseRuns: bool)

  /** Operations may only name counters some live Ref points to. */
  predicate Enabled(holders: multiset<nat>, op: RefOp) {
    match op
    case New(_, _, _) => true
    case CopyOf(c) => c in holders
    case DropOf(c, _) => c in holders
    case AssignTo(dst, src, _) => dst in holders && src in holders
  }

  /** Counts agree with the Refs that share each counter. */
  ghost predicate CountsMatch(h: Heap, holders: multiset<nat>) {
    && (forall c :: c in holders <==> c in h.counters)
    && (forall c :: c in h.counters ==> h.counters[c].count == holders[c])
    && (forall c :: c in h.counters ==> c < h.nextCounter)
  }

  /** Every live global reference belongs to exactly one counter; the two
      tables are what the counters hold plus the leaked handles; every
      allocated handle is either still held or was freed exactly once; and
      a freed handle stays in a table exactly when it leaked. */
  ghost predicate HandlesMatch(h: Heap) {
    && h.nextRef > 0
    && (forall c, d :: c in h.counters && d in h.counters && c != d && h.counters[c].obj != 0
          ==> h.counters[c].obj != h.counters[d].obj)
    && h.strongRefs - h.leaked == ObjsOf(h.counters, Strong)
    && h.weakRefs - h.leaked == ObjsOf(h.counters, Weak)
    && h.leaked <= h.strongRefs + h.weakRefs
    && (forall i :: 0 <= i < |h.allocLog| ==> 0 < h.allocLog[i] < h.nextRef)
    && NoDup(h.allocLog)
    && NoDup(h.freeLog)
    && (forall g :: g in h.freeLog ==> (g in h.leaked <==> g in h.strongRefs || g in h.weakRefs))
    && (forall g :: g in h.leaked ==> g in h.freeLog)
    && (forall g :: g in h.allocLog <==> g in h.freeLog || g in h.strongRefs || g in h.weakRefs)
  }

  ghost predicate Inv(h: Heap, holders: multiset<nat>) {
    CountsMatch(h, holders) && HandlesMatch(h)
  }

  lemma EmptyHeapInv()
    ensures Inv(EmptyHeap(), multiset{})
  {
  }

  /** Applies one operation to the heap and to the multiset of live Refs. */
  function Step(h: Heap, holders: multiset<nat>, op: RefOp): (r: (Heap, multiset<nat>))
    requires Inv(h, holders) && Enabled(holders, op)
  {
    match op
    case New(obj, s, ok) =>
      var (h1, c) := NewRef(h, obj, s, ok);
      (h1, holders + multiset{c})
    case CopyOf(c) => (CopyRef(h, c), holders + multiset{c})
    case DropOf(c, ok) => (DropRef(h, c, ok), holders - multiset{c})
    case AssignTo(dst, src, ok) =>
      (AssignRef(h, dst, src, ok), if dst == src then holders else holders - multiset{dst} + multiset{src})
  }

  lemma ObjsOfAdd(m: map<nat, Counter>, c: nat, k: Counter, s: Strategy)
    requires c !in m
    ensures ObjsOf(m[c := k], s) == ObjsOf(m, s) + (if k.obj != 0 && k.strategy == s then {k.obj} else {})
  {
    var m' := m[c := k];
    forall g | g in ObjsOf(m', s)
      ensures g in ObjsOf(m, s) + (if k.obj != 0 && k.strategy == s then {k.obj} else {})
    {
      var d :| d in m' && m'[d].obj != 0 && m'[d].strategy == s && m'[d].obj == g;
      if d != c {
        assert d in m && m[d].obj == g;
      }
    }
    forall g | g in ObjsOf(m, s) ensures g in ObjsOf(m', s) {
      var d :| d in m && m[d].obj != 0 && m[d].strategy == s && m[d].obj == g;
      assert d != c && d in m' && m'[d].obj == g;
    }
    if k.obj != 0 && k.strategy == s {
      assert c in m' && m'[c].obj == k.obj;
    }
  }

  lemma ObjsOfRemove(m: map<nat, Counter>, c: nat, s: Strategy)
    requires c in m
    requires forall a, b :: a in m && b in m && a != b && m[a].obj != 0 ==> m[a].obj != m[b].obj
    ensures ObjsOf(m - {c}, s) == ObjsOf(m, s) - (if m[c].obj != 0 && m[c].strategy == s then {m[c].obj} else {})
  {
    var m' := m - {c};
    forall g | g in ObjsOf(m, s) - (if m[c].obj != 0 && m[c].strategy == s then {m[c].obj} else {})
      ensures g in ObjsOf(m', s)
    {
      var d :| d in m && m[d].obj != 0 && m[d].strategy == s && m[d].obj == g;
      assert d != c;
      assert d in m';
    }
  }

  lemma ObjsOfSameObjs(m: map<nat, Counter>, c: nat, k: Counter, s: Strategy)
    requires c in m && k.obj == m[c].obj && k.strategy == m[c].strategy
    ensures ObjsOf(m[c := k], s) == ObjsOf(m, s)
  {
    var m' := m[c := k];
    forall g | g in ObjsOf(m, s) ensures g in ObjsOf(m', s) {
      var d :| d in m && m[d].obj != 0 && m[d].strategy == s && m[d].obj == g;
      assert d in m' && m'[d].obj == g;
    }
    forall g | g in ObjsOf(m', s) ensures g in ObjsOf(m, s) {
      var d :| d in m' && m'[d].obj != 0 && m'[d].strategy == s && m'[d].obj == g;
      assert d in m && m[d].obj == g;
    }
  }

  lemma {:induction false} NewPreservesInv(h: Heap, holders: multiset<nat>, obj: nat, s: Strategy, ok: bool)
    requires Inv(h, holders)
    ensures Inv(NewRef(h, obj, s, ok).0, holders + multiset{NewRef(h, obj, s, ok).1})
  {
    var (h1, c) := NewRef(h, obj, s, ok);
    assert c !in h.counters;
    NewHandles(h, obj, s, ok);
    var holders' := holders + multiset{c};
    assert forall d :: d in holders' <==> d in h1.counters;
  }

  /** The handle side of construction: a fresh counter, holding either
      null or a fresh handle never allocated, freed or leaked before. */
  lemma NewHandles(h: Heap, obj: nat, s: Strategy, ok: bool)
    requires HandlesMatch(h) && forall d :: d in h.counters ==> d < h.nextCounter
    ensures HandlesMatch(NewRef(h, obj, s, ok).0)
  {
    var (h1, c) := NewRef(h, obj, s, ok);
    var k := h1.counters[c];
    assert c !in h.counters;
    assert h1.counters == h.counters[c := k];
    ObjsOfAdd(h.counters, c, k, Strong);
    ObjsOfAdd(h.counters, c, k, Weak);
    if obj != 0 && ok {
      var g := h.nextRef;
      assert g !in h.allocLog by {
        forall i | 0 <= i < |h.allocLog| ensures h.allocLog[i] != g {
          assert h.allocLog[i] < h.nextRef;
        }
      }
      assert g !in h.freeLog && g !in h.strongRefs && g !in h.weakRefs;
      assert g !in h.leaked;
      assert forall d :: d in h.counters && h.counters[d].obj != 0 ==> h.counters[d].obj in h.strongRefs + h.weakRefs;
      NoDupSnoc(h.allocLog, g);
    }
  }

  lemma {:induction false} CopyPreservesInv(h: Heap, holders: multiset<nat>, c: nat)
    requires Inv(h, holders) && c in holders
    ensures Inv(CopyRef(h, c), holders + multiset{c})
  {
    var h1 := CopyRef(h, c);
    ObjsOfSameObjs(h.counters, c, h1.counters[c], Strong);
    ObjsOfSameObjs(h.counters, c, h1.counters[c], Weak);
  }

  lemma {:induction false} DropPreservesInv(h: Heap, holders: multiset<nat>, c: nat, ok: bool)
    requires Inv(h, holders) && c in holders
    ensures c in h.counters && h.counters[c].count >= 1
    ensures Inv(DropRef(h, c, ok), holders - multiset{c})
  {
    if h.counters[c].count > 1 {
      DropSharedPreservesInv(h, holders, c, ok);
    } else {
      DropLastPreservesInv(h, holders, c, ok);
    }
  }

  /** Dropping one of several Refs to a counter only lowers its count. */
  lemma DropSharedPreservesInv(h: Heap, holders: multiset<nat>, c: nat, ok: bool)
    requires Inv(h, holders) && c in holders && h.counters[c].count > 1
    ensures Inv(DropRef(h, c, ok), holders - multiset{c})
  {
    var h1 := DropRef(h, c, ok);
    ObjsOfSameObjs(h.counters, c, h1.counters[c], Strong);
    ObjsOfSameObjs(h.counters, c, h1.counters[c], Weak);
  }

  /** Dropping the last Ref to a counter removes the counter and frees its
      global reference once, or leaks it when the free is skipped. */
  lemma DropLastPreservesInv(h: Heap, holders: multiset<nat>, c: nat, ok: bool)
    requires Inv(h, holders) && c in holders && h.counters[c].count == 1
    ensures Inv(DropRef(h, c, ok), holders - multiset{c})
  {
    var k := h.counters[c];
    var h1 := DropRef(h, c, ok);
    var holders' := holders - multiset{c};
    ObjsOfRemove(h.counters, c, Strong);
    ObjsOfRemove(h.counters, c, Weak);
    assert holders'[c] == 0;
    assert h1.counters == h.counters - {c};
    if k.obj != 0 {
      DropLastHandles(h, c, ok);
    }
  }

  /** The handle side of dropping the last Ref to a counter that holds a
      handle. */
  lemma DropLastHandles(h: Heap, c: nat, ok: bool)
    requires HandlesMatch(h) && c in h.counters && h.counters[c].count == 1 && h.counters[c].obj != 0
    ensures HandlesMatch(DropRef(h, c, ok))
  {
    var k := h.counters[c];
    var h1 := DropRef(h, c, ok);
    var g := k.obj;
    ObjsOfRemove(h.counters, c, Strong);
    ObjsOfRemove(h.counters, c, Weak);
    assert g in ObjsOf(h.counters, k.strategy);
    assert g !in h.leaked;
    assert g !in h.freeLog;
    NoDupSnoc(h.freeLog, g);
    if k.strategy == Strong {
      ObjNotInOther(h.counters, c, Weak);
      assert g !in h.weakRefs - h.leaked;
    } else {
      ObjNotInOther(h.counters, c, Strong);
      assert g !in h.strongRefs - h.leaked;
    }
  }

  /** A counter's handle is held by no counter of the other allocator. */
  lemma ObjNotInOther(m: map<nat, Counter>, c: nat, s: Strategy)
    requires c in m && m[c].obj != 0 && m[c].strategy != s
    requires forall a, b :: a in m && b in m && a != b && m[a].obj != 0 ==> m[a].obj != m[b].obj
    ensures m[c].obj !in ObjsOf(m, s)
  {
  }

  lemma {:induction false} StepPreservesInv(h: Heap, holders: multiset<nat>, op: RefOp)
    requires Inv(h, holders) && Enabled(holders, op)
    ensures Inv(Step(h, holders, op).0, Step(h, holders, op).1)
  {
    match op
    case New(obj, s, ok) => NewPreservesInv(h, holders, obj, s, ok);
    case CopyOf(c) => CopyPreservesInv(h, holders, c);
    case DropOf(c, ok) => DropPreservesInv(h, holders, c, ok);
    case AssignTo(dst, src, ok) =>
      if dst != src {
        DropPreservesInv(h, holders, dst, ok);
        var h1 := DropRef(h, dst, ok);
        var hs1 := holders - multiset{dst};
        assert src in hs1;
        CopyPreservesInv(h1, hs1, src);
      }
  }

  /** Runs a whole trace; a disabled step stops it. */
  function Run(h: Heap, holders: multiset<nat>, ops: seq<RefOp>): (Heap, multiset<nat>)
    requires Inv(h, holders)
    decreases |ops|
  {
    if |ops| == 0 || !Enabled(holders, ops[0]) then (h, holders)
    else
      StepPreservesInv(h, holders, ops[0]);
      var (h1, hs1) := Step(h, holders, ops[0]);
      Run(h1, hs1, ops[1..])
  }

  /** Every free in the trace reaches the host. */
  predicate AllReleasesRun(ops: seq<RefOp>) {
    forall k :: 0 <= k < |ops| ==> match ops[k]
      case DropOf(_, ok) => ok
      case AssignTo(_, _, ok) => ok
      case _ => true
  }

  /** The exactly-once theorem: along any sequence of constructions, copies,
      assignments and destructions, the invariant holds; once the last Ref
      is gone, no counter remains, every handle Alloc returned was released
      exactly once and nothing else was, and what stays in the host's
      tables is exactly the leaked handles: none at all when every free
      reached the host. */
  lemma {:induction false} RunReleasesExactlyOnce(ops: seq<RefOp>)
    ensures Inv(Run(EmptyHeap(), multiset{}, ops).0, Run(EmptyHeap(), multiset{}, ops).1)
    ensures var (h, holders) := Run(EmptyHeap(), multiset{}, ops);
      holders == multiset{} ==>
        && h.counters == map[]
        && h.strongRefs + h.weakRefs == h.leaked
        && (forall g :: g in h.allocLog ==> Count(h.freeLog, g) == 1)
        && (forall g :: g in h.freeLog ==> g in h.allocLog)
    ensures var (h, holders) := Run(EmptyHeap(), multiset{}, ops);
      AllReleasesRun(ops) && holders == multiset{} ==> h.strongRefs == {} && h.weakRefs == {}
  {
    EmptyHeapInv();
    RunKeepsInv(EmptyHeap(), multiset{}, ops);
    var (h, holders) := Run(EmptyHeap(), multiset{}, ops);
    if holders == multiset{} {
      assert forall c :: c !in h.counters;
      assert h.counters == map[];
      assert ObjsOf(h.counters, Strong) == {} && ObjsOf(h.counters, Weak) == {};
      assert h.strongRefs - h.leaked == {} && h.weakRefs - h.leaked == {};
      forall g | g in h.strongRefs + h.weakRefs ensures g in h.leaked {
        assert g !in h.strongRefs - h.leaked && g !in h.weakRefs - h.leaked;
      }
      forall g | g in h.allocLog ensures Count(h.freeLog, g) == 1 {
        assert g in h.freeLog;
        NoDupCount(h.freeLog, g);
      }
      if AllReleasesRun(ops) {
        RunLeaksOnlySkipped(EmptyHeap(), multiset{}, ops);
      }
    }
  }

  lemma {:induction false} RunKeepsInv(h: Heap, holders: multiset<nat>, ops: seq<RefOp>)
    requires Inv(h, holders)
    ensures Inv(Run(h, holders, ops).0, Run(h, holders, ops).1)
    decreases |ops|
  {
    if |ops| > 0 && Enabled(holders, ops[0]) {
      StepPreservesInv(h, holders, ops[0]);
      var (h1, hs1) := Step(h, holders, ops[0]);
      RunKeepsInv(h1, hs1, ops[1..]);
    }
  }

  /** Only a skipped free leaks: a trace whose frees all reach the host
      leaks nothing new. */
  lemma {:induction false} RunLeaksOnlySkipped(h: Heap, holders: multiset<nat>, ops: seq<RefOp>)
    requires Inv(h, holders) && AllReleasesRun(ops)
    ensures Run(h, holders, ops).0.leaked == h.leaked
    decreases |ops|
  {
    if |ops| > 0 && Enabled(holders, ops[0]) {
      StepPreservesInv(h, holders, ops[0]);
      var (h1, hs1) := Step(h, holders, ops[0]);
      assert h1.leaked == h.leaked by {
        match ops[0]
        case New(obj, s, ok) =>
        case CopyOf(c) =>
        case DropOf(c, ok) => assert ops[0] == DropOf(c, ok);
        case AssignTo(dst, src, ok) => assert ops[0] == AssignTo(dst, src, ok);
      }
      assert AllReleasesRun(ops[1..]) by {
        forall k | 0 <= k < |ops| - 1 ensures ops[1..][k] == ops[k + 1] { }
      }
      RunLeaksOnlySkipped(h1, hs1, ops[1..]);
    }
  }

  /** A free that does not reach the host leaks: a single strong Ref
      constructed and destroyed with no call context at destruction leaves
      its global reference in the host's table. */
  lemma SkippedReleaseLeaks()
    ensures var (h, holders) := Run(EmptyHeap(), multiset{}, [New(7, Strong, true), DropOf(0, false)]);
      holders == multiset{} && h.strongRefs == {1} && h.leaked == {1}
  {
    EmptyHeapInv();
    var (h1, hs1) := Step(EmptyHeap(), multiset{}, New(7, Strong, true));
    assert h1.counters == map[0 := Counter(1, 1, Strong)] && h1.strongRefs == {1} && hs1 == multiset{0};
    var ops := [New(7, Strong, true), DropOf(0, false)];
    assert ops[1..] == [DropOf(0, false)];
    assert Run(EmptyHeap(), multiset{}, ops) == Run(h1, hs1, ops[1..]);
  }

  /** Without its same-counter check, assignment of a Ref to itself would
      release a sole counter and then acquire the deleted one. */
  lemma SelfAssignGuardNeeded(h: Heap, c: nat, ok: bool)
    requires c in h.counters && h.counters[c].count == 1
    ensures c !in DropRef(h, c, ok).counters
    ensures AssignRef(h, c, c, ok) == h
  {
  }
}
