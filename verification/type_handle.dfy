/** The lazily resolved class handle (`Class` in APIHelper.h and
    APIHelper.cpp) and the null-safe array accessors of APIHelper.h. */
module TypeHandle {
  import opened Common
  import opened HandleRef

  /** Native buffers holding copies of class names: address to contents,
      the next fresh address, and the log of freed addresses. */
  datatype NameHeap = NameHeap(live: map<nat, string>, next: nat, freeLog: seq<nat>)

  /** Every live buffer lies below the next fresh address. */
  predicate NameHeapOk(names: NameHeap) {
    forall a :: a in names.live ==> a < names.next
  }

  /** A Class: the address of its own copy of the name and the counter of
      its strong Ref to the resolved class. */
  datatype ClassHandle = ClassHandle(nameAddr: nat, ref: nat)

  /** The constructor: copies the name into a fresh buffer that only this
      Class owns, and wraps the optional initial class in a strong Ref. */
  function NewClass(names: NameHeap, h: Heap, name: string, clazz: nat, allocOk: bool): (r: (NameHeap, Heap, ClassHandle))
    requires NameHeapOk(names)
    ensures NameHeapOk(r.0)
    ensures r.2.nameAddr !in names.live
    ensures r.0.live == names.live[r.2.nameAddr := name]
    ensures r.0.freeLog == names.freeLog
    ensures r.2.ref in r.1.counters && r.1.counters[r.2.ref].count == 1 && r.1.counters[r.2.ref].strategy == Strong
    ensures clazz == 0 ==> Get(r.1, r.2.ref) == 0 && r.1.allocCalls == h.allocCalls
  {
    var a := names.next;
    var (h1, c) := NewRef(h, clazz, Strong, allocOk);
    (NameHeap(names.live[a := name], a + 1, names.freeLog), h1, ClassHandle(a, c))
  }

  /** The destructor: frees the name buffer, then the Ref member is dropped;
      `releaseRuns` says whether a free it causes reaches the host. */
  function DeleteClass(names: NameHeap, h: Heap, cls: ClassHandle, releaseRuns: bool): (r: (NameHeap, Heap))
    requires cls.nameAddr in names.live
    requires cls.ref in h.counters && h.counters[cls.ref].count >= 1
    ensures cls.nameAddr !in r.0.live
    ensures r.0.live == names.live - {cls.nameAddr}
    ensures r.0.freeLog == names.freeLog + [cls.nameAddr]
  {
    (names.(live := names.live - {cls.nameAddr}, freeLog := names.freeLog + [cls.nameAddr]),
     DropRef(h, cls.ref, releaseRuns))
  }

  /** A Class's lifetime leaves the name buffers as it found them and frees
      its own copy exactly once; the name it held was the one given. */
  lemma {:induction false} ClassNameLifetime(names: NameHeap, h: Heap, name: string, clazz: nat, allocOk: bool, releaseRuns: bool)
    requires NameHeapOk(names)
    ensures var (n1, h1, cls) := NewClass(names, h, name, clazz, allocOk);
      && n1.live[cls.nameAddr] == name
      && DeleteClass(n1, h1, cls, releaseRuns).0.live == names.live
      && Count(DeleteClass(n1, h1, cls, releaseRuns).0.freeLog, cls.nameAddr) == Count(names.freeLog, cls.nameAddr) + 1
  {
    var (n1, h1, cls) := NewClass(names, h, name, clazz, allocOk);
    var n2 := DeleteClass(n1, h1, cls, releaseRuns).0;
    assert n2.live == names.live;
    CountIsMultiplicity(n2.freeLog, cls.nameAddr);
    CountIsMultiplicity(names.freeLog, cls.nameAddr);
  }

  /** What a Class's Ref must satisfy for its conversion to be well defined:
      the class is not copyable, so it is the sole owner of its counter; and
      the allocator hands out only non-null handles. */
  predicate SoleOwner(h: Heap, cls: ClassHandle) {
    cls.ref in h.counters && cls.ref < h.nextCounter && h.counters[cls.ref].count == 1
    && h.nextRef > 0
  }

  /** Conversion to a class handle. A cached non-null handle is returned
      with no lookup. Otherwise the class is looked up by name (`found` is
      the lookup's result) and the result is stored through a temporary
      strong Ref, so a null result stays uncached and the next use retries.
      Returns the heap, the Class, the handle, and whether a lookup ran. */
  function Resolve(h: Heap, cls: ClassHandle, found: nat, allocOk: bool): (r: (Heap, ClassHandle, nat, bool))
    requires SoleOwner(h, cls)
    ensures SoleOwner(r.0, r.1)
    ensures r.1.nameAddr == cls.nameAddr
    ensures Get(r.0, r.1.ref) == r.2
    ensures Get(h, cls.ref) != 0 ==> r == (h, cls, Get(h, cls.ref), false)
    ensures Get(h, cls.ref) == 0 ==> r.3 && r.2 == (if found != 0 && allocOk then h.nextRef else 0)
    ensures Get(h, cls.ref) == 0 ==> r.0.freeLog == h.freeLog && cls.ref !in r.0.counters
  {
    var cur := Get(h, cls.ref);
    if cur != 0 then (h, cls, cur, false)
    else
      var (h1, tmp) := NewRef(h, found, Strong, allocOk);
      // The assignment releases the old Ref to a null handle; the drop of the
      // temporary only lowers its shared count. Neither issues a free.
      var h2 := AssignRef(h1, cls.ref, tmp, true);
      var h3 := DropRef(h2, tmp, true);
      (h3, cls.(ref := tmp), Get(h3, tmp), true)
  }

  /** Index of the first attempt whose lookup would yield a handle, or the
      number of attempts. */
  function FirstSuccess(attempts: seq<(nat, bool)>): (k: nat)
    ensures k <= |attempts|
  {
    if |attempts| == 0 then 0
    else if attempts[0].0 != 0 && attempts[0].1 then 0
    else 1 + FirstSuccess(attempts[1..])
  }

  /** Uses a Class once per attempt; returns the final heap and Class, the
      number of lookups and the last handle returned. */
  function ResolveMany(h: Heap, cls: ClassHandle, attempts: seq<(nat, bool)>): (r: (Heap, ClassHandle, nat, nat))
    requires SoleOwner(h, cls)
    ensures SoleOwner(r.0, r.1)
    decreases |attempts|
  {
    if |attempts| == 0 then (h, cls, 0, Get(h, cls.ref))
    else
      var (h1, c1, v, looked) := Resolve(h, cls, attempts[0].0, attempts[0].1);
      var (h2, c2, n, last) := ResolveMany(h1, c1, attempts[1..]);
      (h2, c2, n + (if looked then 1 else 0), last)
  }

  /** Once resolved, a Class answers every later use from its cache. */
  lemma {:induction false} CachedNeverLooksUp(h: Heap, cls: ClassHandle, attempts: seq<(nat, bool)>)
    requires SoleOwner(h, cls) && Get(h, cls.ref) != 0
    ensures ResolveMany(h, cls, attempts).2 == 0
    ensures ResolveMany(h, cls, attempts).3 == Get(h, cls.ref)
    decreases |attempts|
  {
    if |attempts| > 0 {
      CachedNeverLooksUp(h, cls, attempts[1..]);
    }
  }

  /** Starting unresolved, a Class looks its name up on every use until the
      first successful one, and never again after it. */
  lemma {:induction false} LookupsUntilFirstSuccess(h: Heap, cls: ClassHandle, attempts: seq<(nat, bool)>)
    requires SoleOwner(h, cls) && Get(h, cls.ref) == 0
    ensures ResolveMany(h, cls, attempts).2 ==
      (if FirstSuccess(attempts) < |attempts| then FirstSuccess(attempts) + 1 else |attempts|)
    decreases |attempts|
  {
    if |attempts| > 0 {
      var (h1, c1, v, looked) := Resolve(h, cls, attempts[0].0, attempts[0].1);
      if attempts[0].0 != 0 && attempts[0].1 {
        assert Get(h1, c1.ref) != 0;
        CachedNeverLooksUp(h1, c1, attempts[1..]);
      } else {
        LookupsUntilFirstSuccess(h1, c1, attempts[1..]);
      }
    }
  }

  // ---------------------------------------------------------------------
  // Null-safe array access
  // ---------------------------------------------------------------------

  /** ArrayBase::Length: a null array has length 0 and makes no host call;
      otherwise the host's length is returned. Returns the length and
      whether the host was called. */
  function ArrayLength(arr: nat, hostLength: nat): (r: (nat, bool))
    ensures r.1 <==> arr != 0
    ensures arr == 0 ==> r.0 == 0
    ensures arr != 0 ==> r.0 == hostLength
  {
    if arr != 0 then (hostLength, true) else (0, false)
  }

  /** PrimitiveArrayBase::operator[]: the element starts at 0; for a non-null
      array the host region copy may overwrite it (`region` is what it
      writes, None when it writes nothing). Returns the element and whether
      the host was called. */
  function ArrayElement(arr: nat, region: Option<int>): (r: (int, bool))
    ensures r.1 <==> arr != 0
    ensures arr == 0 || region.None? ==> r.0 == 0
    ensures arr != 0 && region.Some? ==> r.0 == region.value
  {
    var value := 0;
    if arr != 0 then (region.GetOr(value), true) else (value, false)
  }
}
