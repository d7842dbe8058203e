/** The tracking lists of the bridge: the static ProxyTracker of Proxy.h,
    the locked ProxyTracker of Proxy.cpp, LinkedList<T> (LinkedList.h) and
    ListOfCleanables (ListOfCleanables.cpp). All four are singly linked
    lists with the same three operations; the locking is left out, so one
    model serves them all. A list is the sequence of its nodes' elements,
    head first. */
module Registry {
  import opened Common

  /** StartTracking / Add: a new node holding `x` becomes the head. */
  function Add<T>(list: seq<T>, x: T): (r: seq<T>)
    ensures |r| == |list| + 1 && r[0] == x && r[1..] == list
  {
    [x] + list
  }

  /** The number of nodes a walk from the head passes before reaching one
      holding `x`; |list| when no node holds it. */
  function IndexOf<T(==)>(list: seq<T>, x: T): (k: nat)
    ensures k <= |list|
    ensures forall i :: 0 <= i < k ==> list[i] != x
    ensures k < |list| ==> list[k] == x
    ensures k == |list| <==> x !in list
  {
    if |list| == 0 then 0
    else if list[0] == x then 0
    else 1 + IndexOf(list[1..], x)
  }

  /** Reference definition of StopTracking / Remove: the first node
      holding `x` is unlinked; the others keep their order. */
  function RemoveFirst<T(==)>(list: seq<T>, x: T): (r: seq<T>)
    ensures x !in list ==> r == list
    ensures |r| == (if x in list then |list| - 1 else |list|)
    decreases |list|
  {
    if |list| == 0 then []
    else if list[0] == x then list[1..]
    else [list[0]] + RemoveFirst(list[1..], x)
  }

  /** Removal splices out the node at the first index holding `x`. */
  lemma {:induction false} RemoveFirstSplice<T>(list: seq<T>, x: T)
    requires x in list
    ensures RemoveFirst(list, x) == list[..IndexOf(list, x)] + list[IndexOf(list, x) + 1..]
    decreases |list|
  {
    if list[0] != x {
      assert x in list[1..];
      RemoveFirstSplice(list[1..], x);
      SpliceCons(list, x);
    }
  }

  /** Removal from a list whose head is not `x` keeps the head. */
  lemma RemoveFirstCons<T>(list: seq<T>, x: T)
    requires |list| > 0 && list[0] != x
    ensures RemoveFirst(list, x) == [list[0]] + RemoveFirst(list[1..], x)
  {
  }

  /** The inductive step of RemoveFirstSplice: a splice of the tail with
      the head in front is a splice of the list. */
  lemma SpliceCons<T>(list: seq<T>, x: T)
    requires |list| > 0 && list[0] != x && x in list[1..]
    requires RemoveFirst(list[1..], x) == list[1..][..IndexOf(list[1..], x)] + list[1..][IndexOf(list[1..], x) + 1..]
    ensures RemoveFirst(list, x) == list[..IndexOf(list, x)] + list[IndexOf(list, x) + 1..]
  {
    RemoveFirstCons(list, x);
    var k := IndexOf(list, x);
    SliceCons(list, k);
  }

  /** Slicing the tail around k - 1 is slicing the list around k. */
  lemma SliceCons<T>(list: seq<T>, k: nat)
    requires 0 < k < |list|
    ensures [list[0]] + (list[1..][..k - 1] + list[1..][k..]) == list[..k] + list[k + 1..]
  {
    assert list[1..][..k - 1] == list[1..k];
    assert list[1..][k..] == list[k + 1..];
    assert [list[0]] + list[1..k] == list[..k];
  }

  /** As a bag, removal takes away exactly one occurrence of the element. */
  lemma {:induction false} RemoveFirstBag<T>(list: seq<T>, x: T)
    ensures multiset(RemoveFirst(list, x)) == multiset(list) - multiset{x}
    decreases |list|
  {
    if |list| == 0 {
    } else if list[0] == x {
      assert list == [x] + list[1..];
    } else {
      RemoveFirstBag(list[1..], x);
      BagCons(list, x);
    }
  }

  /** The inductive step of RemoveFirstBag: the head, which is not `x`,
      stays. */
  lemma BagCons<T>(list: seq<T>, x: T)
    requires |list| > 0 && list[0] != x
    requires multiset(RemoveFirst(list[1..], x)) == multiset(list[1..]) - multiset{x}
    ensures multiset(RemoveFirst(list, x)) == multiset(list) - multiset{x}
  {
    RemoveFirstCons(list, x);
    ConsSplit(list);
    MultisetCons(list[0], list[1..]);
    MultisetCons(list[0], RemoveFirst(list[1..], x));
    MultisetAddSub(multiset{list[0]}, multiset(list[1..]), x);
  }

  lemma ConsSplit<T>(list: seq<T>)
    requires |list| > 0
    ensures list == [list[0]] + list[1..]
  {
  }

  lemma MultisetCons<T>(a: T, t: seq<T>)
    ensures multiset([a] + t) == multiset{a} + multiset(t)
  {
  }

  lemma MultisetAddSub<T>(a: multiset<T>, m: multiset<T>, x: T)
    requires a[x] == 0
    ensures a + (m - multiset{x}) == (a + m) - multiset{x}
  {
  }

  /** On a list that tracks each element once, removal untracks exactly
      the removed element and keeps the list duplicate free. */
  lemma {:induction false} RemoveFirstNoDup<T>(list: seq<T>, x: T)
    requires NoDup(list)
    ensures NoDup(RemoveFirst(list, x))
    ensures forall q :: q in RemoveFirst(list, x) <==> q in list && q != x
    decreases |list|
  {
    if |list| > 0 {
      var tail := list[1..];
      assert NoDup(tail);
      assert list[0] !in tail by {
        forall i | 0 <= i < |tail| ensures tail[i] != list[0] {
          assert list[i + 1] == tail[i];
        }
      }
      assert forall q :: q in list <==> q == list[0] || q in tail;
      if list[0] != x {
        RemoveFirstNoDup(tail, x);
        var rest := RemoveFirst(tail, x);
        var r := [list[0]] + rest;
        assert RemoveFirst(list, x) == r;
        forall i, j | 0 <= i < j < |r| ensures r[i] != r[j] {
          if i == 0 {
            assert r[j] == rest[j - 1];
          } else {
            assert r[i] == rest[i - 1] && r[j] == rest[j - 1];
          }
        }
      }
    }
  }

  /** StopTracking / Remove as written: walk with a current and a previous
      node until a node holds `x`, then unlink it from the head or from
      its predecessor. */
  method Remove<T(==)>(list: seq<T>, x: T) returns (r: seq<T>)
    ensures r == RemoveFirst(list, x)
  {
    var current := 0;
    while current < |list| && list[current] != x
      invariant 0 <= current <= |list|
      invariant forall i :: 0 <= i < current ==> list[i] != x
    {
      current := current + 1;
    }
    if current < |list| {
      if current == 0 {
        r := list[1..];
      } else {
        r := list[..current] + list[current + 1..];
      }
      RemoveFirstSplice(list, x);
    } else {
      r := list;
    }
  }

  /** Removing what was just added gives the list back. */
  lemma RemoveUndoesAdd<T>(list: seq<T>, x: T)
    ensures RemoveFirst(Add(list, x), x) == list
  {
  }

  /** Removing an element removes exactly one node holding it and no other
      element, and an element tracked once is no longer tracked. */
  lemma RemoveDropsOneOccurrence<T>(list: seq<T>, x: T, y: T)
    requires x in list
    ensures Count(RemoveFirst(list, x), x) + 1 == Count(list, x)
    ensures y != x ==> Count(RemoveFirst(list, x), y) == Count(list, y)
    ensures NoDup(list) ==> x !in RemoveFirst(list, x)
  {
    RemoveFirstBag(list, x);
    CountIsMultiplicity(list, x);
    CountIsMultiplicity(RemoveFirst(list, x), x);
    CountIsMultiplicity(list, y);
    CountIsMultiplicity(RemoveFirst(list, x), y);
    if NoDup(list) {
      NoDupCount(list, x);
    }
  }

  /** The list a bulk teardown leaves behind: starting from `head`, each
      element's cleanup in turn may change the (detached-from) list. */
  function AfterCleanups<T>(list: seq<T>, cleanup: (T, seq<T>) -> seq<T>, head: seq<T>): seq<T>
    decreases |list|
  {
    if |list| == 0 then head else AfterCleanups(list[1..], cleanup, cleanup(list[0], head))
  }

  /** DeleteAllProxies / CleanupAll: the head is cleared first; then each
      node, head to tail, has its element cleaned up. `cleanup` is what a
      cleanup does to the tracker's list: a proxy's destructor calls
      StopTracking on it, and a cleanup may also construct new tracked
      objects. `seen` records the length of the list each cleanup finds.
      Returns the elements cleaned, in order, and the final list. Whatever
      the cleanups do, exactly the detached elements are cleaned; when no
      cleanup lengthens the list, every cleanup finds it empty and it ends
      empty. */
  method CleanupAll<T(==)>(list: seq<T>, cleanup: (T, seq<T>) -> seq<T>) returns (cleaned: seq<T>, seen: seq<nat>, head: seq<T>)
    ensures cleaned == list
    ensures |seen| == |list|
    ensures forall i :: 0 <= i < |seen| ==> seen[i] == |AfterCleanups(list[..i], cleanup, [])|
    ensures head == AfterCleanups(list, cleanup, [])
    ensures (forall x, l :: |cleanup(x, l)| <= |l|) ==>
      head == [] && forall i :: 0 <= i < |seen| ==> seen[i] == 0
  {
    var current := 0;
    head := [];
    cleaned := [];
    seen := [];
    while current < |list|
      invariant 0 <= current <= |list|
      invariant cleaned == list[..current]
      invariant |seen| == current
      invariant forall i :: 0 <= i < |seen| ==> seen[i] == |AfterCleanups(list[..i], cleanup, [])|
      invariant AfterCleanups(list, cleanup, []) == AfterCleanups(list[current..], cleanup, head)
      invariant head == AfterCleanups(list[..current], cleanup, [])
      invariant (forall x, l :: |cleanup(x, l)| <= |l|) ==>
        head == [] && forall i :: 0 <= i < |seen| ==> seen[i] == 0
    {
      var obj := list[current];
      AfterCleanupsSnoc(list[..current], obj, cleanup, []);
      assert list[..current + 1] == list[..current] + [obj];
      current := current + 1;
      cleaned := cleaned + [obj];
      seen := seen + [|head|];
      head := cleanup(obj, head);
    }
    assert list[..current] == list;
  }

  /** One more cleanup at the end of the list runs last. */
  lemma {:induction false} AfterCleanupsSnoc<T>(list: seq<T>, x: T, cleanup: (T, seq<T>) -> seq<T>, head: seq<T>)
    ensures AfterCleanups(list + [x], cleanup, head) == cleanup(x, AfterCleanups(list, cleanup, head))
    decreases |list|
  {
    if |list| == 0 {
      assert list + [x] == [x];
    } else {
      assert (list + [x])[1..] == list[1..] + [x];
      AfterCleanupsSnoc(list[1..], x, cleanup, cleanup(list[0], head));
    }
  }

  /** The proxy teardown: every cleanup is a destructor whose StopTracking
      removes its element from the (already empty) list, so the list stays
      empty throughout. */
  lemma {:induction false} TeardownByStopTrackingEndsEmpty<T>(list: seq<T>)
    ensures AfterCleanups(list, (x, l) => RemoveFirst(l, x), []) == []
    decreases |list|
  {
    if |list| > 0 {
      assert RemoveFirst([], list[0]) == [];
      TeardownByStopTrackingEndsEmpty(list[1..]);
    }
  }
}
