/** ExpandingArray<T> (ExpandingArray.h): a growable array that doubles its
    capacity when full and removes by moving the last element into the
    freed slot. The functional model below states each operation; the class
    in ExpandingArrayClass performs the same steps on a Dafny array. The
    mutex is left out. */
module ExpandingArray {

  /** Initial capacity. */
  const InitialCapacity: nat := 32

  /** The storage (its length is the capacity) and the number of elements
      in use. Slots at and beyond `count` hold stale or indeterminate values. */
  datatype ArrState<T> = ArrState(elements: seq<T>, count: nat)

  /** The invariant every operation keeps: the count never exceeds the
      capacity, and the capacity never falls below the initial one. */
  predicate Valid<T>(a: ArrState<T>) {
    a.count <= |a.elements| && |a.elements| >= InitialCapacity
  }

  /** The elements in use, in index order. */
  function Contents<T>(a: ArrState<T>): seq<T>
    requires Valid(a)
  {
    a.elements[..a.count]
  }

  /** A new array: capacity 32, no elements; `fill` stands for whatever the
      fresh storage holds. */
  function Init<T>(fill: T): (a: ArrState<T>)
    ensures Valid(a) && |a.elements| == InitialCapacity && a.count == 0 && Contents(a) == []
  {
    ArrState(seq(InitialCapacity, _ => fill), 0)
  }

  /** ExpandArray: storage twice as large, every old slot copied to the same
      index; the new slots hold `fill`. */
  function Expand<T>(a: ArrState<T>, fill: T): (r: ArrState<T>)
    requires Valid(a)
    ensures Valid(r)
    ensures |r.elements| == 2 * |a.elements| && r.count == a.count
    ensures forall i :: 0 <= i < |a.elements| ==> r.elements[i] == a.elements[i]
    ensures Contents(r) == Contents(a)
  {
    var bigger := seq(2 * |a.elements|, i requires 0 <= i => if i < |a.elements| then a.elements[i] else fill);
    ArrState(bigger, a.count)
  }

  /** Add: grows first when full, then stores the element at index `count`. */
  function Add<T>(a: ArrState<T>, x: T, fill: T): (r: ArrState<T>)
    requires Valid(a)
    ensures Valid(r)
    ensures Contents(r) == Contents(a) + [x]
    ensures r.count == a.count + 1 && r.elements[a.count] == x
    ensures |r.elements| == (if a.count == |a.elements| then 2 * |a.elements| else |a.elements|)
    ensures forall i :: 0 <= i < |a.elements| && i != a.count ==> r.elements[i] == a.elements[i]
  {
    var b := if a.count == |a.elements| then Expand(a, fill) else a;
    ArrState(b.elements[b.count := x], b.count + 1)
  }

  /** Reference search: the highest index below `count` holding `x`, or -1. */
  function LastIndex<T(==)>(s: seq<T>, x: T): (k: int)
    ensures -1 <= k < |s|
    ensures k >= 0 ==> s[k] == x
    ensures forall i :: k < i < |s| ==> s[i] != x
    ensures k == -1 <==> x !in s
  {
    if |s| == 0 then -1
    else if s[|s| - 1] == x then |s| - 1
    else LastIndex(s[..|s| - 1], x)
  }

  /** Remove: the last occurrence of `x` is overwritten by the last element
      in use (unless it is itself the last) and the count drops by one; an
      absent `x` changes nothing. */
  function Remove<T(==)>(a: ArrState<T>, x: T): (r: ArrState<T>)
    requires Valid(a)
    ensures Valid(r)
    ensures |r.elements| == |a.elements|
    ensures x !in Contents(a) ==> r == a
    ensures x in Contents(a) ==> r.count == a.count - 1
  {
    var i := LastIndex(Contents(a), x);
    if i < 0 then a
    else if i != a.count - 1 then ArrState(a.elements[i := a.elements[a.count - 1]], a.count - 1)
    else ArrState(a.elements, a.count - 1)
  }

  /** Removal takes away exactly one occurrence of a present element, as a
      bag, and leaves every other element where it was except the moved last
      one. */
  lemma {:induction false} RemoveIsBagMinusOne<T>(a: ArrState<T>, x: T)
    requires Valid(a) && x in Contents(a)
    ensures multiset(Contents(Remove(a, x))) == multiset(Contents(a)) - multiset{x}
  {
    var c := Contents(a);
    var i := LastIndex(c, x);
    var n := a.count;
    if i == n - 1 {
      assert c == Contents(Remove(a, x)) + [x];
    } else {
      var p, q, l := c[..i], c[i + 1..n - 1], c[n - 1];
      SplitAround(c, i);
      RemoveMovesLast(a, x, i);
      MoveLastIntoHole(p, x, q, l);
    }
  }

  /** A sequence cut around an inner index and before its last element. */
  lemma SplitAround<T>(c: seq<T>, i: nat)
    requires i < |c| - 1
    ensures c == c[..i] + [c[i]] + c[i + 1..|c| - 1] + [c[|c| - 1]]
  {
  }

  /** When the removed element is not the last, the last takes its slot. */
  lemma RemoveMovesLast<T>(a: ArrState<T>, x: T, i: int)
    requires Valid(a) && x in Contents(a)
    requires i == LastIndex(Contents(a), x) && i != a.count - 1
    ensures var c := Contents(a);
      0 <= i < a.count - 1 && Contents(Remove(a, x)) == c[..i] + [c[a.count - 1]] + c[i + 1..a.count - 1]
  {
  }

  /** Moving the last element into the slot of `x` loses just `x`. */
  lemma MoveLastIntoHole<T>(p: seq<T>, x: T, q: seq<T>, l: T)
    ensures multiset(p + [l] + q) == multiset(p + [x] + q + [l]) - multiset{x}
  {
  }

  /** Removing what was just added restores the contents as a bag. */
  lemma AddThenRemove<T>(a: ArrState<T>, x: T, fill: T)
    requires Valid(a)
    ensures multiset(Contents(Remove(Add(a, x, fill), x))) == multiset(Contents(a))
  {
    var b := Add(a, x, fill);
    assert Contents(b)[a.count] == x;
    RemoveIsBagMinusOne(b, x);
  }

  /** Clear: the count drops to 0, the capacity stays. */
  function Clear<T>(a: ArrState<T>): (r: ArrState<T>)
    requires Valid(a)
    ensures Valid(r) && Contents(r) == [] && |r.elements| == |a.elements|
  {
    a.(count := 0)
  }

  /** GetCount: the number of elements in use. */
  function GetCount<T>(a: ArrState<T>): (n: nat)
    requires Valid(a)
    ensures n == |Contents(a)|
  {
    a.count
  }

  /** operator[]: there is no bounds check, so the index must be in use. */
  function Get<T>(a: ArrState<T>, index: nat): (x: T)
    requires Valid(a) && index < a.count
    ensures x == Contents(a)[index]
  {
    a.elements[index]
  }

  /** The search loop of Remove, counting down from the last element in use. */
  method FindLast<T(==)>(elements: array<T>, count: nat, x: T) returns (i: int)
    requires count <= elements.Length
    ensures i == LastIndex(elements[..count], x)
  {
    i := count - 1;
    while i >= 0 && elements[i] != x
      invariant -1 <= i < count
      invariant forall j :: i < j < count ==> elements[j] != x
      invariant LastIndex(elements[..count], x) <= i
    {
      i := i - 1;
    }
    LastIndexIsUnique(elements[..count], x, i);
  }

  /** The last index is the only index holding `x` with no `x` after it. */
  lemma LastIndexIsUnique<T>(s: seq<T>, x: T, k: int)
    requires -1 <= k < |s|
    requires k >= 0 ==> s[k] == x
    requires forall j :: k < j < |s| ==> s[j] != x
    ensures LastIndex(s, x) == k
  {
  }
}

/** The imperative ExpandingArray<T>: each method performs the source's
    steps on a Dafny array and is shown equal to the functional operation. */
module ExpandingArrayClass {
  import opened ExpandingArray

  /** The array itself: storage, count, and the stand-in for the contents of
      freshly allocated storage. */
  class Array<T(==)> {
    var elements: array<T>
    var count: nat
    const fill: T

    /** The functional state this object represents. */
    ghost function Model(): ArrState<T>
      reads this, elements
    {
      ArrState(elements[..], count)
    }

    ghost predicate Inv()
      reads this, elements
    {
      Valid(Model())
    }

    constructor(fill: T)
      ensures Inv() && Model() == Init(fill) && fresh(elements)
    {
      this.fill := fill;
      elements := new T[InitialCapacity](_ => fill);
      count := 0;
    }

    method ExpandArray()
      requires Inv()
      modifies this
      ensures Inv() && Model() == Expand(old(Model()), fill) && fresh(elements)
    {
      var bigger := new T[2 * elements.Length](_ => fill);
      var i := 0;
      while i < elements.Length
        invariant 0 <= i <= elements.Length && bigger.Length == 2 * elements.Length
        modifies bigger
        invariant forall j :: 0 <= j < i ==> bigger[j] == elements[j]
        invariant forall j :: elements.Length <= j < bigger.Length ==> bigger[j] == fill
      {
        bigger[i] := elements[i];
        i := i + 1;
      }
      assert bigger[..] == Expand(Model(), fill).elements;
      elements := bigger;
    }

    method Add(x: T)
      requires Inv()
      modifies this, elements
      ensures Inv() && Model() == ExpandingArray.Add(old(Model()), x, fill)
    {
      if count == elements.Length {
        ExpandArray();
      }
      elements[count] := x;
      count := count + 1;
    }

    method Remove(x: T)
      requires Inv()
      modifies this, elements
      ensures Inv() && Model() == ExpandingArray.Remove(old(Model()), x)
    {
      var i := FindLast(elements, count, x);
      if i >= 0 {
        if i != count - 1 {
          elements[i] := elements[count - 1];
        }
        count := count - 1;
      }
    }

    method Clear()
      requires Inv()
      modifies this
      ensures Inv() && Model() == ExpandingArray.Clear(old(Model()))
    {
      count := 0;
    }

    method GetCount() returns (n: nat)
      requires Inv()
      ensures n == ExpandingArray.GetCount(Model())
    {
      n := count;
    }

    method Get(index: nat) returns (x: T)
      requires Inv() && index < count
      ensures x == ExpandingArray.Get(Model(), index)
    {
      x := elements[index];
    }
  }
}
