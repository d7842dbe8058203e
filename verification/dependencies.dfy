/** Dependency collection in the API generator (APIGenerator.java,
    collectDependencies, collectDirectDependencies, isValid): starting from
    the requested classes, every class reachable through superclasses,
    interfaces and the types of public members is recorded in a chain that
    lists each class once, superclass first, and every class is expanded
    at most once. Reflection is replaced by a map from class names to their
    declarations. */
module Dependencies {
  import opened Common
  import opened Descriptors

  /** A declared field: its type and the modifiers isValid(Member) reads. */
  datatype FieldDecl = FieldDecl(ftype: JType, isPublic: bool, synthetic: bool)

  /** A declared method. */
  datatype MethodDecl = MethodDecl(params: seq<JType>, ret: JType, isPublic: bool, synthetic: bool, bridge: bool)

  /** A declared constructor. */
  datatype CtorDecl = CtorDecl(params: seq<JType>, isPublic: bool, synthetic: bool)

  /** What reflection reveals about a class. `inner` is "has an enclosing
      class", `declared` is "has a declaring class"; `depth` is the length
      of its superclass chain, which is what makes that chain finite. */
  datatype ClassDecl = ClassDecl(
    superclass: Option<string>,
    interfaces: seq<string>,
    fields: seq<FieldDecl>,
    methods: seq<MethodDecl>,
    ctors: seq<CtorDecl>,
    inner: bool,
    declared: bool,
    simpleName: string,
    depth: nat)

  /** The classes the generator can load, by binary name. */
  type Universe = map<string, ClassDecl>

  /** A superclass is strictly shallower than its subclass: no class is its
      own ancestor. */
  predicate Wf(u: Universe) {
    forall n :: n in u && u[n].superclass.Some? && u[n].superclass.value in u ==>
      u[u[n].superclass.value].depth < u[n].depth
  }

  /** isAnonymous: inner with no declaring class. */
  predicate IsAnonymous(d: ClassDecl) {
    d.inner && !d.declared
  }

  /** isValid(Class) for a named class: loadable, not anonymous and not a
      package-info. Primitives and null are never valid. */
  predicate IsValidClass(u: Universe, n: string) {
    n in u && !IsAnonymous(u[n]) && u[n].simpleName != "package-info"
  }

  /** isValid(Field): public and not synthetic. */
  predicate IsValidField(f: FieldDecl) {
    f.isPublic && !f.synthetic
  }

  /** isValid(Method): public, not synthetic and not a bridge. */
  predicate IsValidMethod(m: MethodDecl) {
    m.isPublic && !m.synthetic && !m.bridge
  }

  /** isValid(Member) on a constructor, the check collectDependencies
      applies. */
  predicate IsValidCtorMember(c: CtorDecl) {
    c.isPublic && !c.synthetic
  }

  /** isValid(Constructor, Class), the check the class writer applies: a
      public, non-synthetic constructor that is not the copy constructor
      taking exactly one argument of the class itself. */
  predicate IsValidCtor(c: CtorDecl, clazz: string) {
    !(|c.params| == 1 && c.params[0] == Named(clazz)) && IsValidCtorMember(c)
  }

  /** The copy constructor is the one constructor the class writer drops
      that dependency collection keeps. */
  lemma IsValidCtorExactlyDropsCopy(c: CtorDecl, clazz: string)
    ensures IsValidCtor(c, clazz) <==>
      IsValidCtorMember(c) && (|c.params| != 1 || c.params[0] != Named(clazz))
  {
  }

  /** The element type of nested arrays. */
  function Base(t: JType): (b: JType)
    ensures !b.ArrayOf?
  {
    match t
    case ArrayOf(c) => Base(c)
    case _ => t
  }

  /** Termination measure of collectDirectDependencies. */
  function Height(u: Universe, t: JType): nat {
    var b := Base(t);
    if b.Named? && b.name in u then u[b.name].depth + 1 else 0
  }

  /** LinkedHashSet.add: appended unless already present. */
  function AddIfAbsent(chain: seq<string>, n: string): (r: seq<string>)
    ensures n in r
    ensures chain <= r
    ensures NoDup(chain) ==> NoDup(r)
  {
    if n in chain then chain else chain + [n]
  }

  /** The dependency chain is well ordered: no duplicates, only valid
      classes, and the superclass of each class, when valid, comes first. */
  predicate ChainOk(u: Universe, chain: seq<string>) {
    NoDup(chain)
    && forall j :: 0 <= j < |chain| ==>
         IsValidClass(u, chain[j])
         && (u[chain[j]].superclass.Some? && IsValidClass(u, u[chain[j]].superclass.value) ==>
               u[chain[j]].superclass.value in chain[..j])
  }

  /** A well-ordered chain stays well ordered when it grows by a valid
      class whose valid superclass is already in it. */
  lemma {:induction false} ChainOkAdd(u: Universe, chain: seq<string>, n: string)
    requires IsValidClass(u, n)
    requires u[n].superclass.Some? && IsValidClass(u, u[n].superclass.value) ==>
      u[n].superclass.value in chain
    ensures ChainOk(u, chain) ==> ChainOk(u, AddIfAbsent(chain, n))
  {
    if ChainOk(u, chain) && n !in chain {
      var r := chain + [n];
      assert r[..|chain|] == chain;
      forall j | 0 <= j < |r|
        ensures u[r[j]].superclass.Some? && IsValidClass(u, u[r[j]].superclass.value) ==>
          u[r[j]].superclass.value in r[..j]
      {
        if j < |chain| {
          assert r[..j] == chain[..j];
        }
      }
    }
  }

  /** collectDirectDependencies(clazz): strips arrays; returns None for an
      invalid class; otherwise makes sure the superclass chain and then the
      class itself are in the dependency chain, and returns the class. */
  function CollectDirect(u: Universe, t: JType, chain: seq<string>): (r: (seq<string>, Option<string>))
    requires Wf(u)
    ensures r.1 == (if Base(t).Named? && IsValidClass(u, Base(t).name) then Some(Base(t).name) else None)
    ensures r.1.Some? ==> r.1.value in r.0
    ensures r.1.None? ==> r.0 == chain
    ensures chain <= r.0
    ensures ChainOk(u, chain) ==> ChainOk(u, r.0)
    decreases Height(u, t)
  {
    var b := Base(t);
    if !b.Named? || !IsValidClass(u, b.name) then (chain, None)
    else if b.name in chain then (chain, Some(b.name))
    else
      var d := u[b.name];
      var chain1 := if d.superclass.Some? then CollectDirect(u, Named(d.superclass.value), chain).0 else chain;
      ChainOkAdd(u, chain1, b.name);
      (AddIfAbsent(chain1, b.name), Some(b.name))
  }

  /** The valid field types, in declaration order. */
  function FieldTypes(fs: seq<FieldDecl>): seq<JType>
    decreases |fs|
  {
    if |fs| == 0 then []
    else (if IsValidField(fs[0]) then [fs[0].ftype] else []) + FieldTypes(fs[1..])
  }

  /** Parameter and return types of the valid methods, in declaration order. */
  function MethodTypes(ms: seq<MethodDecl>): seq<JType>
    decreases |ms|
  {
    if |ms| == 0 then []
    else (if IsValidMethod(ms[0]) then ms[0].params + [ms[0].ret] else []) + MethodTypes(ms[1..])
  }

  /** Parameter types of the valid constructors, in declaration order. */
  function CtorTypes(cs: seq<CtorDecl>): seq<JType>
    decreases |cs|
  {
    if |cs| == 0 then []
    else (if IsValidCtorMember(cs[0]) then cs[0].params else []) + CtorTypes(cs[1..])
  }

  /** The classes collectDependencies visits from a class, in order:
      superclass, interfaces, field types, method parameter and return
      types, constructor parameter types. */
  function Children(d: ClassDecl): seq<JType> {
    (if d.superclass.Some? then [Named(d.superclass.value)] else [])
    + seq(|d.interfaces|, i requires 0 <= i < |d.interfaces| => Named(d.interfaces[i]))
    + FieldTypes(d.fields) + MethodTypes(d.methods) + CtorTypes(d.ctors)
  }

  /** The two sets of the generator: the dependency chain and the classes
      already expanded, both insertion-ordered. */
  datatype Gen = Gen(chain: seq<string>, visited: seq<string>)

  /** The valid classes of the universe. */
  function ValidSet(u: Universe): set<string> {
    set n | n in u.Keys && IsValidClass(u, n)
  }

  /** Only valid classes are ever expanded. */
  predicate Sound(u: Universe, g: Gen) {
    forall v :: v in g.visited ==> IsValidClass(u, v)
  }

  /** The valid classes not yet expanded: the termination measure. */
  function Remaining(u: Universe, g: Gen): nat {
    |ValidSet(u) - (set v | v in g.visited)|
  }

  lemma {:induction false} SubsetCard<T>(a: set<T>, b: set<T>)
    requires a <= b
    ensures |a| <= |b|
    decreases |b|
  {
    if a != {} {
      var x :| x in a;
      SubsetCard(a - {x}, b - {x});
    }
  }

  /** Expanding more classes never leaves more to expand. */
  lemma RemainingShrinks(u: Universe, g: Gen, g1: Gen)
    requires g.visited <= g1.visited
    ensures Remaining(u, g1) <= Remaining(u, g)
  {
    var seen := set v | v in g.visited;
    var seen1 := set v | v in g1.visited;
    assert seen <= seen1 by {
      forall v | v in g.visited ensures v in g1.visited {
        var i :| 0 <= i < |g.visited| && g.visited[i] == v;
        assert g1.visited[i] == v;
      }
    }
    SubsetCard(ValidSet(u) - seen1, ValidSet(u) - seen);
  }

  /** Expanding a new valid class leaves one fewer to expand. */
  lemma RemainingDrops(u: Universe, g: Gen, c: string)
    requires IsValidClass(u, c) && c !in g.visited
    ensures Remaining(u, Gen(g.chain, g.visited + [c])) < Remaining(u, g)
  {
    var before := ValidSet(u) - (set v | v in g.visited);
    var after := ValidSet(u) - (set v | v in g.visited + [c]);
    assert c in before;
    assert after == before - {c};
    assert before == after + {c};
  }

  /** The facts every step of collection keeps. */
  predicate Grows(u: Universe, g: Gen, r: Gen) {
    Sound(u, r)
    && g.visited <= r.visited
    && g.chain <= r.chain
    && (ChainOk(u, g.chain) ==> ChainOk(u, r.chain))
    && (NoDup(g.visited) ==> NoDup(r.visited))
    && ((forall v :: v in g.visited ==> v in g.chain) ==> forall v :: v in r.visited ==> v in r.chain)
  }

  /** Growth composes. */
  lemma GrowsTrans(u: Universe, g: Gen, g1: Gen, r: Gen)
    requires Grows(u, g, g1) && Grows(u, g1, r)
    ensures Grows(u, g, r)
  {
  }

  /** Marking a new class of the chain as expanded is growth. */
  lemma MarkExpanded(u: Universe, g: Gen, chain: seq<string>, c: string)
    requires Sound(u, g) && IsValidClass(u, c) && c !in g.visited && c in chain
    requires g.chain <= chain && (ChainOk(u, g.chain) ==> ChainOk(u, chain))
    ensures Grows(u, g, Gen(chain, g.visited + [c]))
  {
    var v1 := g.visited + [c];
    if NoDup(g.visited) {
      forall i, j | 0 <= i < j < |v1| ensures v1[i] != v1[j] {
        if j == |g.visited| {
          assert v1[i] in g.visited;
        }
      }
    }
    if forall v :: v in g.visited ==> v in g.chain {
      forall v | v in v1 ensures v in chain {
        if v != c {
          assert v in g.visited;
          assert g.chain == chain[..|g.chain|];
        }
      }
    }
  }

  /** collectDependencies(clazz): collects the direct dependencies; stops
      on an invalid or already expanded class; otherwise marks the class
      expanded and collects every class it refers to. */
  function Collect(u: Universe, t: JType, g: Gen): (r: Gen)
    requires Wf(u) && Sound(u, g)
    ensures Grows(u, g, r)
    ensures Base(t).Named? && IsValidClass(u, Base(t).name) ==> Base(t).name in r.chain
    ensures Base(t).Named? && IsValidClass(u, Base(t).name) ==> Base(t).name in r.visited
    decreases Remaining(u, g), 0, 0
  {
    var (chain, c) := CollectDirect(u, t, g.chain);
    if c.None? then g
    else if c.value in g.visited then
      var r := g.(chain := chain);
      assert forall v :: v in g.chain ==> v in chain by {
        assert g.chain == chain[..|g.chain|];
      }
      r
    else
      var g1 := Gen(chain, g.visited + [c.value]);
      RemainingDrops(u, g, c.value);
      MarkExpanded(u, g, chain, c.value);
      var r := CollectAll(u, Children(u[c.value]), g1);
      GrowsTrans(u, g, g1, r);
      assert c.value in r.visited by {
        assert r.visited[|g.visited|] == g1.visited[|g.visited|];
      }
      r
  }

  /** Collects from each type in turn. */
  function CollectAll(u: Universe, ts: seq<JType>, g: Gen): (r: Gen)
    requires Wf(u) && Sound(u, g)
    ensures Grows(u, g, r)
    decreases Remaining(u, g), 1, |ts|
  {
    if |ts| == 0 then g
    else
      var g1 := Collect(u, ts[0], g);
      RemainingShrinks(u, g, g1);
      CollectAll(u, ts[1..], g1)
  }

  /** Collection from the requested classes on fresh sets: the chain lists
      every requested valid class once, each superclass before its
      subclasses; every class is expanded at most once and only after it
      entered the chain. */
  lemma Generate(u: Universe, roots: seq<JType>)
    requires Wf(u)
    ensures ChainOk(u, CollectAll(u, roots, Gen([], [])).chain)
    ensures NoDup(CollectAll(u, roots, Gen([], [])).visited)
    ensures forall v :: v in CollectAll(u, roots, Gen([], [])).visited ==> v in CollectAll(u, roots, Gen([], [])).chain
  {
  }
}
