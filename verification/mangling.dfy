/** Identifier mangling in the API generator (APIGenerator.java, safe,
    capitalize, getMethodName, getFieldName, getParameterNames): Java names
    become C++ names that dodge a few reserved words and the name of the
    enclosing class, and generated parameters are numbered. */
module Mangling {
  import opened Common

  /** The words the generator refuses as C++ identifiers. */
  const Keywords: set<string> := {"Assert", "asm", "namespace"}

  /** `k` copies of 'x'. */
  function Xs(k: nat): (r: string)
    ensures |r| == k && forall i :: 0 <= i < k ==> r[i] == 'x'
  {
    seq(k, _ => 'x')
  }

  /** The loop of safe: prefix "x" while the name is reserved. Every keyword
      is shorter than ten characters, which bounds the loop. */
  function Unreserve(name: string): (r: string)
    ensures |r| >= |name| && r == Xs(|r| - |name|) + name
    ensures r !in Keywords
    ensures name !in Keywords ==> r == name
    decreases 10 - |name|
  {
    if name in Keywords then
      var r := Unreserve("x" + name);
      XsCons(|r| - |name| - 1, name, r);
      r
    else name
  }

  /** 'x's before "x" + name are one more 'x' before name. */
  lemma XsCons(k: nat, name: string, r: string)
    requires r == Xs(k) + ("x" + name)
    ensures |r| == k + 1 + |name| && r == Xs(k + 1) + name
  {
    assert Xs(k) + "x" == Xs(k + 1);
  }

  /** safe(name, clazz): a name equal to the simple name of its declaring
      class (given as `owner`) gets one "x" first; then reserved words get
      "x" until they are not reserved. */
  function Safe(name: string, owner: Option<string>): (r: string)
    ensures |r| >= |name| && r == Xs(|r| - |name|) + name
    ensures r !in Keywords
    ensures r == name <==> owner != Some(name) && name !in Keywords
  {
    var first := if owner == Some(name) then "x" + name else name;
    var r := Unreserve(first);
    XsPrefix(name, first, r);
    r
  }

  /** Prefixing 'x's twice is prefixing them once. */
  lemma XsPrefix(name: string, first: string, r: string)
    requires |first| >= |name| && first == Xs(|first| - |name|) + name
    requires |r| >= |first| && r == Xs(|r| - |first|) + first
    ensures r == Xs(|r| - |name|) + name
  {
    assert Xs(|r| - |first|) + Xs(|first| - |name|) == Xs(|r| - |name|);
  }

  /** Without an owner, mangling twice is mangling once. */
  lemma SafeIdempotent(name: string)
    ensures Safe(Safe(name, None), None) == Safe(name, None)
  {
  }

  /** Distinct names can meet after mangling: "asm" becomes "xasm", which
      is also what "xasm" stays. */
  lemma SafeMergesNames()
    ensures Safe("asm", None) == Safe("xasm", None) == "xasm"
  {
    assert "asm" in Keywords;
    assert "xasm" !in Keywords;
    assert Unreserve("xasm") == "xasm";
  }

  /** Character.toUpperCase on the ASCII letters; other characters are
      kept as they are. */
  function ToUpper(c: char): (u: char)
    ensures 'a' <= c <= 'z' ==> 'A' <= u <= 'Z' && u as int == c as int - 32
    ensures !('a' <= c <= 'z') ==> u == c
  {
    if 'a' <= c <= 'z' then (c as int - 32) as char else c
  }

  /** capitalize: the first character upper-cased, the rest untouched. The
      generator only passes non-empty Java identifiers; an empty string
      would make it throw. */
  function Capitalize(s: string): (r: string)
    requires |s| > 0
    ensures |r| == |s| && r[1..] == s[1..]
    ensures r[0] == ToUpper(s[0])
    ensures r[0] != 'x' && r[0] != 'f'
  {
    [ToUpper(s[0])] + s[1..]
  }

  /** Capitalizing twice is capitalizing once. */
  lemma CapitalizeIdempotent(s: string)
    requires |s| > 0
    ensures Capitalize(Capitalize(s)) == Capitalize(s)
  {
  }

  /** getMethodName: '$' becomes '_', the name is capitalized and made safe
      against the declaring class's simple name. */
  function MethodName(name: string, owner: string): (r: string)
    requires |name| > 0
    ensures '$' !in r
    ensures |r| >= |name|
    ensures r == Xs(|r| - |name|) + Capitalize(Replace(name, '$', '_'))
    ensures r !in Keywords
    ensures var c := Capitalize(Replace(name, '$', '_')); c != owner && c !in Keywords ==> r == c
  {
    var c := Capitalize(Replace(name, '$', '_'));
    assert forall i :: 0 <= i < |c| ==> c[i] != '$';
    var r := Safe(c, Some(owner));
    assert r == Xs(|r| - |c|) + c;
    r
  }

  /** getFieldName: as getMethodName, with an "f" in front of the
      capitalized name. */
  function FieldName(name: string, owner: string): (r: string)
    requires |name| > 0
    ensures '$' !in r
    ensures |r| > |name|
    ensures r == Xs(|r| - |name| - 1) + "f" + Capitalize(Replace(name, '$', '_'))
    ensures r !in Keywords
    ensures var c := "f" + Capitalize(Replace(name, '$', '_')); c != owner && c !in Keywords ==> r == c
  {
    var cap := Capitalize(Replace(name, '$', '_'));
    var c := "f" + cap;
    assert forall i :: 0 <= i < |c| ==> c[i] != '$';
    var r := Safe(c, Some(owner));
    assert |c| == |name| + 1;
    assert r == Xs(|r| - |c|) + c;
    assert Xs(|r| - |c|) + c == Xs(|r| - |name| - 1) + "f" + cap;
    r
  }

  /** Number of 'x's at the start of `s`. */
  function LeadingXCount(s: string): (k: nat)
    ensures k <= |s|
    decreases |s|
  {
    if |s| > 0 && s[0] == 'x' then 1 + LeadingXCount(s[1..]) else 0
  }

  /** Some 'x's followed by a character other than 'x': the count reads
      back. */
  lemma {:induction false} LeadingXCountOf(j: nat, a: string)
    requires |a| > 0 && a[0] != 'x'
    ensures LeadingXCount(Xs(j) + a) == j
    decreases j
  {
    if j > 0 {
      assert (Xs(j) + a)[1..] == Xs(j - 1) + a;
      LeadingXCountOf(j - 1, a);
    } else {
      assert Xs(j) + a == a;
    }
  }

  /** A string made of some 'x's and then a character other than 'x'
      determines how many 'x's there are and what follows them. */
  lemma LeadingXs(j: nat, a: string, k: nat, b: string)
    requires |a| > 0 && a[0] != 'x' && |b| > 0 && b[0] != 'x'
    requires Xs(j) + a == Xs(k) + b
    ensures j == k && a == b
  {
    LeadingXCountOf(j, a);
    LeadingXCountOf(k, b);
    assert a == (Xs(j) + a)[j..];
    assert b == (Xs(k) + b)[k..];
  }

  /** Mangling keeps apart two names whose first characters differ and
      are not 'x'. */
  lemma SafeKeepsFirstCharacterApart(p: string, q: string, o1: Option<string>, o2: Option<string>)
    requires |p| > 0 && |q| > 0 && p[0] != 'x' && q[0] != 'x' && p[0] != q[0]
    ensures Safe(p, o1) != Safe(q, o2)
  {
    var f := Safe(p, o1);
    var m := Safe(q, o2);
    XsApart(f, p, m, q);
  }

  /** Two strings of leading 'x's followed by different characters other
      than 'x' differ. */
  lemma XsApart(f: string, p: string, m: string, q: string)
    requires |p| > 0 && |q| > 0 && p[0] != 'x' && q[0] != 'x' && p[0] != q[0]
    requires |f| >= |p| && f == Xs(|f| - |p|) + p
    requires |m| >= |q| && m == Xs(|m| - |q|) + q
    ensures f != m
  {
    var j, k := |f| - |p|, |m| - |q|;
    XsThen(j, p);
    XsThen(k, q);
    if j == k {
      assert f[j] != m[j];
    } else {
      assert LeadingXCount(f) != LeadingXCount(m);
    }
  }

  /** After `j` leading 'x's comes the first character of `a`. */
  lemma XsThen(j: nat, a: string)
    requires |a| > 0 && a[0] != 'x'
    ensures LeadingXCount(Xs(j) + a) == j && (Xs(j) + a)[j] == a[0]
  {
    LeadingXCountOf(j, a);
  }

  /** A generated field accessor never takes the name of a generated method
      accessor, in the same class or another one: after the 'x's the field
      name has 'f' where the method name has a capital or a non-letter. */
  lemma FieldAndMethodNamesDiffer(field: string, meth: string, owner1: string, owner2: string)
    requires |field| > 0 && |meth| > 0
    ensures FieldName(field, owner1) != MethodName(meth, owner2)
  {
    var fc := "f" + Capitalize(Replace(field, '$', '_'));
    var mc := Capitalize(Replace(meth, '$', '_'));
    SafeKeepsFirstCharacterApart(fc, mc, Some(owner1), Some(owner2));
  }

  /** A decimal digit. */
  function Digit(d: nat): (c: char)
    requires d < 10
    ensures '0' <= c <= '9'
  {
    ('0' as int + d) as char
  }

  /** The value of a decimal digit. */
  function DigitValue(c: char): nat {
    if '0' <= c <= '9' then c as int - '0' as int else 0
  }

  /** Decimal form of a non-negative int, as StringBuilder.append(int)
      writes it. */
  function Decimal(n: nat): (s: string)
    ensures |s| > 0
    ensures forall i :: 0 <= i < |s| ==> '0' <= s[i] <= '9'
    decreases n
  {
    if n < 10 then [Digit(n)] else Decimal(n / 10) + [Digit(n % 10)]
  }

  /** Reads a string of decimal digits. */
  function ParseDecimal(s: string): nat
    decreases |s|
  {
    if |s| == 0 then 0 else 10 * ParseDecimal(s[..|s| - 1]) + DigitValue(s[|s| - 1])
  }

  /** Reading back the decimal form gives the number. */
  lemma {:induction false} DecimalRoundTrip(n: nat)
    ensures ParseDecimal(Decimal(n)) == n
    decreases n
  {
    if n >= 10 {
      var s := Decimal(n);
      DecimalRoundTrip(n / 10);
      assert s[..|s| - 1] == Decimal(n / 10);
    }
  }

  /** The generated name of parameter `i`. */
  function ArgName(i: nat): string {
    "arg" + Decimal(i)
  }

  /** The names of the first `n` parameters. */
  function ArgNames(n: nat): (r: seq<string>)
    ensures |r| == n && forall i :: 0 <= i < n ==> r[i] == ArgName(i)
  {
    seq(n, i requires 0 <= i => ArgName(i))
  }

  /** The items separated by `sep`, with no separator before the first. */
  function Join(items: seq<string>, sep: string): string
    decreases |items|
  {
    if |items| == 0 then ""
    else if |items| == 1 then items[0]
    else Join(items[..|items| - 1], sep) + sep + items[|items| - 1]
  }

  /** getParameterNames(n): the loop that appends ", " before every name but
      the first. The result is "arg0, arg1, ..., arg(n-1)" and empty for 0. */
  method ParameterNames(n: nat) returns (s: string)
    ensures s == Join(ArgNames(n), ", ")
    ensures s == "" <==> n == 0
  {
    s := "";
    var i := 0;
    while i < n
      invariant 0 <= i <= n
      invariant s == Join(ArgNames(i), ", ")
      invariant s == "" <==> i == 0
    {
      if i > 0 {
        s := s + ", ";
      }
      s := s + "arg" + Decimal(i);
      assert ArgNames(i + 1)[..i] == ArgNames(i);
      i := i + 1;
    }
  }

  /** The generated parameter names are pairwise distinct. */
  lemma ArgNamesDistinct(n: nat)
    ensures NoDup(ArgNames(n))
  {
    forall i, j | 0 <= i < j < n
      ensures ArgNames(n)[i] != ArgNames(n)[j]
    {
      if ArgName(i) == ArgName(j) {
        assert Decimal(i) == ArgName(i)[3..];
        assert Decimal(j) == ArgName(j)[3..];
        DecimalRoundTrip(i);
        DecimalRoundTrip(j);
      }
    }
  }
}
