/** Type descriptors as the API generator writes them (APIGenerator.java,
    getSignature, getMethodSignature, getConstructorSignature): the field
    and method descriptors of sections 4.3.2 and 4.3.3 of the Java Virtual
    Machine Specification. A decoder is the partner that shows the encoding
    loses nothing. */
module Descriptors {
  import opened Common

  /** The nine primitive classes, void included. */
  datatype PrimKind = Byte | Short | Int | Long | Float | Double | Char | Boolean | Void

  /** A non-null class: primitive, array of a component, or a reference
      type named by its binary name ("java.lang.Object"). */
  datatype JType = Prim(kind: PrimKind) | ArrayOf(component: JType) | Named(name: string)

  /** The descriptor letter of each primitive. */
  function PrimLetter(k: PrimKind): (c: char)
    ensures c in "BSIJFDCZV"
  {
    match k
    case Byte => 'B'
    case Short => 'S'
    case Int => 'I'
    case Long => 'J'
    case Float => 'F'
    case Double => 'D'
    case Char => 'C'
    case Boolean => 'Z'
    case Void => 'V'
  }

  /** Distinct primitives have distinct letters. */
  lemma PrimLetterInjective(a: PrimKind, b: PrimKind)
    ensures PrimLetter(a) == PrimLetter(b) <==> a == b
  {
  }

  /** getSignature(Class): "[" before an array's component, the letter of a
      primitive, and "L" + internal name + ";" for a reference type. */
  function SignatureOf(t: JType): (d: string)
    ensures |d| > 0
    ensures |d| == 1 <==> t.Prim?
    ensures d[0] == '[' <==> t.ArrayOf?
    ensures t.Named? ==> d[0] == 'L' && d[|d| - 1] == ';'
  {
    match t
    case Prim(k) => [PrimLetter(k)]
    case ArrayOf(c) => "[" + SignatureOf(c)
    case Named(n) => "L" + Replace(n, '.', '/') + ";"
  }

  /** getSignature on a possibly null class: null stands for void. */
  function Signature(c: Option<JType>): (d: string)
    ensures c == None ==> d == "V"
    ensures c.Some? ==> d == SignatureOf(c.value)
  {
    match c
    case None => "V"
    case Some(t) => SignatureOf(t)
  }

  /** getSignature(Class...): the descriptors one after another. */
  function Signatures(ts: seq<JType>): (d: string)
    ensures |d| >= |ts|
    ensures |d| == 0 <==> |ts| == 0
    decreases |ts|
  {
    if |ts| == 0 then "" else SignatureOf(ts[0]) + Signatures(ts[1..])
  }

  /** The descriptors of a list with one more parameter at the end: the
      builder appends one descriptor per parameter. */
  lemma {:induction false} SignaturesSnoc(ts: seq<JType>, t: JType)
    ensures Signatures(ts + [t]) == Signatures(ts) + SignatureOf(t)
    decreases |ts|
  {
    if |ts| == 0 {
      assert ts + [t] == [t];
      assert Signatures([t]) == SignatureOf(t) + Signatures([]);
    } else {
      assert (ts + [t])[1..] == ts[1..] + [t];
      SignaturesSnoc(ts[1..], t);
    }
  }

  /** getMethodSignature: "(" + parameter descriptors + ")" + return descriptor. */
  function MethodSignature(params: seq<JType>, ret: JType): (d: string)
    ensures |d| >= 3 && d[0] == '('
  {
    "(" + Signatures(params) + ")" + SignatureOf(ret)
  }

  /** getConstructorSignature: constructors return void. */
  function ConstructorSignature(params: seq<JType>): (d: string)
    ensures d == MethodSignature(params, Prim(Void))
    ensures d[|d| - 2..] == ")V"
  {
    "(" + Signatures(params) + ")V"
  }

  /** A binary name the descriptor syntax can carry: no separator of the
      internal form and no descriptor punctuation inside it. */
  predicate ValidName(n: string) {
    forall i :: 0 <= i < |n| ==> n[i] != '/' && n[i] != ';'
  }

  /** Every name inside the type is valid. */
  predicate ValidType(t: JType) {
    match t
    case Prim(_) => true
    case ArrayOf(c) => ValidType(c)
    case Named(n) => ValidName(n)
  }

  /** Index of the first ';' in `s`, or |s|. */
  function SemicolonAt(s: string): (k: nat)
    ensures k <= |s|
    ensures forall i :: 0 <= i < k ==> s[i] != ';'
    ensures k < |s| ==> s[k] == ';'
  {
    if |s| == 0 || s[0] == ';' then 0 else 1 + SemicolonAt(s[1..])
  }

  /** Decodes one field descriptor at the start of `s`; returns the type
      and the rest of `s`. */
  function ParseType(s: string): (r: Option<(JType, string)>)
    ensures r.Some? ==> |r.value.1| < |s|
    decreases |s|
  {
    if |s| == 0 then None
    else if s[0] == '[' then
      match ParseType(s[1..])
      case None => None
      case Some((c, rest)) => Some((ArrayOf(c), rest))
    else if s[0] == 'L' then
      var k := SemicolonAt(s[1..]);
      if k == |s| - 1 then None
      else Some((Named(Replace(s[1..k + 1], '/', '.')), s[k + 2..]))
    else if s[0] == 'B' then Some((Prim(Byte), s[1..]))
    else if s[0] == 'S' then Some((Prim(Short), s[1..]))
    else if s[0] == 'I' then Some((Prim(Int), s[1..]))
    else if s[0] == 'J' then Some((Prim(Long), s[1..]))
    else if s[0] == 'F' then Some((Prim(Float), s[1..]))
    else if s[0] == 'D' then Some((Prim(Double), s[1..]))
    else if s[0] == 'C' then Some((Prim(Char), s[1..]))
    else if s[0] == 'Z' then Some((Prim(Boolean), s[1..]))
    else if s[0] == 'V' then Some((Prim(Void), s[1..]))
    else None
  }

  /** Turning dots into slashes and back gives a valid name back. */
  lemma ReplaceRoundTrip(n: string)
    requires ValidName(n)
    ensures Replace(Replace(n, '.', '/'), '/', '.') == n
  {
  }

  /** Decoding a descriptor followed by anything gives back the type and
      that remainder. */
  lemma {:induction false} ParseSignatureOf(t: JType, rest: string)
    requires ValidType(t)
    ensures ParseType(SignatureOf(t) + rest) == Some((t, rest))
  {
    match t
    case Prim(k) => ParsePrim(k, rest);
    case ArrayOf(c) =>
      ParseSignatureOf(c, rest);
      assert (SignatureOf(t) + rest)[1..] == SignatureOf(c) + rest;
    case Named(n) => ParseNamed(n, rest);
  }

  lemma ParsePrim(k: PrimKind, rest: string)
    ensures ParseType(SignatureOf(Prim(k)) + rest) == Some((Prim(k), rest))
  {
    assert (SignatureOf(Prim(k)) + rest)[1..] == rest;
  }

  lemma {:induction false} ParseNamed(n: string, rest: string)
    requires ValidName(n)
    ensures ParseType(SignatureOf(Named(n)) + rest) == Some((Named(n), rest))
  {
    var s := SignatureOf(Named(n)) + rest;
    var m := Replace(n, '.', '/');
    assert s == "L" + m + ";" + rest;
    assert s[1..] == m + (";" + rest);
    SemicolonAtPrefix(m, ";" + rest);
    assert s[1..|m| + 1] == m;
    assert s[|m| + 2..] == rest;
    ReplaceRoundTrip(n);
  }

  /** The first ';' after a prefix free of ';' is found right after it. */
  lemma {:induction false} SemicolonAtPrefix(m: string, tail: string)
    requires forall i :: 0 <= i < |m| ==> m[i] != ';'
    requires |tail| > 0 && tail[0] == ';'
    ensures SemicolonAt(m + tail) == |m|
    decreases |m|
  {
    if |m| > 0 {
      SemicolonAtPrefix(m[1..], tail);
      assert (m + tail)[1..] == m[1..] + tail;
    }
  }

  /** Distinct valid types have distinct descriptors. */
  lemma SignatureOfInjective(a: JType, b: JType)
    requires ValidType(a) && ValidType(b)
    requires SignatureOf(a) == SignatureOf(b)
    ensures a == b
  {
    ParseSignatureOf(a, "");
    ParseSignatureOf(b, "");
    assert SignatureOf(a) + "" == SignatureOf(a);
    assert SignatureOf(b) + "" == SignatureOf(b);
  }

  /** Decodes descriptors up to the closing ")" of a parameter list; returns
      the types and what follows the ")". */
  function ParseParams(s: string): (r: Option<(seq<JType>, string)>)
    decreases |s|
  {
    if |s| == 0 then None
    else if s[0] == ')' then Some(([], s[1..]))
    else
      match ParseType(s)
      case None => None
      case Some((t, rest)) =>
        match ParseParams(rest)
        case None => None
        case Some((ts, tail)) => Some(([t] + ts, tail))
  }

  /** Decodes a method descriptor into its parameter and return types. */
  function ParseMethod(s: string): (r: Option<(seq<JType>, JType)>)
  {
    if |s| == 0 || s[0] != '(' then None
    else
      match ParseParams(s[1..])
      case None => None
      case Some((ps, rest)) =>
        match ParseType(rest)
        case None => None
        case Some((ret, tail)) => if tail == "" then Some((ps, ret)) else None
  }

  lemma {:induction false} ParseSignatures(ts: seq<JType>, rest: string)
    requires forall i :: 0 <= i < |ts| ==> ValidType(ts[i])
    ensures ParseParams(Signatures(ts) + ")" + rest) == Some((ts, rest))
    decreases |ts|
  {
    if |ts| == 0 {
      assert Signatures(ts) + ")" + rest == ")" + rest;
    } else {
      var tail := Signatures(ts[1..]) + ")" + rest;
      assert Signatures(ts) + ")" + rest == SignatureOf(ts[0]) + tail;
      ParseSignatureOf(ts[0], tail);
      assert SignatureOf(ts[0])[0] != ')';
      ParseSignatures(ts[1..], rest);
      assert [ts[0]] + ts[1..] == ts;
    }
  }

  /** A method descriptor decodes to the parameter and return types it was
      built from: distinct signatures give distinct descriptors. */
  lemma ParseMethodSignature(params: seq<JType>, ret: JType)
    requires forall i :: 0 <= i < |params| ==> ValidType(params[i])
    requires ValidType(ret)
    ensures ParseMethod(MethodSignature(params, ret)) == Some((params, ret))
  {
    MethodSignatureSplit(params, ret);
    ParseSignatures(params, SignatureOf(ret));
    ParseWhole(ret);
  }

  /** A method descriptor is "(" followed by the parameters, ")" and the
      return type. */
  lemma MethodSignatureSplit(params: seq<JType>, ret: JType)
    ensures var d := MethodSignature(params, ret);
      d[0] == '(' && d[1..] == Signatures(params) + ")" + SignatureOf(ret)
  {
  }

  /** A descriptor on its own decodes with nothing left over. */
  lemma ParseWhole(t: JType)
    requires ValidType(t)
    ensures ParseType(SignatureOf(t)) == Some((t, ""))
  {
    ParseSignatureOf(t, "");
    assert SignatureOf(t) + "" == SignatureOf(t);
  }
}
