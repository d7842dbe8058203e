/** The java.lang.String wrapper of the generated API
    (templates/java.lang.String.cpp). A String holds its Java string and
    caches the modified UTF-8 characters the VM hands out for it: c_str
    fetches them on demand, and the destructor and the assignments release
    them when the cache is dropped. The model follows every character buffer
    from the VM's hand-out to its release, over any sequence of String
    operations, and shows that no buffer is released twice, that a String
    never holds a released buffer, and that a buffer goes unreleased only
    when the release call could not run. */
module UtfString {
  import opened Common
  import opened JniErrors
  import opened JniCall

  /** A UTF-16 code unit of a Java string. */
  newtype JChar = c: int | 0 <= c < 0x1_0000

  /** The first byte of the modified UTF-8 form of one code unit (section
      4.4.7 of the Java Virtual Machine Specification): one byte below
      U+0080 except U+0000, two bytes starting 110xxxxx below U+0800 and for
      U+0000, three bytes starting 1110xxxx above. */
  function LeadByte(c: JChar): (b: nat)
    ensures 0 < b < 0x100
    ensures c == 0 ==> b == 0xC0
  {
    if c == 0 then 0xC0
    else if c < 0x80 then c as nat
    else if c < 0x800 then 0xC0 + c as nat / 0x40
    else 0xE0 + c as nat / 0x1000
  }

  /** The first byte of the zero-terminated buffer GetStringUTFChars
      returns for a string: the terminator when the string is empty. */
  function FirstByte(s: seq<JChar>): nat {
    if |s| == 0 then 0 else LeadByte(s[0])
  }

  /** `!str[0]` tests for the empty string exactly: modified UTF-8 writes
      no zero byte for any code unit, U+0000 included. */
  lemma FirstByteZeroIffEmpty(s: seq<JChar>)
    ensures FirstByte(s) == 0 <==> |s| == 0
  {
  }

  /** A String object: its Java string (0 is null) and the character
      buffer it caches (m_Str; 0 is none). */
  datatype Str = Str(obj: nat, chars: nat)

  /** The calling thread; the text of every Java string created so far,
      by id (ids 1..created); the buffers handed out (ids 1..issued) and
      not yet released, each with the string it was fetched from; the log
      of releases; the buffers some String dropped without a release; and
      the String objects alive. */
  datatype World = World(
    t: ThreadState,
    text: map<nat, seq<JChar>>,
    created: nat,
    live: map<nat, nat>,
    issued: nat,
    released: seq<nat>,
    leaked: set<nat>,
    strs: seq<Str>)

  /** A world before any string exists. */
  function Initial(t: ThreadState): World {
    World(t, map[], 0, map[], 0, [], {}, [])
  }

  /** The buffers some String caches. */
  function Held(strs: seq<Str>): set<nat> {
    set k | 0 <= k < |strs| && strs[k].chars != 0 :: strs[k].chars
  }

  /** A String refers to a created string, and a cached buffer is live, was
      fetched from that string and was not given up. */
  predicate StrOk(w: World, s: Str) {
    && (s.obj == 0 || s.obj in w.text)
    && (s.chars != 0 ==> s.chars in w.live && w.live[s.chars] == s.obj && s.chars !in w.leaked)
  }

  /** String and buffer ids are in range; a live buffer came from a
      created string. */
  predicate Ids(w: World) {
    && (forall o :: o in w.text ==> 0 < o <= w.created)
    && (forall b :: b in w.live ==> 0 < b <= w.issued && w.live[b] in w.text)
  }

  /** Every buffer handed out is live or released, and a released buffer
      was released once and is no longer live. */
  predicate Log(w: World) {
    && (forall k :: 0 <= k < |w.released| ==> 0 < w.released[k] <= w.issued && w.released[k] !in w.live)
    && NoDup(w.released)
    && (forall b :: 0 < b <= w.issued ==> b in w.live || b in w.released)
  }

  /** Every String's cache is sound and no buffer is cached by two Strings. */
  predicate Caches(w: World) {
    && (forall k :: 0 <= k < |w.strs| ==> StrOk(w, w.strs[k]))
    && (forall k, l :: 0 <= k < l < |w.strs| && w.strs[k].chars != 0 ==> w.strs[k].chars != w.strs[l].chars)
  }

  /** A live buffer is cached by some String or was given up, and only a
      live buffer is given up. */
  predicate Accounted(w: World) {
    && (forall b :: b in w.leaked ==> b in w.live)
    && (forall b :: b in w.live ==> b in w.leaked || b in Held(w.strs))
  }

  /** The bookkeeping every operation keeps. */
  predicate Inv(w: World) {
    Ids(w) && Log(w) && Caches(w) && Accounted(w)
  }

  /** `r` keeps the bookkeeping and extends `w`'s history: the release log
      only grows at its end and a given-up buffer stays given up. */
  predicate Grows(w: World, r: World) {
    Inv(r) && w.released <= r.released && w.leaked <= r.leaked
  }

  lemma InitialInv(t: ThreadState)
    ensures Inv(Initial(t))
  {
  }

  /** The text a live buffer holds: that of the string it came from. */
  function Contents(w: World, p: nat): seq<JChar> {
    if p in w.live && w.live[p] in w.text then w.text[w.live[p]] else []
  }

  /** jni::GetStringUTFChars: a checking gated call on the string. The VM
      hands out a fresh buffer, or raises `oom` when `ok` is false, in which
      case the checking call answers 0. */
  function Fetch(w: World, obj: nat, ok: bool, oom: Throwable): (r: (World, nat))
    ensures r.0.strs == w.strs && r.0.text == w.text && r.0.created == w.created
    ensures r.0.released == w.released && r.0.leaked == w.leaked
    ensures r.1 != 0 <==> obj != 0 && ok && EnvObtainable(w.t) && w.t.pending.None?
    ensures r.1 != 0 ==> r.1 == w.issued + 1 && r.0.issued == r.1 && r.0.live == w.live[r.1 := obj]
    ensures r.1 == 0 ==> r.0.live == w.live && r.0.issued == w.issued
  {
    var id := w.issued + 1;
    var host := if ok then HostCall(id, None, NoFrame) else HostCall(0, Some(oom), NoFrame);
    var (t1, v) := CallReturn(w.t, obj != 0, true, host);
    if v != 0 then (w.(t := t1, live := w.live[id := obj], issued := id), id)
    else (w.(t := t1), 0)
  }

  /** `if (m_Str) jni::ReleaseStringUTFChars(*this, m_Str)`: a non-checking
      gated call on the string and the buffer. When the call cannot run (no
      call context can be had) the buffer is given up unreleased. */
  function DropChars(w: World, s: Str): (r: World)
    ensures r.strs == w.strs && r.text == w.text && r.created == w.created && r.issued == w.issued
    ensures s.chars == 0 ==> r == w
    ensures s.chars != 0 && s.obj != 0 && EnvObtainable(w.t) ==>
      r.live == w.live - {s.chars} && r.released == w.released + [s.chars] && r.leaked == w.leaked
    ensures s.chars != 0 && !(s.obj != 0 && EnvObtainable(w.t)) ==>
      r.live == w.live && r.released == w.released && r.leaked == w.leaked + {s.chars}
  {
    if s.chars == 0 then w
    else
      var (t1, ran) := Call(w.t, s.obj != 0 && s.chars != 0, false, HostCall(0, None, NoFrame));
      if ran then w.(t := t1, live := w.live - {s.chars}, released := w.released + [s.chars])
      else w.(t := t1, leaked := w.leaked + {s.chars})
  }

  /** String(const char*): a null C string gives a null String without any
      VM call; otherwise jni::NewStringUTF creates the Java string (`text`
      is what the C string decodes to; `ok` false makes the VM raise `oom`
      and leaves the String null). The cache starts empty. */
  function NewString(w: World, cstr: Option<seq<JChar>>, ok: bool, oom: Throwable): (r: World)
    ensures |r.strs| == |w.strs| + 1 && r.strs[..|w.strs|] == w.strs
    ensures r.strs[|w.strs|].chars == 0
    ensures cstr == None ==> r == w.(strs := w.strs + [Str(0, 0)])
    ensures r.strs[|w.strs|].obj != 0 <==> cstr.Some? && ok && EnvObtainable(w.t) && w.t.pending.None?
    ensures r.strs[|w.strs|].obj != 0 ==>
      (r.strs[|w.strs|].obj == r.created == w.created + 1 && r.text == w.text[r.created := cstr.value])
    ensures r.strs[|w.strs|].obj == 0 ==> r.text == w.text && r.created == w.created
    ensures r.live == w.live && r.issued == w.issued && r.released == w.released && r.leaked == w.leaked
  {
    match cstr
    case None => w.(strs := w.strs + [Str(0, 0)])
    case Some(s) =>
      var id := w.created + 1;
      var host := if ok then HostCall(id, None, NoFrame) else HostCall(0, Some(oom), NoFrame);
      var (t1, v) := CallReturn(w.t, true, true, host);
      if v != 0 then w.(t := t1, text := w.text[id := s], created := id, strs := w.strs + [Str(id, 0)])
      else w.(t := t1, strs := w.strs + [Str(0, 0)])
  }

  /** c_str: fetches the characters only when the String is non-null and
      caches nothing yet; returns the cache. */
  function CStr(w: World, i: nat, ok: bool, oom: Throwable): (r: (World, nat))
    requires i < |w.strs|
    ensures r.0.strs == w.strs[i := Str(w.strs[i].obj, r.1)]
    ensures w.strs[i].obj == 0 || w.strs[i].chars != 0 ==> r == (w, w.strs[i].chars)
    ensures w.strs[i].obj != 0 && w.strs[i].chars == 0 ==>
      r.1 == Fetch(w, w.strs[i].obj, ok, oom).1 && r.0 == Fetch(w, w.strs[i].obj, ok, oom).0.(strs := r.0.strs)
  {
    var s := w.strs[i];
    if s.obj != 0 && s.chars == 0 then
      var (w1, p) := Fetch(w, s.obj, ok, oom);
      (w1.(strs := w.strs[i := Str(s.obj, p)]), p)
    else (w, s.chars)
  }

  /** EmptyOrNull: true for a null String; otherwise fetches the characters
      and tests for a null buffer or a zero first byte. */
  function EmptyOrNull(w: World, i: nat, ok: bool, oom: Throwable): (r: (World, bool))
    requires i < |w.strs|
    ensures w.strs[i].obj == 0 ==> r == (w, true)
    ensures w.strs[i].obj != 0 ==> r.0 == CStr(w, i, ok, oom).0
  {
    var s := w.strs[i];
    if s.obj == 0 then (w, true)
    else
      var (w1, p) := CStr(w, i, ok, oom);
      (w1, p == 0 || FirstByte(Contents(w1, p)) == 0)
  }

  /** ~String: releases the cache if it holds a buffer; the String is gone. */
  function Destroy(w: World, i: nat): (r: World)
    requires i < |w.strs|
    ensures r.strs == w.strs[..i] + w.strs[i + 1..]
  {
    DropChars(w, w.strs[i]).(strs := w.strs[..i] + w.strs[i + 1..])
  }

  /** operator=(const String&): nothing happens when both refer to the same
      string; otherwise the cache is released and cleared and the other
      String's string adopted (its cache is not shared). */
  function CopyAssign(w: World, i: nat, j: nat): (r: World)
    requires i < |w.strs| && j < |w.strs|
    ensures w.strs[i].obj == w.strs[j].obj ==> r == w
    ensures w.strs[i].obj != w.strs[j].obj ==> r.strs == w.strs[i := Str(w.strs[j].obj, 0)]
  {
    var s := w.strs[i];
    var o := w.strs[j];
    if s.obj == o.obj then w
    else DropChars(w, s).(strs := w.strs[i := Str(o.obj, 0)])
  }

  /** String(String&&): the new String takes the cache and leaves the source
      none. Ref has no move constructor, so the Object base is copied: both
      refer to the same string afterwards. */
  function MoveConstruct(w: World, i: nat): (r: World)
    requires i < |w.strs|
    ensures r.strs == w.strs[i := Str(w.strs[i].obj, 0)] + [w.strs[i]]
    ensures r.live == w.live && r.released == w.released && r.leaked == w.leaked
  {
    var s := w.strs[i];
    w.(strs := w.strs[i := Str(s.obj, 0)] + [s])
  }

  /** operator=(String&&), statement by statement: release this cache; take
      the other's buffer; clear the other's cache; copy the other's string
      (Ref has no move assignment either). Moving a String onto itself thus
      releases its buffer and leaves it with none. */
  function MoveAssign(w: World, i: nat, j: nat): (r: World)
    requires i < |w.strs| && j < |w.strs|
    ensures |r.strs| == |w.strs|
    ensures i != j ==> r.strs == w.strs[i := w.strs[j]][j := Str(w.strs[j].obj, 0)]
    ensures i == j ==> r.strs == w.strs[i := Str(w.strs[i].obj, 0)]
  {
    var w1 := DropChars(w, w.strs[i]);
    var o := w.strs[j];
    var strs1 := w.strs[i := Str(w.strs[i].obj, o.chars)];
    var strs2 := strs1[j := Str(strs1[j].obj, 0)];
    var strs3 := strs2[i := Str(o.obj, strs2[i].chars)];
    w1.(strs := strs3)
  }

  // ---------------------------------------------------------------------
  // Each operation keeps the bookkeeping
  // ---------------------------------------------------------------------

  /** Dropping the cache of String `i` and then clearing it (or removing
      the String) keeps the bookkeeping: the buffer was live and cached by
      nobody else, so it is released at most once. */
  lemma DropCharsKeepsInv(w: World, i: nat, strs: seq<Str>)
    requires Inv(w) && i < |w.strs|
    requires forall k :: 0 <= k < |strs| ==> strs[k].chars == 0 || exists m :: 0 <= m < |w.strs| && m != i && strs[k] == w.strs[m]
    requires forall k, l :: 0 <= k < l < |strs| && strs[k].chars != 0 ==> strs[k].chars != strs[l].chars
    requires forall k :: 0 <= k < |strs| ==> strs[k].obj == 0 || strs[k].obj in w.text
    requires forall m :: 0 <= m < |w.strs| && m != i && w.strs[m].chars != 0 ==> w.strs[m].chars in Held(strs)
    ensures Grows(w, DropChars(w, w.strs[i]).(strs := strs))
  {
    assert StrOk(w, w.strs[i]);
    DropLog(w, w.strs[i]);
    DropCaches(w, i, strs);
    DropAccounted(w, i, strs);
  }

  /** Dropping a live cache keeps the release log sound. */
  lemma DropLog(w: World, s: Str)
    requires Ids(w) && Log(w)
    requires s.chars != 0 ==> s.chars in w.live
    ensures var d := DropChars(w, s);
      Ids(d) && Log(d) && w.released <= d.released && w.leaked <= d.leaked
  {
    if s.chars != 0 && s.obj != 0 && EnvObtainable(w.t) {
      forall k | 0 <= k < |w.released| ensures w.released[k] != s.chars {
      }
    }
  }

  /** The remaining Strings' caches stay sound after one String drops its
      cache. */
  lemma DropCaches(w: World, i: nat, strs: seq<Str>)
    requires Inv(w) && i < |w.strs|
    requires forall k :: 0 <= k < |strs| ==> strs[k].chars == 0 || exists m :: 0 <= m < |w.strs| && m != i && strs[k] == w.strs[m]
    requires forall k, l :: 0 <= k < l < |strs| && strs[k].chars != 0 ==> strs[k].chars != strs[l].chars
    requires forall k :: 0 <= k < |strs| ==> strs[k].obj == 0 || strs[k].obj in w.text
    ensures Caches(DropChars(w, w.strs[i]).(strs := strs))
  {
    var s := w.strs[i];
    var r := DropChars(w, s).(strs := strs);
    forall k | 0 <= k < |strs| ensures StrOk(r, strs[k]) {
      if strs[k].chars != 0 {
        var m :| 0 <= m < |w.strs| && m != i && strs[k] == w.strs[m];
        assert StrOk(w, w.strs[m]);
        if s.chars != 0 {
          if m < i {
            assert w.strs[m].chars != w.strs[i].chars;
          } else {
            assert w.strs[i].chars != w.strs[m].chars;
          }
        }
      }
    }
  }

  /** After one String drops its cache, every live buffer is still cached
      by another String or given up. */
  lemma DropAccounted(w: World, i: nat, strs: seq<Str>)
    requires Inv(w) && i < |w.strs|
    requires forall m :: 0 <= m < |w.strs| && m != i && w.strs[m].chars != 0 ==> w.strs[m].chars in Held(strs)
    ensures Accounted(DropChars(w, w.strs[i]).(strs := strs))
  {
    var r := DropChars(w, w.strs[i]).(strs := strs);
    forall b | b in r.live ensures b in r.leaked || b in Held(strs) {
      assert b in w.leaked || b in Held(w.strs);
      if b !in w.leaked {
        var m :| 0 <= m < |w.strs| && w.strs[m].chars != 0 && w.strs[m].chars == b;
        if m != i {
          assert b in Held(strs);
        }
      }
    }
  }

  lemma NewStringKeepsInv(w: World, cstr: Option<seq<JChar>>, ok: bool, oom: Throwable)
    requires Inv(w)
    ensures Grows(w, NewString(w, cstr, ok, oom))
  {
    var r := NewString(w, cstr, ok, oom);
    assert r.strs == w.strs + [r.strs[|w.strs|]];
    AppendString(w, r);
  }

  /** A new String with an empty cache, on a string created before or just
      now, keeps the bookkeeping. */
  lemma AppendString(w: World, r: World)
    requires Inv(w) && |r.strs| == |w.strs| + 1 && r.strs == w.strs + [r.strs[|w.strs|]]
    requires r.strs[|w.strs|].chars == 0
    requires r.live == w.live && r.issued == w.issued && r.released == w.released && r.leaked == w.leaked
    requires forall x :: x in w.text ==> x in r.text
    requires forall x :: x in r.text ==> 0 < x <= r.created
    requires r.strs[|w.strs|].obj == 0 || r.strs[|w.strs|].obj in r.text
    ensures Grows(w, r)
  {
    forall k | 0 <= k < |r.strs| ensures StrOk(r, r.strs[k]) {
      if k < |w.strs| {
        assert r.strs[k] == w.strs[k];
        assert StrOk(w, w.strs[k]);
      }
    }
    forall b | b in r.live ensures b in r.leaked || b in Held(r.strs) {
      if b !in w.leaked {
        var m :| 0 <= m < |w.strs| && w.strs[m].chars != 0 && w.strs[m].chars == b;
        assert r.strs[m] == w.strs[m];
      }
    }
  }

  lemma CStrKeepsInv(w: World, i: nat, ok: bool, oom: Throwable)
    requires Inv(w) && i < |w.strs|
    ensures Grows(w, CStr(w, i, ok, oom).0)
  {
    var (r, p) := CStr(w, i, ok, oom);
    if w.strs[i].obj != 0 && w.strs[i].chars == 0 {
      if p == 0 {
        assert r.strs == w.strs;
      }
      forall k | 0 <= k < |r.strs| ensures StrOk(r, r.strs[k]) {
        if k != i {
          assert StrOk(w, w.strs[k]);
        }
      }
      forall b | b in r.live ensures b in r.leaked || b in Held(r.strs) {
        if b == p {
          assert r.strs[i].chars == p;
        } else if b !in w.leaked {
          var m :| 0 <= m < |w.strs| && w.strs[m].chars != 0 && w.strs[m].chars == b;
          assert r.strs[m] == w.strs[m];
        }
      }
    }
  }

  lemma EmptyOrNullKeepsInv(w: World, i: nat, ok: bool, oom: Throwable)
    requires Inv(w) && i < |w.strs|
    ensures Grows(w, EmptyOrNull(w, i, ok, oom).0)
  {
    if w.strs[i].obj != 0 {
      CStrKeepsInv(w, i, ok, oom);
    }
  }

  lemma DestroyKeepsInv(w: World, i: nat)
    requires Inv(w) && i < |w.strs|
    ensures Grows(w, Destroy(w, i))
  {
    var strs := w.strs[..i] + w.strs[i + 1..];
    forall k | 0 <= k < |strs| ensures strs[k].chars == 0 || exists m :: 0 <= m < |w.strs| && m != i && strs[k] == w.strs[m] {
      if k < i {
        assert strs[k] == w.strs[k];
      } else {
        assert strs[k] == w.strs[k + 1];
      }
    }
    forall m | 0 <= m < |w.strs| && m != i && w.strs[m].chars != 0 ensures w.strs[m].chars in Held(strs) {
      if m < i {
        assert strs[m] == w.strs[m];
      } else {
        assert strs[m - 1] == w.strs[m];
      }
    }
    DropCharsKeepsInv(w, i, strs);
  }

  lemma CopyAssignKeepsInv(w: World, i: nat, j: nat)
    requires Inv(w) && i < |w.strs| && j < |w.strs|
    ensures Grows(w, CopyAssign(w, i, j))
  {
    if w.strs[i].obj != w.strs[j].obj {
      var strs := w.strs[i := Str(w.strs[j].obj, 0)];
      assert StrOk(w, w.strs[j]);
      forall m | 0 <= m < |w.strs| && m != i && w.strs[m].chars != 0 ensures w.strs[m].chars in Held(strs) {
        assert strs[m] == w.strs[m];
      }
      DropCharsKeepsInv(w, i, strs);
    }
  }

  lemma MoveConstructKeepsInv(w: World, i: nat)
    requires Inv(w) && i < |w.strs|
    ensures Grows(w, MoveConstruct(w, i))
  {
    var r := MoveConstruct(w, i);
    var n := |w.strs|;
    assert r.strs[n] == w.strs[i];
    forall k | 0 <= k < |r.strs| ensures StrOk(r, r.strs[k]) {
      if k < n && k != i {
        assert r.strs[k] == w.strs[k];
      }
      assert StrOk(w, w.strs[i]);
    }
    forall k, l | 0 <= k < l < |r.strs| && r.strs[k].chars != 0 ensures r.strs[k].chars != r.strs[l].chars {
      if l == n {
        assert k != i;
        if k < i {
          assert w.strs[k].chars != w.strs[i].chars;
        } else {
          if w.strs[i].chars != 0 { assert w.strs[i].chars != w.strs[k].chars; }
        }
      } else {
        assert r.strs[l].chars == 0 || r.strs[l] == w.strs[l];
      }
    }
    forall b | b in r.live ensures b in r.leaked || b in Held(r.strs) {
      if b !in w.leaked {
        var m :| 0 <= m < |w.strs| && w.strs[m].chars != 0 && w.strs[m].chars == b;
        if m == i {
          assert r.strs[n].chars == b;
        } else {
          assert r.strs[m] == w.strs[m];
        }
      }
    }
  }

  lemma MoveAssignKeepsInv(w: World, i: nat, j: nat)
    requires Inv(w) && i < |w.strs| && j < |w.strs|
    ensures Grows(w, MoveAssign(w, i, j))
  {
    if i == j {
      var strs := w.strs[i := Str(w.strs[i].obj, 0)];
      forall m | 0 <= m < |w.strs| && m != i && w.strs[m].chars != 0 ensures w.strs[m].chars in Held(strs) {
        assert strs[m] == w.strs[m];
      }
      DropCharsKeepsInv(w, i, strs);
    } else {
      var strs := w.strs[i := w.strs[j]][j := Str(w.strs[j].obj, 0)];
      assert strs[i] == w.strs[j];
      forall k | 0 <= k < |strs| ensures strs[k].chars == 0 || exists m :: 0 <= m < |w.strs| && m != i && strs[k] == w.strs[m] {
        if k == i {
          assert strs[k] == w.strs[j];
        } else if k != j {
          assert strs[k] == w.strs[k];
        }
      }
      forall k, l | 0 <= k < l < |strs| && strs[k].chars != 0 ensures strs[k].chars != strs[l].chars {
        if k == i && l != j {
          assert strs[l] == w.strs[l];
          if j < l {
            assert w.strs[j].chars != w.strs[l].chars;
          } else {
            if w.strs[l].chars != 0 { assert w.strs[l].chars != w.strs[j].chars; }
          }
        } else if l == i && k != j {
          assert strs[k] == w.strs[k];
          if k < j {
            assert w.strs[k].chars != w.strs[j].chars;
          } else {
            if w.strs[j].chars != 0 { assert w.strs[j].chars != w.strs[k].chars; }
          }
        } else if k != j && l != j && k != i && l != i {
          assert strs[k] == w.strs[k] && strs[l] == w.strs[l];
        }
      }
      forall m | 0 <= m < |w.strs| && m != i && w.strs[m].chars != 0 ensures w.strs[m].chars in Held(strs) {
        if m == j {
          assert strs[i].chars == w.strs[m].chars;
        } else {
          assert strs[m] == w.strs[m];
        }
      }
      DropCharsKeepsInv(w, i, strs);
    }
  }

  // ---------------------------------------------------------------------
  // What the operations promise
  // ---------------------------------------------------------------------

  /** Once c_str has answered a buffer (or the String is null), calling it
      again answers the same pointer and makes no VM call. */
  lemma CStrCaches(w: World, i: nat, ok1: bool, ok2: bool, oom: Throwable)
    requires i < |w.strs|
    ensures CStr(w, i, ok1, oom).1 != 0 || w.strs[i].obj == 0 ==>
      CStr(CStr(w, i, ok1, oom).0, i, ok2, oom) == CStr(w, i, ok1, oom)
  {
  }

  /** The pointer c_str answers is a live buffer, never one released, and
      holds the String's text. */
  lemma CStrContents(w: World, i: nat, ok: bool, oom: Throwable)
    requires Inv(w) && i < |w.strs|
    ensures CStr(w, i, ok, oom).1 != 0 ==>
      var (r, p) := CStr(w, i, ok, oom);
      p in r.live && p !in r.released && Contents(r, p) == w.text[w.strs[i].obj]
  {
    CStrKeepsInv(w, i, ok, oom);
    var (r, p) := CStr(w, i, ok, oom);
    if p != 0 {
      assert StrOk(r, r.strs[i]);
      assert p !in r.released by {
        forall k | 0 <= k < |r.released| ensures r.released[k] != p {
        }
      }
    }
  }

  /** EmptyOrNull is true exactly when the String is null, its characters
      could not be had, or its string is empty. */
  lemma EmptyOrNullIff(w: World, i: nat, ok: bool, oom: Throwable)
    requires Inv(w) && i < |w.strs|
    ensures var (r, b) := EmptyOrNull(w, i, ok, oom);
      b <==> w.strs[i].obj == 0 || r.strs[i].chars == 0 || |w.text[w.strs[i].obj]| == 0
  {
    if w.strs[i].obj != 0 {
      CStrContents(w, i, ok, oom);
      FirstByteZeroIffEmpty(w.text[w.strs[i].obj]);
    }
  }

  /** Moving a String onto itself releases its buffer exactly once and
      leaves it holding none, when the release can run. */
  lemma SelfMoveReleasesOnce(w: World, i: nat)
    requires Inv(w) && i < |w.strs| && w.strs[i].chars != 0 && EnvObtainable(w.t)
    ensures var r := MoveAssign(w, i, i);
      r.released == w.released + [w.strs[i].chars] && w.strs[i].chars !in r.live
      && r.strs[i] == Str(w.strs[i].obj, 0) && Inv(r)
  {
    assert StrOk(w, w.strs[i]);
    MoveAssignKeepsInv(w, i, i);
  }

  // ---------------------------------------------------------------------
  // Any sequence of String operations
  // ---------------------------------------------------------------------

  /** One String operation, naming Strings by position. */
  datatype StrOp =
    | Create(cstr: Option<seq<JChar>>, ok: bool)
    | GetChars(i: nat, ok: bool)
    | TestEmpty(i: nat, ok: bool)
    | DestroyAt(i: nat)
    | CopyOnto(i: nat, j: nat)
    | MoveOut(i: nat)
    | MoveOnto(i: nat, j: nat)

  /** The Strings an operation names exist. */
  predicate Enabled(w: World, op: StrOp) {
    match op
    case Create(_, _) => true
    case GetChars(i, _) => i < |w.strs|
    case TestEmpty(i, _) => i < |w.strs|
    case DestroyAt(i) => i < |w.strs|
    case CopyOnto(i, j) => i < |w.strs| && j < |w.strs|
    case MoveOut(i) => i < |w.strs|
    case MoveOnto(i, j) => i < |w.strs| && j < |w.strs|
  }

  /** Applies an operation; one naming a missing String does nothing. */
  function Step(w: World, op: StrOp, oom: Throwable): World {
    if !Enabled(w, op) then w
    else match op
      case Create(c, ok) => NewString(w, c, ok, oom)
      case GetChars(i, ok) => CStr(w, i, ok, oom).0
      case TestEmpty(i, ok) => EmptyOrNull(w, i, ok, oom).0
      case DestroyAt(i) => Destroy(w, i)
      case CopyOnto(i, j) => CopyAssign(w, i, j)
      case MoveOut(i) => MoveConstruct(w, i)
      case MoveOnto(i, j) => MoveAssign(w, i, j)
  }

  function Run(w: World, ops: seq<StrOp>, oom: Throwable): World
    decreases |ops|
  {
    if |ops| == 0 then w else Run(Step(w, ops[0], oom), ops[1..], oom)
  }

  /** A step keeps the bookkeeping, only appends to the release log and
      never takes back a given-up buffer. */
  lemma StepKeepsInv(w: World, op: StrOp, oom: Throwable)
    requires Inv(w)
    ensures Grows(w, Step(w, op, oom))
  {
    if Enabled(w, op) {
      match op
      case Create(c, ok) => NewStringKeepsInv(w, c, ok, oom);
      case GetChars(i, ok) => CStrKeepsInv(w, i, ok, oom);
      case TestEmpty(i, ok) => EmptyOrNullKeepsInv(w, i, ok, oom);
      case DestroyAt(i) => DestroyKeepsInv(w, i);
      case CopyOnto(i, j) => CopyAssignKeepsInv(w, i, j);
      case MoveOut(i) => MoveConstructKeepsInv(w, i);
      case MoveOnto(i, j) => MoveAssignKeepsInv(w, i, j);
    }
  }

  lemma {:induction false} RunKeepsInv(w: World, ops: seq<StrOp>, oom: Throwable)
    requires Inv(w)
    ensures Grows(w, Run(w, ops, oom))
    decreases |ops|
  {
    if |ops| > 0 {
      StepKeepsInv(w, ops[0], oom);
      RunKeepsInv(Step(w, ops[0], oom), ops[1..], oom);
    }
  }

  /** Whatever the program does with its Strings, no buffer is released
      twice and no String holds a released buffer. */
  lemma ReleasedAtMostOnce(t: ThreadState, ops: seq<StrOp>, oom: Throwable)
    ensures var r := Run(Initial(t), ops, oom);
      NoDup(r.released)
      && forall k :: 0 <= k < |r.strs| && r.strs[k].chars != 0 ==> r.strs[k].chars !in r.released
  {
    InitialInv(t);
    RunKeepsInv(Initial(t), ops, oom);
    var r := Run(Initial(t), ops, oom);
    forall k | 0 <= k < |r.strs| && r.strs[k].chars != 0 ensures r.strs[k].chars !in r.released {
      assert StrOk(r, r.strs[k]);
      forall m | 0 <= m < |r.released| ensures r.released[m] != r.strs[k].chars {
      }
    }
  }

  /** A gated call keeps a call context obtainable. */
  lemma CallKeepsEnv(t: ThreadState, parameters: bool, checkException: bool, f: HostCall)
    requires EnvObtainable(t)
    ensures EnvObtainable(Call(t, parameters, checkException, f).0)
    ensures EnvObtainable(CallReturn(t, parameters, checkException, f).0)
  {
  }

  /** While a call context can be had, a step gives up no buffer. */
  lemma StepNoLeak(w: World, op: StrOp, oom: Throwable)
    requires Inv(w) && EnvObtainable(w.t)
    ensures EnvObtainable(Step(w, op, oom).t) && Step(w, op, oom).leaked == w.leaked
  {
    if Enabled(w, op) {
      match op
      case Create(c, ok) =>
        CallKeepsEnv(w.t, true, true, HostCall(w.created + 1, None, NoFrame));
        CallKeepsEnv(w.t, true, true, HostCall(0, Some(oom), NoFrame));
      case GetChars(i, ok) =>
        CallKeepsEnv(w.t, w.strs[i].obj != 0, true, HostCall(w.issued + 1, None, NoFrame));
        CallKeepsEnv(w.t, w.strs[i].obj != 0, true, HostCall(0, Some(oom), NoFrame));
      case TestEmpty(i, ok) =>
        CallKeepsEnv(w.t, w.strs[i].obj != 0, true, HostCall(w.issued + 1, None, NoFrame));
        CallKeepsEnv(w.t, w.strs[i].obj != 0, true, HostCall(0, Some(oom), NoFrame));
      case DestroyAt(i) => DropNoLeak(w, i);
      case CopyOnto(i, j) => DropNoLeak(w, i);
      case MoveOut(i) =>
      case MoveOnto(i, j) => DropNoLeak(w, i);
    }
  }

  /** Dropping a cache with a call context at hand releases the buffer. */
  lemma DropNoLeak(w: World, i: nat)
    requires Inv(w) && EnvObtainable(w.t) && i < |w.strs|
    ensures EnvObtainable(DropChars(w, w.strs[i]).t) && DropChars(w, w.strs[i]).leaked == w.leaked
  {
    var s := w.strs[i];
    if s.chars != 0 {
      assert StrOk(w, s);
      assert s.obj != 0;
      CallKeepsEnv(w.t, true, false, HostCall(0, None, NoFrame));
    }
  }

  lemma {:induction false} RunNoLeak(w: World, ops: seq<StrOp>, oom: Throwable)
    requires Inv(w) && EnvObtainable(w.t)
    ensures Run(w, ops, oom).leaked == w.leaked
    decreases |ops|
  {
    if |ops| > 0 {
      StepNoLeak(w, ops[0], oom);
      StepKeepsInv(w, ops[0], oom);
      RunNoLeak(Step(w, ops[0], oom), ops[1..], oom);
    }
  }

  /** A program that runs with a call context and has destroyed all its
      Strings by the end has released every buffer it was handed exactly
      once. */
  lemma ExactlyOnce(t: ThreadState, ops: seq<StrOp>, oom: Throwable)
    requires EnvObtainable(t)
    requires |Run(Initial(t), ops, oom).strs| == 0
    ensures var r := Run(Initial(t), ops, oom);
      forall b :: 0 < b <= r.issued ==> Count(r.released, b) == 1
  {
    InitialInv(t);
    RunKeepsInv(Initial(t), ops, oom);
    RunNoLeak(Initial(t), ops, oom);
    var r := Run(Initial(t), ops, oom);
    assert Held(r.strs) == {};
    forall b | 0 < b <= r.issued ensures Count(r.released, b) == 1 {
      assert b !in r.live;
      NoDupCount(r.released, b);
    }
  }
}
