/** The codec of src/luaz_msg_descr.c as a pair of pure functions over descriptor trees, and
    the lens laws that tie the two directions together. */
module Lens {
  import opened Bytes
  import opened Descriptor

  /** A typed Lua table, cut down to what a descriptor can see. */
  datatype Tree = TInt(i: int) | TStr(s: seq<Byte>) | TBool(b: bool) | TObj(t: Table)
  type Table = map<string, Tree>

  /** The C string at the start of s: everything before the first NUL. */
  function CStr(s: seq<Byte>): (c: seq<Byte>)
    ensures c <= s && 0 !in c
    ensures |c| < |s| ==> s[|c|] == 0
  {
    if s == [] || s[0] == 0 then [] else [s[0]] + CStr(s[1..])
  }

  function Min(a: int, b: int): int { if a < b then a else b }

  /** What strncpy with n - 1 followed by a terminating NUL leaves in an n-byte buffer. */
  function PadStr(s: seq<Byte>, n: nat): (p: seq<Byte>)
    requires n >= 1
    ensures |p| == n
  {
    var c := CStr(s);
    var k := Min(|c|, n - 1);
    c[..k] + Fill(0, n - k)
  }

  function Slice(m: seq<Byte>, f: Field): (s: seq<Byte>)
    requires f.offset + Extent(f) <= |m|
    ensures |s| == Extent(f)
  {
    m[f.offset..f.offset + Extent(f)]
  }

  /** m with the bytes from position p on replaced by s. */
  function Splice(m: seq<Byte>, p: nat, s: seq<Byte>): (r: seq<Byte>)
    requires p + |s| <= |m|
    ensures |r| == |m|
    ensures forall k | 0 <= k < |m| :: r[k] == if p <= k < p + |s| then s[k - p] else m[k]
  {
    m[..p] + s + m[p + |s|..]
  }

  // ---------------------------------------------------------------- decoding memory

  /** The Lua value of one field; w is the width of lua_Integer. */
  function GetField(w: nat, f: Field, s: seq<Byte>): Tree
    requires |s| == Extent(f)
    decreases f
  {
    match f.kind
    case Int => TInt(WrapS(AsSigned(FromLE(s), |s|), w))
    case UInt => TInt(WrapS(FromLE(s), w))
    case StrBuf => TStr(CStr(s))
    case Bool => TBool(s[0] != 0)
    case Object(sub) => TObj(Get(w, sub, s))
  }

  function Get(w: nat, fs: seq<Field>, m: seq<Byte>): Table
    requires Span(fs) <= |m|
    decreases fs
  {
    if fs == [] then map[]
    else
      var f := fs[|fs| - 1];
      Get(w, fs[..|fs| - 1], m)[f.name := GetField(w, f, Slice(m, f))]
  }

  predicate TerminatedField(f: Field, s: seq<Byte>)
    requires |s| == Extent(f)
    decreases f
  {
    match f.kind
    case StrBuf => 0 in s
    case Object(sub) => Terminated(sub, s)
    case _ => true
  }

  /** Every described string buffer holds a NUL within its field. */
  predicate Terminated(fs: seq<Field>, m: seq<Byte>)
    requires Span(fs) <= |m|
    decreases fs
  {
    forall i | 0 <= i < |fs| :: fs[i].offset + Extent(fs[i]) <= |m| && TerminatedField(fs[i], Slice(m, fs[i]))
  }

  // ---------------------------------------------------------------- encoding tables

  /** The encoder is defined on v: its type is the field's, and a string buffer has room for a
      terminator. With size 0 the code would copy SIZE_MAX bytes and write before the field. */
  predicate TypedField(f: Field, v: Tree)
    decreases f
  {
    match f.kind
    case Int => v.TInt?
    case UInt => v.TInt?
    case StrBuf => v.TStr? && f.size >= 1
    case Bool => v.TBool?
    case Object(sub) => v.TObj? && Typed(sub, v.t)
  }

  /** Every described key that is present has a value of its field's type. */
  predicate Typed(fs: seq<Field>, t: Table)
    decreases fs
  {
    forall i | 0 <= i < |fs| && fs[i].name in t :: TypedField(fs[i], t[fs[i].name])
  }

  function PutField(f: Field, v: Tree, s: seq<Byte>): (r: seq<Byte>)
    requires |s| == Extent(f) && TypedField(f, v)
    ensures |r| == |s|
    decreases f
  {
    match f.kind
    case Int => ToLE(v.i, |s|)
    case UInt => ToLE(v.i, |s|)
    case StrBuf => PadStr(v.s, |s|)
    case Bool => [if v.b then 1 else 0]
    case Object(sub) => Put(sub, v.t, s)
  }

  /** Keys of t that are absent leave their bytes alone. */
  function Put(fs: seq<Field>, t: Table, m: seq<Byte>): (r: seq<Byte>)
    requires Span(fs) <= |m| && Typed(fs, t)
    ensures |r| == |m|
    decreases fs
  {
    if fs == [] then m
    else
      var f := fs[|fs| - 1];
      var r := Put(fs[..|fs| - 1], t, m);
      if f.name !in t then r else Splice(r, f.offset, PutField(f, t[f.name], Slice(r, f)))
  }

  // ---------------------------------------------------------------- one field at a time

  lemma {:induction false} WfInit(fs: seq<Field>)
    requires Wf(fs) && fs != []
    ensures Wf(fs[..|fs| - 1])
  {
  }

  lemma {:induction false} NamesInit(fs: seq<Field>)
    requires fs != []
    ensures Names(fs) == Names(fs[..|fs| - 1]) + {fs[|fs| - 1].name}
  {
    var init := fs[..|fs| - 1];
    forall x | x in Names(fs) ensures x in Names(init) + {fs[|fs| - 1].name} {
      var i :| 0 <= i < |fs| && fs[i].name == x;
      if i < |fs| - 1 { assert init[i].name == x; }
    }
    forall x | x in Names(init) ensures x in Names(fs) {
      var i :| 0 <= i < |init| && init[i].name == x;
      assert fs[i].name == x;
    }
  }

  lemma {:induction false} GetKeys(w: nat, fs: seq<Field>, m: seq<Byte>)
    requires Span(fs) <= |m|
    ensures Get(w, fs, m).Keys == Names(fs)
  {
    if fs != [] {
      GetKeys(w, fs[..|fs| - 1], m);
      NamesInit(fs);
    }
  }

  /** Decoding reads each field by itself. */
  lemma {:induction false} GetAt(w: nat, fs: seq<Field>, m: seq<Byte>, i: nat)
    requires Span(fs) <= |m| && Wf(fs) && i < |fs|
    ensures fs[i].offset + Extent(fs[i]) <= |m|
    ensures fs[i].name in Get(w, fs, m)
    ensures Get(w, fs, m)[fs[i].name] == GetField(w, fs[i], Slice(m, fs[i]))
  {
    SpanCovers(fs, i);
    if i < |fs| - 1 {
      var init := fs[..|fs| - 1];
      WfInit(fs);
      GetAt(w, init, m, i);
      assert init[i] == fs[i];
    }
  }

  /** The bytes of field i after Put. */
  function After(f: Field, t: Table, m: seq<Byte>): (s: seq<Byte>)
    requires f.offset + Extent(f) <= |m| && (f.name in t ==> TypedField(f, t[f.name]))
    ensures |s| == Extent(f)
  {
    if f.name in t then PutField(f, t[f.name], Slice(m, f)) else Slice(m, f)
  }

  predicate Inside(f: Field, k: nat)
  {
    f.offset <= k < f.offset + Extent(f)
  }

  /** A byte that no present field covers. */
  predicate Untouched(fs: seq<Field>, t: Table, k: nat)
  {
    forall i | 0 <= i < |fs| :: Inside(fs[i], k) ==> fs[i].name !in t
  }

  lemma {:induction false} UntouchedInit(fs: seq<Field>, t: Table, k: nat)
    requires fs != [] && Untouched(fs, t, k)
    ensures Untouched(fs[..|fs| - 1], t, k)
    ensures fs[|fs| - 1].name in t ==> !Inside(fs[|fs| - 1], k)
  {
    forall i | 0 <= i < |fs| - 1 ensures Inside(fs[i], k) ==> fs[i].name !in t {
    }
    assert Inside(fs[|fs| - 1], k) ==> fs[|fs| - 1].name !in t;
  }

  /** Put changes no byte outside the present fields. */
  lemma {:induction false} PutUntouched(fs: seq<Field>, t: Table, m: seq<Byte>, k: nat)
    requires Span(fs) <= |m| && Typed(fs, t) && k < |m| && Untouched(fs, t, k)
    ensures Put(fs, t, m)[k] == m[k]
  {
    if fs != [] {
      UntouchedInit(fs, t, k);
      PutUntouched(fs[..|fs| - 1], t, m, k);
    }
  }

  lemma {:induction false} DisjointInside(fs: seq<Field>, i: nat, k: nat)
    requires Wf(fs) && i < |fs| - 1 && Inside(fs[i], k)
    ensures !Inside(fs[|fs| - 1], k)
  {
    assert Disjoint(fs[i], fs[|fs| - 1]);
  }

  /** The bytes of the last field are still the original ones when its turn comes. */
  lemma {:induction false} LastSlice(fs: seq<Field>, t: Table, m: seq<Byte>)
    requires fs != [] && Span(fs) <= |m| && Wf(fs) && Typed(fs, t)
    ensures var f := fs[|fs| - 1];
            f.offset + Extent(f) <= |m| && Slice(Put(fs[..|fs| - 1], t, m), f) == Slice(m, f)
  {
    var n := |fs| - 1;
    var init, f := fs[..n], fs[n];
    SpanCovers(fs, n);
    var r := Put(init, t, m);
    forall k | f.offset <= k < f.offset + Extent(f) ensures r[k] == m[k] {
      forall i | 0 <= i < n ensures !Inside(init[i], k) {
        if Inside(init[i], k) {
          DisjointInside(fs, i, k);
        }
      }
      PutUntouched(init, t, m, k);
    }
  }

  /** The last field leaves the bytes of the others alone. */
  lemma {:induction false} OtherSlice(fs: seq<Field>, t: Table, m: seq<Byte>, i: nat)
    requires Span(fs) <= |m| && Wf(fs) && Typed(fs, t) && i < |fs| - 1
    ensures fs[i].offset + Extent(fs[i]) <= |m|
    ensures Slice(Put(fs, t, m), fs[i]) == Slice(Put(fs[..|fs| - 1], t, m), fs[i])
  {
    SpanCovers(fs, i);
    SpanCovers(fs, |fs| - 1);
    forall k | fs[i].offset <= k < fs[i].offset + Extent(fs[i])
      ensures Put(fs, t, m)[k] == Put(fs[..|fs| - 1], t, m)[k]
    {
      assert Inside(fs[i], k);
      DisjointInside(fs, i, k);
    }
  }

  /** Put acts on each field by itself. */
  lemma {:induction false} PutAt(fs: seq<Field>, t: Table, m: seq<Byte>, i: nat)
    requires Span(fs) <= |m| && Wf(fs) && Typed(fs, t) && i < |fs|
    ensures fs[i].offset + Extent(fs[i]) <= |m|
    ensures Slice(Put(fs, t, m), fs[i]) == After(fs[i], t, m)
  {
    SpanCovers(fs, i);
    if i < |fs| - 1 {
      var init := fs[..|fs| - 1];
      WfInit(fs);
      PutAt(init, t, m, i);
      assert init[i] == fs[i];
      OtherSlice(fs, t, m, i);
    } else {
      LastSlice(fs, t, m);
    }
  }

  /** A byte of no field: padding, or a member the descriptor does not name. */
  predicate Outside(fs: seq<Field>, k: nat)
  {
    forall i | 0 <= i < |fs| :: !Inside(fs[i], k)
  }

  lemma {:induction false} PutOutside(fs: seq<Field>, t: Table, m: seq<Byte>)
    requires Span(fs) <= |m| && Typed(fs, t)
    ensures forall k | 0 <= k < |m| && Outside(fs, k) :: Put(fs, t, m)[k] == m[k]
  {
    forall k | 0 <= k < |m| && Outside(fs, k) ensures Put(fs, t, m)[k] == m[k] {
      PutUntouched(fs, t, m, k);
    }
  }

  lemma {:induction false} PutEmpty(fs: seq<Field>, m: seq<Byte>)
    requires Span(fs) <= |m|
    ensures Typed(fs, map[]) && Put(fs, map[], m) == m
  {
    if fs != [] {
      PutEmpty(fs[..|fs| - 1], m);
    }
  }

  // ---------------------------------------------------------------- nothing beyond the span

  lemma {:induction false} SliceLocal(m: seq<Byte>, n: nat, f: Field)
    requires f.offset + Extent(f) <= n <= |m|
    ensures Slice(m[..n], f) == Slice(m, f)
  {
  }

  /** Decoding reads no byte at or beyond the span of the descriptor. */
  lemma {:induction false} GetLocal(w: nat, fs: seq<Field>, m: seq<Byte>, n: nat)
    requires Span(fs) <= n <= |m|
    ensures Get(w, fs, m[..n]) == Get(w, fs, m)
  {
    if fs != [] {
      GetLocal(w, fs[..|fs| - 1], m, n);
      SliceLocal(m, n, fs[|fs| - 1]);
    }
  }

  /** Encoding neither reads nor writes a byte at or beyond the span of the descriptor. */
  lemma {:induction false} PutLocal(fs: seq<Field>, t: Table, m: seq<Byte>, n: nat)
    requires Span(fs) <= n <= |m| && Typed(fs, t)
    ensures Put(fs, t, m) == Splice(m, 0, Put(fs, t, m[..n]))
  {
    if fs != [] {
      var f, init := fs[|fs| - 1], fs[..|fs| - 1];
      PutLocal(init, t, m, n);
      var r, r' := Put(init, t, m), Put(init, t, m[..n]);
      assert r[..n] == r';
      SliceLocal(r, n, f);
    }
  }

  lemma {:induction false} TerminatedLocal(fs: seq<Field>, m: seq<Byte>, n: nat)
    requires Span(fs) <= n <= |m|
    ensures Terminated(fs, m[..n]) <==> Terminated(fs, m)
  {
    forall i | 0 <= i < |fs|
      ensures fs[i].offset + Extent(fs[i]) <= n && Slice(m[..n], fs[i]) == Slice(m, fs[i])
    {
      SpanCovers(fs, i);
      SliceLocal(m, n, fs[i]);
    }
  }
}
