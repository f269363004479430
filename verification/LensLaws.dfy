/** The lens laws of the descriptor codec. */
module LensLaws {
  import opened Bytes
  import opened Descriptor
  import opened Lens

  // ---------------------------------------------------------------- overlay

  /** s as it comes back out of an n-byte string buffer. */
  function Cut(s: seq<Byte>, n: nat): (c: seq<Byte>)
    requires n >= 1
  {
    CStr(s)[..Min(|CStr(s)|, n - 1)]
  }

  /** A present value overlaid on the field's old value: leaves are replaced by their value
      normalised to the field, nested tables are overlaid recursively. */
  function OverlayField(w: nat, f: Field, g: Tree, v: Tree): Tree
    requires FullField(f, g) && TypedField(f, v)
    decreases f
  {
    match f.kind
    case Int => TInt(WrapS(WrapS(v.i, Extent(f)), w))
    case UInt => TInt(WrapS(v.i % Pow256(Extent(f)), w))
    case StrBuf => TStr(Cut(v.s, f.size))
    case Bool => TBool(v.b)
    case Object(sub) => TObj(Overlay(w, sub, g.t, v.t))
  }

  function Overlay(w: nat, fs: seq<Field>, g: Table, t: Table): Table
    requires Full(fs, g) && Typed(fs, t)
    decreases fs
  {
    if fs == [] then g
    else
      var f := fs[|fs| - 1];
      var r := Overlay(w, fs[..|fs| - 1], g, t);
      if f.name !in t then r else r[f.name := OverlayField(w, f, g[f.name], t[f.name])]
  }

  predicate FullField(f: Field, v: Tree)
    decreases f
  {
    TypedField(f, v) && (f.kind.Object? ==> Full(f.kind.sub, v.t))
  }

  /** Every described leaf is present, recursively. */
  predicate Full(fs: seq<Field>, t: Table)
    decreases fs
  {
    forall i | 0 <= i < |fs| :: fs[i].name in t && FullField(fs[i], t[fs[i].name])
  }

  lemma {:induction false} FullTyped(fs: seq<Field>, t: Table)
    requires Full(fs, t)
    ensures Typed(fs, t)
  {
  }

  lemma {:induction false} GetFullField(w: nat, f: Field, s: seq<Byte>)
    requires |s| == Extent(f) && WfField(f)
    ensures FullField(f, GetField(w, f, s))
    decreases f
  {
    if f.kind.Object? {
      GetFull(w, f.kind.sub, s);
    }
  }

  lemma {:induction false} GetFull(w: nat, fs: seq<Field>, m: seq<Byte>)
    requires Span(fs) <= |m| && Wf(fs)
    ensures Full(fs, Get(w, fs, m)) && Typed(fs, Get(w, fs, m))
    decreases fs
  {
    forall i | 0 <= i < |fs|
      ensures fs[i].name in Get(w, fs, m) && FullField(fs[i], Get(w, fs, m)[fs[i].name])
    {
      GetAt(w, fs, m, i);
      GetFullField(w, fs[i], Slice(m, fs[i]));
    }
    FullTyped(fs, Get(w, fs, m));
  }

  lemma {:induction false} OverlayKeys(w: nat, fs: seq<Field>, g: Table, t: Table)
    requires Full(fs, g) && Typed(fs, t)
    ensures Overlay(w, fs, g, t).Keys == g.Keys
  {
    if fs != [] {
      OverlayKeys(w, fs[..|fs| - 1], g, t);
    }
  }

  /** Keys that no field describes keep their old value. */
  lemma {:induction false} OverlayElsewhere(w: nat, fs: seq<Field>, g: Table, t: Table, x: string)
    requires Full(fs, g) && Typed(fs, t) && x in g
    requires forall i | 0 <= i < |fs| :: fs[i].name != x
    ensures x in Overlay(w, fs, g, t) && Overlay(w, fs, g, t)[x] == g[x]
  {
    if fs != [] {
      OverlayElsewhere(w, fs[..|fs| - 1], g, t, x);
    }
  }

  lemma {:induction false} OverlayAt(w: nat, fs: seq<Field>, g: Table, t: Table, i: nat)
    requires Full(fs, g) && Typed(fs, t) && Wf(fs) && i < |fs|
    ensures fs[i].name in Overlay(w, fs, g, t)
    ensures Overlay(w, fs, g, t)[fs[i].name] ==
            if fs[i].name in t then OverlayField(w, fs[i], g[fs[i].name], t[fs[i].name]) else g[fs[i].name]
  {
    var n := |fs| - 1;
    var init := fs[..n];
    if i < n {
      WfInit(fs);
      OverlayAt(w, init, g, t, i);
      assert init[i] == fs[i];
    } else {
      OverlayElsewhere(w, init, g, t, fs[n].name);
    }
  }

  // ---------------------------------------------------------------- put, then get

  lemma {:induction false} CStrPad(s: seq<Byte>, n: nat)
    requires n >= 1
    ensures CStr(PadStr(s, n)) == Cut(s, n)
  {
    CStrPrefix(Cut(s, n), Fill(0, n - |Cut(s, n)|));
  }

  lemma {:induction false} CStrPrefix(c: seq<Byte>, rest: seq<Byte>)
    requires 0 !in c && rest != [] && rest[0] == 0
    ensures CStr(c + rest) == c
  {
    if c != [] {
      CStrPrefix(c[1..], rest);
      assert (c + rest)[1..] == c[1..] + rest;
    } else {
      assert c + rest == rest;
    }
  }

  lemma {:induction false} PutGetField(w: nat, f: Field, v: Tree, s: seq<Byte>)
    requires |s| == Extent(f) && WfField(f) && TypedField(f, v)
    ensures FullField(f, GetField(w, f, s))
    ensures GetField(w, f, PutField(f, v, s)) == OverlayField(w, f, GetField(w, f, s), v)
    decreases f
  {
    GetFullField(w, f, s);
    match f.kind
    case Int => FromToLE(v.i, |s|);
    case UInt => FromToLE(v.i, |s|);
    case StrBuf => CStrPad(v.s, |s|);
    case Bool =>
    case Object(sub) => PutGet(w, sub, v.t, s);
  }

  lemma {:induction false} PutGetAt(w: nat, fs: seq<Field>, t: Table, m: seq<Byte>, i: nat)
    requires Span(fs) <= |m| && Wf(fs) && Typed(fs, t) && i < |fs|
    requires Full(fs, Get(w, fs, m))
    ensures fs[i].name in Get(w, fs, Put(fs, t, m)) && fs[i].name in Overlay(w, fs, Get(w, fs, m), t)
    ensures Get(w, fs, Put(fs, t, m))[fs[i].name] == Overlay(w, fs, Get(w, fs, m), t)[fs[i].name]
    decreases fs, 0
  {
    var f := fs[i];
    GetAt(w, fs, m, i);
    GetAt(w, fs, Put(fs, t, m), i);
    OverlayAt(w, fs, Get(w, fs, m), t, i);
    PutAt(fs, t, m, i);
    if f.name in t {
      PutGetField(w, f, t[f.name], Slice(m, f));
    }
  }

  /** Decoding after encoding yields the old contents overlaid with the table. */
  lemma {:induction false} PutGet(w: nat, fs: seq<Field>, t: Table, m: seq<Byte>)
    requires Span(fs) <= |m| && Wf(fs) && Typed(fs, t)
    ensures Full(fs, Get(w, fs, m))
    ensures Get(w, fs, Put(fs, t, m)) == Overlay(w, fs, Get(w, fs, m), t)
    decreases fs, 1
  {
    var g, r := Get(w, fs, m), Put(fs, t, m);
    GetFull(w, fs, m);
    GetKeys(w, fs, m);
    GetKeys(w, fs, r);
    OverlayKeys(w, fs, g, t);
    forall x | x in Names(fs) ensures Get(w, fs, r)[x] == Overlay(w, fs, g, t)[x] {
      var i :| 0 <= i < |fs| && fs[i].name == x;
      PutGetAt(w, fs, t, m, i);
    }
  }

  // ---------------------------------------------------------------- get, then put

  lemma {:induction false} SameByFields(fs: seq<Field>, a: seq<Byte>, b: seq<Byte>)
    requires |a| == |b| && Span(fs) <= |a|
    requires forall i | 0 <= i < |fs| :: fs[i].offset + Extent(fs[i]) <= |a| && Slice(a, fs[i]) == Slice(b, fs[i])
    requires forall k | 0 <= k < |a| && Outside(fs, k) :: a[k] == b[k]
    ensures a == b
  {
    forall k | 0 <= k < |a| ensures a[k] == b[k] {
      if i :| 0 <= i < |fs| && Inside(fs[i], k) {
        assert a[k] == Slice(a, fs[i])[k - fs[i].offset];
        assert b[k] == Slice(b, fs[i])[k - fs[i].offset];
      }
    }
  }

  predicate AllZero(s: seq<Byte>)
  {
    forall k | 0 <= k < |s| :: s[k] == 0
  }

  predicate ZeroPadded(s: seq<Byte>)
  {
    |CStr(s)| < |s| && AllZero(s[|CStr(s)|..])
  }

  predicate CanonicalField(w: nat, f: Field, s: seq<Byte>)
    requires w >= 1 && |s| == Extent(f)
    decreases f
  {
    match f.kind
    case Int => SignExtended(s, w)
    case UInt => SignExtended(s, w)
    case StrBuf => ZeroPadded(s)
    case Bool => s[0] in {0, 1}
    case Object(sub) => Canonical(w, sub, s)
  }

  /** Every leaf holds the byte pattern the encoder itself would write: integers wider than
      lua_Integer are sign extensions of their low w bytes, strings are zero-padded after
      their terminator, booleans are 0 or 1. */
  predicate Canonical(w: nat, fs: seq<Field>, m: seq<Byte>)
    requires w >= 1 && Span(fs) <= |m|
    decreases fs
  {
    forall i | 0 <= i < |fs| ::
      fs[i].offset + Extent(fs[i]) <= |m| && CanonicalField(w, fs[i], Slice(m, fs[i]))
  }

  lemma {:induction false} PadFits(c: seq<Byte>, n: nat)
    requires 0 !in c && |c| < n
    ensures PadStr(c, n) == c + Fill(0, n - |c|)
  {
    CStrWhole(c);
  }

  lemma {:induction false} SamePrefix(c: seq<Byte>, x: seq<Byte>, y: seq<Byte>)
    ensures c + x == c + y <==> x == y
  {
    assert (c + x)[|c|..] == x && (c + y)[|c|..] == y;
  }

  lemma {:induction false} ZerosIff(x: seq<Byte>)
    ensures Fill(0, |x|) == x <==> AllZero(x)
  {
    assert forall k | 0 <= k < |x| :: Fill(0, |x|)[k] == 0;
  }

  lemma {:induction false} PadStrIff(s: seq<Byte>)
    requires s != []
    ensures PadStr(CStr(s), |s|) == s <==> ZeroPadded(s)
  {
    var c, n := CStr(s), |s|;
    if |c| < n {
      var rest := s[|c|..];
      PadFits(c, n);
      SamePrefix(c, Fill(0, n - |c|), rest);
      ZerosIff(rest);
      assert s == c + rest;
    } else {
      PadFull(c);
    }
  }

  /** A buffer without a terminator is never what the encoder writes. */
  lemma {:induction false} PadFull(c: seq<Byte>)
    requires c != [] && 0 !in c
    ensures PadStr(c, |c|) != c
  {
    assert PadStr(c, |c|)[|c| - 1] == 0;
    assert c[|c| - 1] != 0;
  }

  lemma {:induction false} CStrWhole(c: seq<Byte>)
    requires 0 !in c
    ensures CStr(c) == c
  {
    if c != [] {
      CStrWhole(c[1..]);
    }
  }

  lemma {:induction false} GetPutFieldIff(w: nat, f: Field, s: seq<Byte>)
    requires w >= 1 && |s| == Extent(f) && WfField(f)
    ensures TypedField(f, GetField(w, f, s))
    ensures PutField(f, GetField(w, f, s), s) == s <==> CanonicalField(w, f, s)
    decreases f
  {
    GetFullField(w, f, s);
    match f.kind
    case Int =>
      AsSignedModulo(FromLE(s), |s|);
      SqueezeIff(s, AsSigned(FromLE(s), |s|), w);
    case UInt =>
      DivModUnique(FromLE(s), Pow256(|s|), 0, FromLE(s));
      SqueezeIff(s, FromLE(s), w);
    case StrBuf => PadStrIff(s);
    case Bool => assert s == [s[0]];
    case Object(sub) => GetPutIff(w, sub, s);
  }

  /** Encoding what was just decoded changes nothing exactly when the memory is canonical. */
  lemma {:induction false} GetPutIff(w: nat, fs: seq<Field>, m: seq<Byte>)
    requires w >= 1 && Span(fs) <= |m| && Wf(fs)
    ensures Typed(fs, Get(w, fs, m))
    ensures Put(fs, Get(w, fs, m), m) == m <==> Canonical(w, fs, m)
    decreases fs
  {
    var g := Get(w, fs, m);
    GetFull(w, fs, m);
    PutOutside(fs, g, m);
    var r := Put(fs, g, m);
    forall i | 0 <= i < |fs|
      ensures fs[i].offset + Extent(fs[i]) <= |m|
      ensures Slice(r, fs[i]) == Slice(m, fs[i]) <==> CanonicalField(w, fs[i], Slice(m, fs[i]))
    {
      GetAt(w, fs, m, i);
      PutAt(fs, g, m, i);
      GetPutFieldIff(w, fs[i], Slice(m, fs[i]));
    }
    if Canonical(w, fs, m) {
      SameByFields(fs, r, m);
    }
  }
}
