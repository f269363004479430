/** Writing twice: the put-put law, idempotent canonicalisation, and complete tables, whose
    result does not depend on what the memory held before. */
module MergeLaws {
  import opened Bytes
  import opened Descriptor
  import opened Lens
  import opened LensLaws

  // ---------------------------------------------------------------- put-put

  function MergeField(f: Field, a: Tree, b: Tree): Tree
    requires TypedField(f, a) && TypedField(f, b)
    decreases f
  {
    if f.kind.Object? then TObj(Merge(f.kind.sub, a.t, b.t)) else b
  }

  /** t2 over t1: leaves of t2 win, nested tables merge. */
  function Merge(fs: seq<Field>, t1: Table, t2: Table): Table
    requires Typed(fs, t1) && Typed(fs, t2)
    decreases fs
  {
    if fs == [] then t1 + t2
    else
      var f := fs[|fs| - 1];
      var r := Merge(fs[..|fs| - 1], t1, t2);
      if f.name in t1 && f.name in t2 then r[f.name := MergeField(f, t1[f.name], t2[f.name])] else r
  }

  lemma {:induction false} MergeKeys(fs: seq<Field>, t1: Table, t2: Table)
    requires Typed(fs, t1) && Typed(fs, t2)
    ensures Merge(fs, t1, t2).Keys == t1.Keys + t2.Keys
  {
    if fs != [] {
      MergeKeys(fs[..|fs| - 1], t1, t2);
    }
  }

  lemma {:induction false} MergeElsewhere(fs: seq<Field>, t1: Table, t2: Table, x: string)
    requires Typed(fs, t1) && Typed(fs, t2) && x in t1.Keys + t2.Keys
    requires forall i | 0 <= i < |fs| :: fs[i].name != x
    ensures x in Merge(fs, t1, t2) && Merge(fs, t1, t2)[x] == (t1 + t2)[x]
  {
    if fs != [] {
      MergeElsewhere(fs[..|fs| - 1], t1, t2, x);
    }
  }

  lemma {:induction false} MergeAt(fs: seq<Field>, t1: Table, t2: Table, i: nat)
    requires Typed(fs, t1) && Typed(fs, t2) && Wf(fs) && i < |fs|
    ensures var x := fs[i].name;
            && (x in Merge(fs, t1, t2) <==> x in t1 || x in t2)
            && (x in t1 && x in t2 ==> Merge(fs, t1, t2)[x] == MergeField(fs[i], t1[x], t2[x]))
            && (x in t1 && x !in t2 ==> Merge(fs, t1, t2)[x] == t1[x])
            && (x !in t1 && x in t2 ==> Merge(fs, t1, t2)[x] == t2[x])
  {
    MergeKeys(fs, t1, t2);
    var n := |fs| - 1;
    var init := fs[..n];
    if i < n {
      WfInit(fs);
      MergeAt(init, t1, t2, i);
      assert init[i] == fs[i];
    } else if fs[n].name in t1.Keys + t2.Keys {
      MergeElsewhere(init, t1, t2, fs[n].name);
    }
  }

  lemma {:induction false} MergeTypedField(f: Field, a: Tree, b: Tree)
    requires TypedField(f, a) && TypedField(f, b) && WfField(f)
    ensures TypedField(f, MergeField(f, a, b))
    decreases f
  {
    if f.kind.Object? {
      MergeTyped(f.kind.sub, a.t, b.t);
    }
  }

  lemma {:induction false} MergeTyped(fs: seq<Field>, t1: Table, t2: Table)
    requires Typed(fs, t1) && Typed(fs, t2) && Wf(fs)
    ensures Typed(fs, Merge(fs, t1, t2))
    decreases fs
  {
    forall i | 0 <= i < |fs| && fs[i].name in Merge(fs, t1, t2)
      ensures TypedField(fs[i], Merge(fs, t1, t2)[fs[i].name])
    {
      MergeAt(fs, t1, t2, i);
      if fs[i].name in t1 && fs[i].name in t2 {
        MergeTypedField(fs[i], t1[fs[i].name], t2[fs[i].name]);
      }
    }
  }

  lemma {:induction false} PutPutField(f: Field, a: Tree, b: Tree, s: seq<Byte>)
    requires |s| == Extent(f) && TypedField(f, a) && TypedField(f, b) && WfField(f)
    ensures TypedField(f, MergeField(f, a, b))
    ensures PutField(f, b, PutField(f, a, s)) == PutField(f, MergeField(f, a, b), s)
    decreases f
  {
    MergeTypedField(f, a, b);
    if f.kind.Object? {
      PutPut(f.kind.sub, a.t, b.t, s);
    }
  }

  lemma {:induction false} PutPutAt(fs: seq<Field>, t1: Table, t2: Table, m: seq<Byte>, i: nat)
    requires Span(fs) <= |m| && Wf(fs) && Typed(fs, t1) && Typed(fs, t2) && i < |fs|
    requires Typed(fs, Merge(fs, t1, t2))
    ensures fs[i].offset + Extent(fs[i]) <= |m|
    ensures Slice(Put(fs, t2, Put(fs, t1, m)), fs[i]) == Slice(Put(fs, Merge(fs, t1, t2), m), fs[i])
    decreases fs, 0
  {
    var f := fs[i];
    PutAt(fs, t1, m, i);
    PutAt(fs, t2, Put(fs, t1, m), i);
    PutAt(fs, Merge(fs, t1, t2), m, i);
    MergeAt(fs, t1, t2, i);
    if f.name in t1 && f.name in t2 {
      PutPutField(f, t1[f.name], t2[f.name], Slice(m, f));
    }
  }

  /** Encoding t1 and then t2 is encoding their recursive merge. */
  lemma {:induction false} PutPut(fs: seq<Field>, t1: Table, t2: Table, m: seq<Byte>)
    requires Span(fs) <= |m| && Wf(fs) && Typed(fs, t1) && Typed(fs, t2)
    ensures Typed(fs, Merge(fs, t1, t2))
    ensures Put(fs, t2, Put(fs, t1, m)) == Put(fs, Merge(fs, t1, t2), m)
    decreases fs, 1
  {
    var t := Merge(fs, t1, t2);
    MergeTyped(fs, t1, t2);
    var a, b := Put(fs, t2, Put(fs, t1, m)), Put(fs, t, m);
    forall i | 0 <= i < |fs|
      ensures fs[i].offset + Extent(fs[i]) <= |m| && Slice(a, fs[i]) == Slice(b, fs[i])
    {
      PutPutAt(fs, t1, t2, m, i);
    }
    PutOutside(fs, t1, m);
    PutOutside(fs, t2, Put(fs, t1, m));
    PutOutside(fs, t, m);
    SameByFields(fs, a, b);
  }

  // ---------------------------------------------------------------- complete tables

  lemma {:induction false} PutPutFullField(f: Field, a: Tree, b: Tree, s: seq<Byte>)
    requires |s| == Extent(f) && TypedField(f, a) && FullField(f, b) && WfField(f)
    ensures PutField(f, b, PutField(f, a, s)) == PutField(f, b, s)
    decreases f
  {
    if f.kind.Object? {
      PutPutFull(f.kind.sub, a.t, b.t, s);
    }
  }

  /** A complete table erases everything an earlier table wrote. */
  lemma {:induction false} PutPutFull(fs: seq<Field>, t1: Table, t2: Table, m: seq<Byte>)
    requires Span(fs) <= |m| && Wf(fs) && Typed(fs, t1) && Full(fs, t2)
    ensures Typed(fs, t2)
    ensures Put(fs, t2, Put(fs, t1, m)) == Put(fs, t2, m)
    decreases fs
  {
    FullTyped(fs, t2);
    var a, b := Put(fs, t2, Put(fs, t1, m)), Put(fs, t2, m);
    PutOutside(fs, t1, m);
    PutOutside(fs, t2, Put(fs, t1, m));
    PutOutside(fs, t2, m);
    forall i | 0 <= i < |fs|
      ensures fs[i].offset + Extent(fs[i]) <= |m| && Slice(a, fs[i]) == Slice(b, fs[i])
    {
      PutAt(fs, t1, m, i);
      PutAt(fs, t2, Put(fs, t1, m), i);
      PutAt(fs, t2, m, i);
      if fs[i].name in t1 {
        PutPutFullField(fs[i], t1[fs[i].name], t2[fs[i].name], Slice(m, fs[i]));
      }
    }
    SameByFields(fs, a, b);
  }

  /** A complete table with every leaf as its field stores it. */
  function NormalField(w: nat, f: Field, v: Tree): Tree
    requires FullField(f, v)
    decreases f
  {
    match f.kind
    case Int => TInt(WrapS(WrapS(v.i, Extent(f)), w))
    case UInt => TInt(WrapS(v.i % Pow256(Extent(f)), w))
    case StrBuf => TStr(Cut(v.s, f.size))
    case Bool => TBool(v.b)
    case Object(sub) => TObj(Normal(w, sub, v.t))
  }

  function Normal(w: nat, fs: seq<Field>, t: Table): Table
    requires Full(fs, t)
    decreases fs
  {
    if fs == [] then map[]
    else
      var f := fs[|fs| - 1];
      Normal(w, fs[..|fs| - 1], t)[f.name := NormalField(w, f, t[f.name])]
  }

  lemma {:induction false} NormalKeys(w: nat, fs: seq<Field>, t: Table)
    requires Full(fs, t)
    ensures Normal(w, fs, t).Keys == Names(fs)
  {
    if fs != [] {
      NormalKeys(w, fs[..|fs| - 1], t);
      NamesInit(fs);
    }
  }

  lemma {:induction false} NormalAt(w: nat, fs: seq<Field>, t: Table, i: nat)
    requires Full(fs, t) && Wf(fs) && i < |fs|
    ensures fs[i].name in Normal(w, fs, t)
    ensures Normal(w, fs, t)[fs[i].name] == NormalField(w, fs[i], t[fs[i].name])
  {
    if i < |fs| - 1 {
      var init := fs[..|fs| - 1];
      WfInit(fs);
      NormalAt(w, init, t, i);
      assert init[i] == fs[i];
    }
  }

  lemma {:induction false} OverlayFullField(w: nat, f: Field, g: Tree, v: Tree)
    requires FullField(f, g) && FullField(f, v) && WfField(f)
    requires f.kind.Object? ==> Tidy(f.kind.sub, g.t)
    ensures OverlayField(w, f, g, v) == NormalField(w, f, v)
    decreases f
  {
    if f.kind.Object? {
      OverlayFull(w, f.kind.sub, g.t, v.t);
    }
  }

  /** No undescribed keys, recursively: the shape of every decoded table. */
  predicate TidyField(f: Field, v: Tree)
    requires FullField(f, v)
    decreases f
  {
    f.kind.Object? ==> Tidy(f.kind.sub, v.t)
  }

  predicate Tidy(fs: seq<Field>, t: Table)
    requires Full(fs, t)
    decreases fs
  {
    t.Keys == Names(fs) && forall i | 0 <= i < |fs| :: TidyField(fs[i], t[fs[i].name])
  }

  lemma {:induction false} GetTidy(w: nat, fs: seq<Field>, m: seq<Byte>)
    requires Span(fs) <= |m| && Wf(fs)
    ensures Full(fs, Get(w, fs, m)) && Tidy(fs, Get(w, fs, m))
    decreases fs
  {
    GetFull(w, fs, m);
    GetKeys(w, fs, m);
    forall i | 0 <= i < |fs|
      ensures TidyField(fs[i], Get(w, fs, m)[fs[i].name])
    {
      GetAt(w, fs, m, i);
      if fs[i].kind.Object? {
        GetTidy(w, fs[i].kind.sub, Slice(m, fs[i]));
      }
    }
  }

  /** Overlaying a complete table forgets what was there. */
  lemma {:induction false} OverlayFull(w: nat, fs: seq<Field>, g: Table, t: Table)
    requires Full(fs, g) && Tidy(fs, g) && Full(fs, t) && Wf(fs)
    ensures Typed(fs, t)
    ensures Overlay(w, fs, g, t) == Normal(w, fs, t)
    decreases fs
  {
    FullTyped(fs, t);
    OverlayKeys(w, fs, g, t);
    NormalKeys(w, fs, t);
    forall x | x in Names(fs) ensures Overlay(w, fs, g, t)[x] == Normal(w, fs, t)[x] {
      var i :| 0 <= i < |fs| && fs[i].name == x;
      OverlayAt(w, fs, g, t, i);
      NormalAt(w, fs, t, i);
      assert TidyField(fs[i], g[x]);
      OverlayFullField(w, fs[i], g[x], t[x]);
    }
  }

  /** Encoding a complete table and decoding it again returns the table normalised to its
      fields, whatever the memory held before. */
  lemma {:induction false} PutGetFull(w: nat, fs: seq<Field>, t: Table, m: seq<Byte>)
    requires Span(fs) <= |m| && Wf(fs) && Full(fs, t)
    ensures Typed(fs, t)
    ensures Get(w, fs, Put(fs, t, m)) == Normal(w, fs, t)
  {
    FullTyped(fs, t);
    GetTidy(w, fs, m);
    PutGet(w, fs, t, m);
    OverlayFull(w, fs, Get(w, fs, m), t);
  }

  // ---------------------------------------------------------------- canonical memory

  /** Storing a decoded integer and decoding it again gives the same integer. */
  lemma {:induction false} DecodedIntFix(x: int, k: nat, w: nat)
    requires w >= 1 && (0 <= x < Pow256(k) || 0 <= 2 * x + Pow256(k) < 2 * Pow256(k))
    ensures 0 <= x < Pow256(k) ==> WrapS(WrapS(x, w) % Pow256(k), w) == WrapS(x, w)
    ensures 0 <= 2 * x + Pow256(k) < 2 * Pow256(k) ==> WrapS(WrapS(WrapS(x, w), k), w) == WrapS(x, w)
  {
    var v := WrapS(x, w);
    WrapSModulo(x, w);
    WrapSModulo(v, k);
    if k <= w {
      NarrowModulo(v, x, k, w);
      if 0 <= x < Pow256(k) {
        DivModUnique(x, Pow256(k), 0, x);
      }
      if 0 <= 2 * x + Pow256(k) < 2 * Pow256(k) {
        WrapSFix(x, k);
      }
    } else {
      WrapSFix(v, w);
      DivModUnique(v % Pow256(k), Pow256(k), 0, v % Pow256(k));
      NarrowModulo(v % Pow256(k), v, w, k);
      NarrowModulo(WrapS(v, k), v, w, k);
    }
  }

  lemma {:induction false} NormalGetField(w: nat, f: Field, s: seq<Byte>)
    requires w >= 1 && |s| == Extent(f) && WfField(f) && TerminatedField(f, s)
    ensures FullField(f, GetField(w, f, s))
    ensures NormalField(w, f, GetField(w, f, s)) == GetField(w, f, s)
    decreases f
  {
    GetFullField(w, f, s);
    match f.kind
    case Int =>
      AsSignedRange(FromLE(s), |s|);
      DecodedIntFix(AsSigned(FromLE(s), |s|), |s|, w);
    case UInt => DecodedIntFix(FromLE(s), |s|, w);
    case StrBuf => CutFix(s);
    case Bool =>
    case Object(sub) => NormalGet(w, sub, s);
  }

  lemma {:induction false} AsSignedRange(u: int, k: nat)
    requires 0 <= u < Pow256(k)
    ensures 0 <= 2 * AsSigned(u, k) + Pow256(k) < 2 * Pow256(k)
  {
  }

  lemma {:induction false} CutFix(s: seq<Byte>)
    requires 0 in s
    ensures Cut(CStr(s), |s|) == CStr(s)
  {
    CStrWhole(CStr(s));
    assert CStr(s) == s[..|CStr(s)|];
    assert |CStr(s)| == |s| ==> CStr(s) == s;
  }

  /** A decoded table is in normal form already. */
  lemma {:induction false} NormalGet(w: nat, fs: seq<Field>, m: seq<Byte>)
    requires w >= 1 && Span(fs) <= |m| && Wf(fs) && Terminated(fs, m)
    ensures Full(fs, Get(w, fs, m))
    ensures Normal(w, fs, Get(w, fs, m)) == Get(w, fs, m)
    decreases fs
  {
    var g := Get(w, fs, m);
    GetFull(w, fs, m);
    GetKeys(w, fs, m);
    NormalKeys(w, fs, g);
    forall x | x in Names(fs) ensures Normal(w, fs, g)[x] == g[x] {
      var i :| 0 <= i < |fs| && fs[i].name == x;
      GetAt(w, fs, m, i);
      NormalAt(w, fs, g, i);
      NormalGetField(w, fs[i], Slice(m, fs[i]));
    }
  }

  /** Writing back what was read. */
  function Canonicalise(w: nat, fs: seq<Field>, m: seq<Byte>): (r: seq<Byte>)
    requires Span(fs) <= |m| && Wf(fs)
    ensures |r| == |m|
  {
    GetFull(w, fs, m);
    Put(fs, Get(w, fs, m), m)
  }

  /** Writing back what was read keeps the decoded table, reaches canonical memory in one
      step and is then stable. */
  lemma {:induction false} CanonicaliseOnce(w: nat, fs: seq<Field>, m: seq<Byte>)
    requires w >= 1 && Span(fs) <= |m| && Wf(fs) && Terminated(fs, m)
    ensures Get(w, fs, Canonicalise(w, fs, m)) == Get(w, fs, m)
    ensures Canonicalise(w, fs, Canonicalise(w, fs, m)) == Canonicalise(w, fs, m)
    ensures Canonical(w, fs, Canonicalise(w, fs, m))
  {
    var g := Get(w, fs, m);
    GetFull(w, fs, m);
    PutGetFull(w, fs, g, m);
    NormalGet(w, fs, m);
    PutPutFull(fs, g, g, m);
    GetPutIff(w, fs, Canonicalise(w, fs, m));
  }

  /** An integer field no wider than lua_Integer survives the trip in every bit, even an
      unsigned one whose value shows as negative in Lua. */
  lemma {:induction false} NarrowIntIdentity(w: nat, f: Field, s: seq<Byte>)
    requires w >= 1 && |s| == Extent(f) <= w && (f.kind.Int? || f.kind.UInt?)
    ensures TypedField(f, GetField(w, f, s))
    ensures PutField(f, GetField(w, f, s), s) == s
  {
    GetPutFieldIff(w, f, s);
  }

  // ---------------------------------------------------------------- string terminators

  lemma {:induction false} PutTerminatedField(f: Field, v: Tree, s: seq<Byte>)
    requires |s| == Extent(f) && TypedField(f, v) && WfField(f)
    requires TerminatedField(f, s) || FullField(f, v)
    ensures TerminatedField(f, PutField(f, v, s))
    decreases f
  {
    match f.kind
    case StrBuf => assert PadStr(v.s, |s|)[|s| - 1] == 0;
    case Object(sub) => PutTerminated(sub, v.t, s);
    case _ =>
  }

  /** Encoding keeps strings terminated, and a complete table terminates all of them. */
  lemma {:induction false} PutTerminated(fs: seq<Field>, t: Table, m: seq<Byte>)
    requires Span(fs) <= |m| && Wf(fs) && Typed(fs, t)
    requires Terminated(fs, m) || Full(fs, t)
    ensures Terminated(fs, Put(fs, t, m))
    decreases fs
  {
    forall i | 0 <= i < |fs|
      ensures fs[i].offset + Extent(fs[i]) <= |m| && TerminatedField(fs[i], Slice(Put(fs, t, m), fs[i]))
    {
      PutAt(fs, t, m, i);
      if fs[i].name in t {
        PutTerminatedField(fs[i], t[fs[i].name], Slice(m, fs[i]));
      }
    }
  }
}
