/** Which bytes the encoder may change, and independence of the order of the field array. */
module FrameLaws {
  import opened Bytes
  import opened Descriptor
  import opened Lens
  import opened LensLaws

  // ---------------------------------------------------------------- frame

  predicate TouchedField(f: Field, v: Tree, k: nat)
    requires TypedField(f, v)
    decreases f
  {
    f.kind.Object? ==> Touched(f.kind.sub, v.t, k)
  }

  /** Byte k belongs to a leaf whose key is present in the table, on the whole path. */
  predicate Touched(fs: seq<Field>, t: Table, k: nat)
    requires Typed(fs, t)
    decreases fs
  {
    exists i | 0 <= i < |fs| ::
      fs[i].name in t && Inside(fs[i], k) && TouchedField(fs[i], t[fs[i].name], k - fs[i].offset)
  }

  lemma {:induction false} FrameField(f: Field, v: Tree, s: seq<Byte>, s': seq<Byte>, k: nat)
    requires |s| == |s'| == Extent(f) && TypedField(f, v) && WfField(f) && k < |s|
    ensures !TouchedField(f, v, k) ==> PutField(f, v, s)[k] == s[k]
    ensures TouchedField(f, v, k) ==> PutField(f, v, s)[k] == PutField(f, v, s')[k]
    decreases f
  {
    if f.kind.Object? {
      Frame(f.kind.sub, v.t, s, s', k);
    }
  }

  lemma {:induction false} OneOwner(fs: seq<Field>, i: nat, j: nat, k: nat)
    requires Wf(fs) && i < |fs| && j < |fs| && Inside(fs[i], k) && Inside(fs[j], k)
    ensures i == j
  {
  }

  lemma {:induction false} TouchedAt(fs: seq<Field>, t: Table, i: nat, k: nat)
    requires Wf(fs) && Typed(fs, t) && i < |fs| && Inside(fs[i], k)
    ensures Touched(fs, t, k) <==>
            fs[i].name in t && TouchedField(fs[i], t[fs[i].name], k - fs[i].offset)
  {
    forall j | 0 <= j < |fs| && Inside(fs[j], k) ensures j == i {
      OneOwner(fs, j, i, k);
    }
  }

  lemma {:induction false} FrameAt(fs: seq<Field>, t: Table, m: seq<Byte>, m': seq<Byte>, i: nat, k: nat)
    requires Span(fs) <= |m| == |m'| && Wf(fs) && Typed(fs, t) && k < |m| && i < |fs| && Inside(fs[i], k)
    ensures fs[i].name !in t ==> Put(fs, t, m)[k] == m[k]
    ensures fs[i].name in t ==>
              var touched := TouchedField(fs[i], t[fs[i].name], k - fs[i].offset);
              && (!touched ==> Put(fs, t, m)[k] == m[k])
              && (touched ==> Put(fs, t, m)[k] == Put(fs, t, m')[k])
    decreases fs, 0
  {
    var f := fs[i];
    PutAt(fs, t, m, i);
    PutAt(fs, t, m', i);
    assert Put(fs, t, m)[k] == Slice(Put(fs, t, m), f)[k - f.offset];
    assert Put(fs, t, m')[k] == Slice(Put(fs, t, m'), f)[k - f.offset];
    if f.name in t {
      FrameField(f, t[f.name], Slice(m, f), Slice(m', f), k - f.offset);
    }
  }

  /** A byte outside the present leaves keeps its value; a byte inside one is decided by the
      table alone. */
  lemma {:induction false} Frame(fs: seq<Field>, t: Table, m: seq<Byte>, m': seq<Byte>, k: nat)
    requires Span(fs) <= |m| == |m'| && Wf(fs) && Typed(fs, t) && k < |m|
    ensures !Touched(fs, t, k) ==> Put(fs, t, m)[k] == m[k]
    ensures Touched(fs, t, k) ==> Put(fs, t, m)[k] == Put(fs, t, m')[k]
    decreases fs, 1
  {
    if i :| 0 <= i < |fs| && Inside(fs[i], k) {
      TouchedAt(fs, t, i, k);
      FrameAt(fs, t, m, m', i, k);
    } else {
      assert Outside(fs, k);
      PutOutside(fs, t, m);
    }
  }

  // ---------------------------------------------------------------- order of the fields

  ghost predicate SameField(f: Field, g: Field)
    decreases f
  {
    && f.name == g.name && f.offset == g.offset && f.size == g.size
    && (if f.kind.Object? then g.kind.Object? && Reordered(f.kind.sub, g.kind.sub) else f.kind == g.kind)
  }

  /** The same fields in another order, at every level. */
  ghost predicate Reordered(fs: seq<Field>, gs: seq<Field>)
    decreases fs
  {
    && |fs| == |gs| && Names(fs) == Names(gs)
    && (forall i, j | 0 <= i < |fs| && 0 <= j < |gs| && fs[i].name == gs[j].name :: SameField(fs[i], gs[j]))
  }

  lemma {:induction false} Partner(fs: seq<Field>, gs: seq<Field>, i: nat) returns (j: nat)
    requires Names(fs) == Names(gs) && i < |fs|
    ensures j < |gs| && fs[i].name == gs[j].name
  {
    assert fs[i].name in Names(fs);
    j :| 0 <= j < |gs| && gs[j].name == fs[i].name;
  }

  lemma {:induction false} SameExtent(f: Field, g: Field)
    requires SameField(f, g)
    ensures Extent(f) == Extent(g)
    decreases f
  {
    if f.kind.Object? {
      SameSpan(f.kind.sub, g.kind.sub);
    }
  }

  lemma {:induction false} SameSpan(fs: seq<Field>, gs: seq<Field>)
    requires Reordered(fs, gs)
    ensures Span(fs) == Span(gs)
    decreases fs
  {
    forall i | 0 <= i < |fs| ensures fs[i].offset + Extent(fs[i]) <= Span(gs) {
      var j := Partner(fs, gs, i);
      SameExtent(fs[i], gs[j]);
      SpanCovers(gs, j);
    }
    SpanBound(fs, Span(gs));
    forall j | 0 <= j < |gs| ensures gs[j].offset + Extent(gs[j]) <= Span(fs) {
      var i := Partner(gs, fs, j);
      SameExtent(fs[i], gs[j]);
      SpanCovers(fs, i);
    }
    SpanBound(gs, Span(fs));
  }

  lemma {:induction false} SameGetField(w: nat, f: Field, g: Field, s: seq<Byte>)
    requires SameField(f, g) && WfField(f) && WfField(g) && |s| == Extent(f)
    ensures |s| == Extent(g) && GetField(w, f, s) == GetField(w, g, s)
    decreases f
  {
    SameExtent(f, g);
    if f.kind.Object? {
      ReorderGet(w, f.kind.sub, g.kind.sub, s);
    }
  }

  lemma {:induction false} ReorderGetAt(w: nat, fs: seq<Field>, gs: seq<Field>, m: seq<Byte>, i: nat)
    requires Reordered(fs, gs) && Wf(fs) && Wf(gs) && Span(fs) == Span(gs) <= |m| && i < |fs|
    ensures fs[i].name in Get(w, fs, m) && fs[i].name in Get(w, gs, m)
    ensures Get(w, fs, m)[fs[i].name] == Get(w, gs, m)[fs[i].name]
    decreases fs, 0
  {
    var j := Partner(fs, gs, i);
    GetAt(w, fs, m, i);
    GetAt(w, gs, m, j);
    SameGetField(w, fs[i], gs[j], Slice(m, fs[i]));
  }

  /** The decoded table does not depend on the order of the field array. */
  lemma {:induction false} ReorderGet(w: nat, fs: seq<Field>, gs: seq<Field>, m: seq<Byte>)
    requires Reordered(fs, gs) && Wf(fs) && Wf(gs) && Span(fs) <= |m|
    ensures Span(gs) <= |m|
    ensures Get(w, fs, m) == Get(w, gs, m)
    decreases fs, 1
  {
    SameSpan(fs, gs);
    var a, b := Get(w, fs, m), Get(w, gs, m);
    GetKeys(w, fs, m);
    GetKeys(w, gs, m);
    forall x | x in a ensures x in b && a[x] == b[x] {
      var i :| 0 <= i < |fs| && fs[i].name == x;
      ReorderGetAt(w, fs, gs, m, i);
    }
    assert a.Keys == b.Keys;
  }

  lemma {:induction false} SameTypedField(f: Field, g: Field, v: Tree)
    requires SameField(f, g) && TypedField(f, v)
    ensures TypedField(g, v)
    decreases f
  {
    if f.kind.Object? {
      SameTyped(f.kind.sub, g.kind.sub, v.t);
    }
  }

  lemma {:induction false} SameTyped(fs: seq<Field>, gs: seq<Field>, t: Table)
    requires Reordered(fs, gs) && Typed(fs, t)
    ensures Typed(gs, t)
    decreases fs
  {
    forall j | 0 <= j < |gs| && gs[j].name in t ensures TypedField(gs[j], t[gs[j].name]) {
      var i := Partner(gs, fs, j);
      SameTypedField(fs[i], gs[j], t[gs[j].name]);
    }
  }

  lemma {:induction false} SamePutField(f: Field, g: Field, v: Tree, s: seq<Byte>)
    requires SameField(f, g) && WfField(f) && WfField(g) && |s| == Extent(f) && TypedField(f, v)
    ensures |s| == Extent(g) && TypedField(g, v) && PutField(f, v, s) == PutField(g, v, s)
    decreases f
  {
    SameExtent(f, g);
    SameTypedField(f, g, v);
    if f.kind.Object? {
      ReorderPut(f.kind.sub, g.kind.sub, v.t, s);
    }
  }

  lemma {:induction false} ReorderPutAt(fs: seq<Field>, gs: seq<Field>, t: Table, m: seq<Byte>, i: nat)
    requires Reordered(fs, gs) && Wf(fs) && Wf(gs) && Span(fs) == Span(gs) <= |m|
    requires Typed(fs, t) && Typed(gs, t) && i < |fs|
    ensures fs[i].offset + Extent(fs[i]) <= |m|
    ensures Slice(Put(fs, t, m), fs[i]) == Slice(Put(gs, t, m), fs[i])
    decreases fs, 0
  {
    var j := Partner(fs, gs, i);
    PutAt(fs, t, m, i);
    PutAt(gs, t, m, j);
    SameExtent(fs[i], gs[j]);
    if fs[i].name in t {
      SamePutField(fs[i], gs[j], t[fs[i].name], Slice(m, fs[i]));
    }
  }

  lemma {:induction false} ReorderOutside(fs: seq<Field>, gs: seq<Field>, k: nat)
    requires Reordered(fs, gs) && Outside(fs, k)
    ensures Outside(gs, k)
  {
    forall j | 0 <= j < |gs| ensures !Inside(gs[j], k) {
      var i := Partner(gs, fs, j);
      SameExtent(fs[i], gs[j]);
    }
  }

  /** The encoded memory does not depend on the order of the field array. */
  lemma {:induction false} ReorderPut(fs: seq<Field>, gs: seq<Field>, t: Table, m: seq<Byte>)
    requires Reordered(fs, gs) && Wf(fs) && Wf(gs) && Span(fs) <= |m| && Typed(fs, t)
    ensures Span(gs) <= |m| && Typed(gs, t)
    ensures Put(fs, t, m) == Put(gs, t, m)
    decreases fs, 1
  {
    SameSpan(fs, gs);
    SameTyped(fs, gs, t);
    var a, b := Put(fs, t, m), Put(gs, t, m);
    forall i | 0 <= i < |fs|
      ensures fs[i].offset + Extent(fs[i]) <= |m| && Slice(a, fs[i]) == Slice(b, fs[i])
    {
      ReorderPutAt(fs, gs, t, m, i);
    }
    PutOutside(fs, t, m);
    PutOutside(gs, t, m);
    forall k | 0 <= k < |m| && Outside(fs, k) ensures a[k] == b[k] {
      ReorderOutside(fs, gs, k);
    }
    SameByFields(fs, a, b);
  }

  lemma {:induction false} SameItself(f: Field)
    requires WfField(f)
    ensures SameField(f, f)
    decreases f
  {
    if f.kind.Object? {
      PermutationReorders(f.kind.sub, f.kind.sub);
    }
  }

  /** Every permutation of a well-formed array is the same array in another order. */
  lemma {:induction false} PermutationReorders(fs: seq<Field>, gs: seq<Field>)
    requires Wf(fs) && multiset(fs) == multiset(gs)
    ensures Reordered(fs, gs)
    decreases fs
  {
    assert |fs| == |multiset(fs)| == |multiset(gs)| == |gs|;
    forall j | 0 <= j < |gs| ensures gs[j] in fs {
      assert gs[j] in multiset(gs);
    }
    forall i | 0 <= i < |fs| ensures fs[i] in gs {
      assert fs[i] in multiset(fs);
    }
    NamesOf(fs, gs);
    NamesOf(gs, fs);
    forall i, j | 0 <= i < |fs| && 0 <= j < |gs| && fs[i].name == gs[j].name ensures SameField(fs[i], gs[j]) {
      var k :| 0 <= k < |fs| && fs[k] == gs[j];
      assert k == i;
      SameItself(fs[i]);
    }
  }

  lemma {:induction false} NamesOf(fs: seq<Field>, gs: seq<Field>)
    requires forall i | 0 <= i < |fs| :: fs[i] in gs
    ensures Names(fs) <= Names(gs)
  {
    forall x | x in Names(fs) ensures x in Names(gs) {
      var i :| 0 <= i < |fs| && fs[i].name == x;
      var j :| 0 <= j < |gs| && gs[j] == fs[i];
    }
  }
}
