/** src/luaz_msg_descr.c as it runs: over byte memory and the Lua stack, one field after the
    other, proved against the pure codec of module Lens. */
module Codec {
  import opened Bytes
  import opened Descriptor
  import opened Lens
  import opened Reading
  import opened LuaState
  import opened TableView
  import opened StoredBytes

  // ---------------------------------------------------------------- C library pieces

  lemma {:induction false} CStrNext(s: seq<Byte>, k: nat)
    requires k <= |CStr(s)|
    ensures k < |CStr(s)| <==> k < |s| && s[k] != 0
    ensures k < |CStr(s)| ==> CStr(s)[k] == s[k]
  {
    assert CStr(s) == s[..|CStr(s)|];
  }

  /** The bytes at p up to, not including, the first NUL: what lua_pushstring copies. */
  method ReadCString(mem: seq<Byte>, p: nat) returns (s: seq<Byte>)
    requires p <= |mem| && 0 in mem[p..]
    ensures s == CStr(mem[p..])
  {
    hide CStr;
    s := [];
    ghost var c := CStr(mem[p..]);
    assert |c| != |mem| - p by {
      assert c == mem[p..][..|c|];
    }
    while mem[p + |s|] != 0
      invariant |s| <= |c| && s == c[..|s|]
      decreases |c| - |s|
    {
      CStrNext(mem[p..], |s|);
      s := s + [mem[p + |s|]];
    }
    CStrNext(mem[p..], |s|);
  }

  /** Assignment through a pointer to an integer or a bool. */
  method Store(mem: array<Byte>, p: nat, s: seq<Byte>)
    requires p + |s| <= mem.Length
    modifies mem
    ensures mem[..] == Splice(old(mem[..]), p, s)
  {
    forall k | 0 <= k < |s| {
      mem[p + k] := s[k];
    }
  }

  lemma {:induction false} PadSplice(m: seq<Byte>, m': seq<Byte>, p: nat, s: seq<Byte>, size: nat)
    requires 1 <= size && p + size <= |m| == |m'|
    requires var n := Min(|CStr(s)|, size - 1);
             forall j | 0 <= j < |m| ::
               m'[j] == if p <= j < p + n then CStr(s)[j - p] else if p + n <= j < p + size then 0 else m[j]
    ensures m' == Splice(m, p, PadStr(s, size))
  {
    hide CStr;
    var n := Min(|CStr(s)|, size - 1);
    assert PadStr(s, size) == CStr(s)[..n] + Fill(0, size - n);
  }

  /** strncpy(p, s, size - 1) followed by p[size - 1] = NUL. */
  method StoreString(mem: array<Byte>, p: nat, s: seq<Byte>, size: nat)
    requires 1 <= size && p + size <= mem.Length
    modifies mem
    ensures mem[..] == Splice(old(mem[..]), p, PadStr(s, size))
  {
    hide Splice, PadStr, CStr;
    ghost var c, m := CStr(s), mem[..];
    var k := 0;
    while k < size - 1 && k < |s| && s[k] != 0
      invariant k <= size - 1 && k <= |c|
      invariant forall j | 0 <= j < mem.Length :: mem[j] == if p <= j < p + k then c[j - p] else m[j]
    {
      CStrNext(s, k);
      mem[p + k] := s[k];
      k := k + 1;
    }
    CStrNext(s, k);
    ghost var n := k;
    assert n == Min(|c|, size - 1);
    while k < size - 1
      invariant n <= k <= size - 1
      invariant forall j | 0 <= j < mem.Length ::
                  mem[j] == if p <= j < p + n then c[j - p] else if p + n <= j < p + k then 0 else m[j]
    {
      mem[p + k] := 0;
      k := k + 1;
    }
    mem[p + size - 1] := 0;
    PadSplice(m, mem[..], p, s, size);
  }

  // ---------------------------------------------------------------- memory to Lua

  function LeafValue(x: Tree): Value
    requires !x.TObj?
  {
    match x
    case TInt(i) => Integer(i)
    case TStr(s) => String(s)
    case TBool(b) => Boolean(b)
  }

  lemma {:induction false} NoWord(w: nat)
    ensures WrapS(AsSigned(FromLE([]), 0), w) == 0 && WrapS(FromLE([]), w) == 0
  {
    WrapSFix(0, w);
  }

  /** Reading an integer field: sizes other than 1, 2, 4 and 8 read as 0. */
  method LoadInteger(w: nat, f: Field, mem: seq<Byte>, p: nat) returns (val: int)
    requires (f.kind.Int? || f.kind.UInt?) && p + Extent(f) <= |mem|
    ensures GetField(w, f, mem[p..p + Extent(f)]) == TInt(val)
  {
    val := 0;
    if f.size in {1, 2, 4, 8} {
      var bits := FromLE(mem[p..p + f.size]);
      if f.kind.Int? {
        val := WrapS(AsSigned(bits, f.size), w);
      } else {
        val := WrapS(bits, w);
      }
    } else {
      NoWord(w);
      assert mem[p..p + Extent(f)] == [];
    }
  }

  /** The value a non-object field pushes. */
  method PushLeaf(L: State, w: nat, f: Field, mem: seq<Byte>, p: nat)
    requires L.Valid() && !f.kind.Object? && p + Extent(f) <= |mem| && ReadableField(f, mem, p)
    modifies L
    ensures L.Valid() && L.tables == old(L.tables) && L.next == old(L.next)
    ensures L.stack == old(L.stack) + [LeafValue(ReadField(w, f, mem, p))]
    ensures L.peak == Max(old(L.peak), |old(L.stack)| + 1)
  {
    hide CStr;
    match f.kind
    case Int =>
      var val := LoadInteger(w, f, mem, p);
      L.Push(Integer(val));
    case UInt =>
      var val := LoadInteger(w, f, mem, p);
      L.Push(Integer(val));
    case StrBuf =>
      var text := ReadCString(mem, p);
      L.Push(String(text));
    case Bool =>
      L.Push(Boolean(mem[p] != 0));
  }

  function Max(a: int, b: int): int { if a < b then b else a }

  lemma {:induction false} ReadStep(w: nat, fs: seq<Field>, m: seq<Byte>, p: nat, i: nat)
    requires i < |fs| && p + Span(fs) <= |m|
    ensures p + Span(fs[..i]) <= |m| && p + Span(fs[..i + 1]) <= |m| && p + fs[i].offset + Extent(fs[i]) <= |m|
    ensures Read(w, fs[..i + 1], m, p) == Read(w, fs[..i], m, p)[fs[i].name := ReadField(w, fs[i], m, p + fs[i].offset)]
  {
    SpanPrefix(fs, i);
    SpanPrefix(fs, i + 1);
    SpanCovers(fs, i);
    assert fs[..i + 1][..i] == fs[..i];
  }

  /** The heap after one more key of table r is set. */
  function WithKey(h: Heap, r: nat, name: string, v: Value): Heap
    requires r in h
  {
    h[r := h[r][name := v]]
  }

  /** Laying out one more key leaves the keys before it in place. */
  lemma {:induction false} RepStep(h: Heap, h1: Heap, fs: seq<Field>, i: nat, r: nat, g: Table, v: Value, x: Tree)
    requires i < |fs| && Rep(h, fs[..i], r, g) && fs[i].name !in g
    requires GrowsExcept(h, h1, r) && r in h1 && h1[r] == h[r]
    requires RepField(h1, fs[i], r, v, x)
    ensures Rep(WithKey(h1, r, fs[i].name, v), fs[..i + 1], r, g[fs[i].name := x]) && v != Nil
  {
    var g', h' := g[fs[i].name := x], WithKey(h1, r, fs[i].name, v);
    forall j | 0 <= j < i + 1
      ensures fs[j].name in g' && RepField(h', fs[j], r, h'[r][fs[j].name], g'[fs[j].name])
    {
      if j < i {
        assert fs[..i][j] == fs[j];
        RepFieldFrame(h, h', fs[j], r, h[r][fs[j].name], g[fs[j].name], r);
      } else {
        RepFieldFrame(h1, h', fs[i], r, v, x, r);
      }
    }
  }

  /** The switch of lua_msg_descr_to_table: pushes the value of one field. */
  method PushField(L: State, w: nat, f: Field, mem: seq<Byte>, p: nat, ghost above: nat)
    requires L.Valid() && above < L.next && DistinctField(f) && p + Extent(f) <= |mem| && ReadableField(f, mem, p)
    modifies L
    ensures L.Valid()
    ensures |L.stack| == |old(L.stack)| + 1 && L.stack == old(L.stack) + [L.stack[|old(L.stack)|]]
    ensures RepField(L.tables, f, above, L.stack[|old(L.stack)|], ReadField(w, f, mem, p))
    ensures GrowsExcept(old(L.tables), L.tables, above)
    ensures above in old(L.tables) ==> above in L.tables && L.tables[above] == old(L.tables)[above]
    ensures old(L.next) <= L.next
    ensures L.peak == Max(old(L.peak), |old(L.stack)| + FieldDepth(f))
    decreases f
  {
    if f.kind.Object? {
      ToTable(L, w, f.kind.sub, mem, p);
    } else {
      PushLeaf(L, w, f, mem, p);
    }
  }

  lemma {:induction false} FieldFacts(fs: seq<Field>, i: nat)
    requires Wf(fs) && i < |fs|
    ensures WfField(fs[i]) && fs[i].offset + Extent(fs[i]) <= Span(fs)
    ensures FieldDepth(fs[i]) <= Depth(fs)
  {
    SpanCovers(fs, i);
    DepthCovers(fs, i);
  }

  /** What one round of the decoding loop relies on. */
  lemma {:induction false} KeyFacts(w: nat, fs: seq<Field>, i: nat, mem: seq<Byte>, base: nat)
    requires Distinct(fs) && i < |fs| && base + Span(fs) <= |mem| && Readable(fs, mem, base)
    ensures base + Span(fs[..i]) <= |mem| && fs[i].name !in Read(w, fs[..i], mem, base)
    ensures base + fs[i].offset + Extent(fs[i]) <= |mem| && DistinctField(fs[i])
    ensures ReadableField(fs[i], mem, base + fs[i].offset)
  {
    SpanPrefix(fs, i);
    ReadKeys(w, fs[..i], mem, base);
    NamesBefore(fs, i);
  }

  /** A field's name does not occur before it. */
  lemma {:induction false} NamesBefore(fs: seq<Field>, i: nat)
    requires Distinct(fs) && i < |fs|
    ensures fs[i].name !in Names(fs[..i])
  {
  }

  lemma {:induction false} RepEmpty(h: Heap, w: nat, fs: seq<Field>, r: nat, mem: seq<Byte>, base: nat)
    requires r in h && h[r] == map[] && base <= |mem|
    ensures base + Span(fs[..0]) <= |mem| && Rep(h, fs[..0], r, Read(w, fs[..0], mem, base))
  {
  }

  /** One round of the loop of lua_msg_descr_to_table, for the table r on top of the stack. */
  method DecodeKey(L: State, w: nat, fs: seq<Field>, i: nat, mem: seq<Byte>, base: nat, ghost r: nat)
    requires L.Valid() && Distinct(fs) && i < |fs| && base + Span(fs) <= |mem| && Readable(fs, mem, base)
    requires |L.stack| >= 1 && L.stack[|L.stack| - 1] == TableRef(r) && r < L.next
    requires base + Span(fs[..i]) <= |mem| && Rep(L.tables, fs[..i], r, Read(w, fs[..i], mem, base))
    modifies L
    ensures L.Valid() && base + Span(fs[..i + 1]) <= |mem|
    ensures L.stack == old(L.stack) && old(L.next) <= L.next
    ensures Rep(L.tables, fs[..i + 1], r, Read(w, fs[..i + 1], mem, base))
    ensures GrowsExcept(old(L.tables), L.tables, r)
    ensures L.peak == Max(old(L.peak), |old(L.stack)| + FieldDepth(fs[i]))
    decreases fs, 0
  {
    hide Distinct, DistinctField, Readable, ReadableField, Read, ReadField, Span, Extent, FieldDepth, RepField;
    var f := fs[i];
    KeyFacts(w, fs, i, mem, base);
    ReadStep(w, fs, mem, base, i);
    PushField(L, w, f, mem, base + f.offset, r);
    ghost var n, h1 := |old(L.stack)|, L.tables;
    ghost var v, x := L.stack[n], ReadField(w, f, mem, base + f.offset);
    RepStep(old(L.tables), h1, fs, i, r, Read(w, fs[..i], mem, base), v, x);
    assert L.stack[n - 1] == TableRef(r);
    L.SetField(f.name);
    assert L.tables == WithKey(h1, r, f.name, v);
  }

  /** lua_msg_descr_to_table: pushes exactly one new value, a fresh table that holds the
      decoded struct; everything below it on the stack and every older table is as before.
      Every string must meet a NUL before the memory ends, which need not be in its field. */
  method ToTable(L: State, w: nat, fs: seq<Field>, mem: seq<Byte>, base: nat)
    requires L.Valid() && Distinct(fs) && base + Span(fs) <= |mem| && Readable(fs, mem, base)
    modifies L
    ensures L.Valid()
    ensures L.stack == old(L.stack) + [TableRef(old(L.next))]
    ensures Rep(L.tables, fs, old(L.next), Read(w, fs, mem, base))
    ensures GrowsExcept(old(L.tables), L.tables, old(L.next)) && old(L.next) < L.next
    ensures L.peak == Max(old(L.peak), |old(L.stack)| + 1 + Depth(fs))
    decreases fs, 1
  {
    hide Distinct, DistinctField, Readable, ReadableField, Read, ReadField, Span, Extent, FieldDepth, Rep, RepField;
    ghost var r := L.next;
    L.NewTable();
    RepEmpty(L.tables, w, fs, r, mem, base);
    var i := 0;
    while i < |fs|
      invariant i <= |fs| && L.Valid() && base + Span(fs[..i]) <= |mem|
      invariant L.stack == old(L.stack) + [TableRef(r)] && r < L.next
      invariant Rep(L.tables, fs[..i], r, Read(w, fs[..i], mem, base))
      invariant GrowsExcept(old(L.tables), L.tables, r)
      invariant L.peak == Max(old(L.peak), |old(L.stack)| + 1 + Depth(fs[..i]))
    {
      DepthStep(fs, i);
      DecodeKey(L, w, fs, i, mem, base, r);
      i := i + 1;
    }
    assert fs[..i] == fs;
  }

  // ---------------------------------------------------------------- Lua to memory

  predicate OnlyWithin(a: seq<Byte>, b: seq<Byte>, lo: nat, hi: nat)
  {
    |a| == |b| && forall k | 0 <= k < |a| && !(lo <= k < hi) :: a[k] == b[k]
  }

  /** The bytes of field f once the Lua value v has been stored in it. */
  function Stored(c: Conversions, h: Heap, f: Field, v: Value, s: seq<Byte>): (r: seq<Byte>)
    requires ConformsField(h, f, v) && WfField(f) && |s| == Extent(f)
    ensures |r| == |s|
  {
    ViewTypedField(c, h, f, v);
    match ViewField(c, h, f, v)
    case None => s
    case Some(x) => PutField(f, x, s)
  }

  /** The whole memory once the Lua value v has been stored in field f at p. */
  function StoredAt(c: Conversions, h: Heap, f: Field, v: Value, mem: seq<Byte>, p: nat): seq<Byte>
    requires ConformsField(h, f, v) && WfField(f) && p + Extent(f) <= |mem|
  {
    Splice(mem, p, Stored(c, h, f, v, mem[p..p + Extent(f)]))
  }

  lemma {:induction false} OnlyWithinTrans(a: seq<Byte>, b: seq<Byte>, d: seq<Byte>, lo: nat, hi: nat, lo': nat, hi': nat)
    requires OnlyWithin(a, b, lo, hi) && OnlyWithin(b, d, lo', hi') && lo <= lo' && hi' <= hi
    ensures OnlyWithin(a, d, lo, hi)
  {
  }

  lemma {:induction false} OnlyWithinSame(a: seq<Byte>, lo: nat, hi: nat)
    ensures OnlyWithin(a, a, lo, hi)
  {
  }

  /** Writing an integer field: sizes other than 1, 2, 4 and 8 write nothing. */
  method StoreInteger(f: Field, val: int, mem: array<Byte>, p: nat)
    requires (f.kind.Int? || f.kind.UInt?) && p + Extent(f) <= mem.Length
    modifies mem
    ensures mem[..] == Splice(old(mem[..]), p, ToLE(val, Extent(f)))
  {
    if f.size in {1, 2, 4, 8} {
      Store(mem, p, ToLE(val, f.size));
    } else {
      assert Splice(mem[..], p, []) == mem[..];
    }
  }

  lemma {:induction false} SpliceSame(m: seq<Byte>, p: nat, n: nat)
    requires p + n <= |m|
    ensures Splice(m, p, m[p..p + n]) == m
  {
  }

  /** The cases of the switch that store a present, non-nested value. */
  method StoreLeaf(c: Conversions, f: Field, v: Value, mem: array<Byte>, p: nat, ghost h: Heap)
    requires !f.kind.Object? && WfField(f) && v != Nil && p + Extent(f) <= mem.Length
    modifies mem
    ensures mem[..] == StoredAt(c, h, f, v, old(mem[..]), p)
  {
    hide Splice, PadStr, ToLE;
    match f.kind
    case Int => StoreInteger(f, ToInteger(c, v), mem, p);
    case UInt => StoreInteger(f, ToInteger(c, v), mem, p);
    case StrBuf =>
      match ToText(c, v) {
        case Some(s) =>
          StoreString(mem, p, s, f.size);
        case None =>
          SpliceSame(mem[..], p, f.size);
      }
    case Bool =>
      Store(mem, p, [if Truthy(v) then 1 else 0]);
  }

  lemma {:induction false} StoredObject(c: Conversions, h: Heap, f: Field, v: Value, mem: seq<Byte>, p: nat)
    requires f.kind.Object? && v != Nil && Conforms(h, f.kind.sub, v) && WfField(f) && p + Extent(f) <= |mem|
    ensures Span(f.kind.sub) == Extent(f) && Typed(f.kind.sub, View(c, h, f.kind.sub, v))
    ensures StoredAt(c, h, f, v, mem, p)
            == Splice(mem, p, Put(f.kind.sub, View(c, h, f.kind.sub, v), mem[p..p + Extent(f)]))
  {
    ViewTyped(c, h, f.kind.sub, v);
  }

  lemma {:induction false} SpliceWithin(m: seq<Byte>, p: nat, s: seq<Byte>)
    requires p + |s| <= |m|
    ensures OnlyWithin(m, Splice(m, p, s), p, p + |s|)
  {
  }

  /** The switch of lua_msg_descr_from_table, for the value on top of the stack; false when a
      Lua error is raised on the way. */
  method StoreField(L: State, c: Conversions, f: Field, mem: array<Byte>, p: nat) returns (ok: bool)
    requires L.Valid() && WfField(f) && p + Extent(f) <= mem.Length
    requires |L.stack| >= 1 && L.stack[|L.stack| - 1] != Nil
    modifies L, mem
    ensures L.Valid() && L.tables == old(L.tables) && L.next == old(L.next)
    ensures ok <==> ConformsField(old(L.tables), f, old(L.stack)[|old(L.stack)| - 1])
    ensures ok ==> L.stack == old(L.stack)
    ensures ok ==>
              mem[..] == StoredAt(c, old(L.tables), f, old(L.stack)[|old(L.stack)| - 1], old(mem[..]), p)
    ensures OnlyWithin(old(mem[..]), mem[..], p, p + Extent(f))
    ensures L.peak <= Max(old(L.peak), |old(L.stack)| + (if f.kind.Object? then Depth(f.kind.sub) else 0))
    decreases f, 0
  {
    hide Depth, Wf, Put, Typed, View, Conforms, Encoded, Span, Stored, Splice, OnlyWithin, WfField, ConformsField;
    var nested := |L.stack|;
    ghost var v, m := L.stack[nested - 1], mem[..];
    FieldConforms(L.tables, f, v);
    if f.kind.Object? {
      if Conforms(L.tables, f.kind.sub, v) {
        StoredObject(c, L.tables, f, v, m, p);
      }
      ok := FromTable(L, c, f.kind.sub, mem, p, nested);
    } else {
      StoreLeaf(c, f, L.stack[nested - 1], mem, p, L.tables);
      SpliceWithin(m, p, Stored(c, L.tables, f, v, m[p..p + Extent(f)]));
      ok := true;
    }
  }

  lemma {:induction false} FieldConforms(h: Heap, f: Field, v: Value)
    requires WfField(f) && v != Nil
    ensures ConformsField(h, f, v) <==> f.kind.Object? ==> Conforms(h, f.kind.sub, v)
    ensures f.kind.Object? ==> Wf(f.kind.sub) && Span(f.kind.sub) == Extent(f)
  {
  }

  predicate KeyConforms(h: Heap, f: Field, v: Value)
  {
    Indexable(h, v) && ConformsField(h, f, Index(h, v, f.name))
  }

  /** An absent value stores nothing. */
  lemma {:induction false} StoredNil(c: Conversions, h: Heap, f: Field, mem: seq<Byte>, p: nat)
    requires WfField(f) && p + Extent(f) <= |mem|
    ensures ConformsField(h, f, Nil) && StoredAt(c, h, f, Nil, mem, p) == mem
  {
    SpliceSame(mem, p, Extent(f));
  }

  /** One round of the loop of lua_msg_descr_from_table, for the value at stack index idx. */
  method EncodeKey(L: State, c: Conversions, f: Field, mem: array<Byte>, base: nat, idx: nat) returns (ok: bool)
    requires L.Valid() && WfField(f) && base + f.offset + Extent(f) <= mem.Length
    requires 1 <= idx <= |L.stack|
    modifies L, mem
    ensures L.Valid() && L.tables == old(L.tables) && L.next == old(L.next)
    ensures ok <==> KeyConforms(old(L.tables), f, old(L.stack)[idx - 1])
    ensures ok ==> L.stack == old(L.stack)
    ensures ok ==>
              mem[..] == StoredAt(c, old(L.tables), f, Index(old(L.tables), old(L.stack)[idx - 1], f.name),
                                  old(mem[..]), base + f.offset)
    ensures OnlyWithin(old(mem[..]), mem[..], base + f.offset, base + f.offset + Extent(f))
    ensures L.peak <= Max(old(L.peak), |old(L.stack)| + FieldDepth(f))
    decreases f, 1
  {
    hide WfField, Extent, ConformsField, StoredAt, Index, Depth, OnlyWithin;
    OnlyWithinSame(mem[..], base + f.offset, base + f.offset + Extent(f));
    if !Indexable(L.tables, L.stack[idx - 1]) {
      return false;
    }
    L.GetField(idx, f.name);
    if L.stack[|L.stack| - 1] == Nil {
      L.Pop(1);
      ok := true;
      StoredNil(c, L.tables, f, mem[..], base + f.offset);
    } else {
      ok := StoreField(L, c, f, mem, base + f.offset);
      if ok {
        L.Pop(1);
      }
    }
  }

  lemma {:induction false} PutStep(fs: seq<Field>, t: Table, m: seq<Byte>, i: nat)
    requires i < |fs| && Span(fs) <= |m| && Typed(fs, t)
    ensures Span(fs[..i]) <= |m| && Span(fs[..i + 1]) <= |m| && fs[i].offset + Extent(fs[i]) <= |m|
    ensures Typed(fs[..i], t) && Typed(fs[..i + 1], t)
    ensures Put(fs[..i + 1], t, m) ==
            var r := Put(fs[..i], t, m);
            if fs[i].name !in t then r
            else Splice(r, fs[i].offset, PutField(fs[i], t[fs[i].name], Slice(r, fs[i])))
  {
    SpanPrefix(fs, i);
    SpanPrefix(fs, i + 1);
    SpanCovers(fs, i);
    assert fs[..i + 1][..i] == fs[..i];
  }

  lemma {:induction false} SpliceSplice(m: seq<Byte>, base: nat, r: seq<Byte>, off: nat, s: seq<Byte>)
    requires base + |r| <= |m| && off + |s| <= |r|
    ensures Splice(m, base, r)[base + off..base + off + |s|] == r[off..off + |s|]
    ensures Splice(Splice(m, base, r), base + off, s) == Splice(m, base, Splice(r, off, s))
  {
  }

  /** Storing a value in a struct inside the memory is storing it in the struct. */
  lemma {:induction false} StoredInside(c: Conversions, h: Heap, f: Field, v: Value, mem: seq<Byte>, base: nat, r: seq<Byte>)
    requires ConformsField(h, f, v) && WfField(f) && f.offset + Extent(f) <= |r| && base + |r| <= |mem|
    ensures StoredAt(c, h, f, v, Splice(mem, base, r), base + f.offset)
            == Splice(mem, base, Splice(r, f.offset, Stored(c, h, f, v, Slice(r, f))))
  {
    hide Splice, WfField, Extent, ConformsField, Stored;
    SpliceSplice(mem, base, r, f.offset, Slice(r, f));
    SpliceSplice(mem, base, r, f.offset, Stored(c, h, f, v, Slice(r, f)));
  }

  /** One step of the pure encoding is storing the value of one key. */
  lemma {:induction false} PutOfView(c: Conversions, h: Heap, fs: seq<Field>, v: Value, i: nat, m: seq<Byte>)
    requires Conforms(h, fs, v) && Wf(fs) && i < |fs| && Span(fs) <= |m|
    ensures var t, f := View(c, h, fs, v), fs[i];
            && Typed(fs, t) && WfField(f) && Indexable(h, v) && ConformsField(h, f, Index(h, v, f.name))
            && Span(fs[..i]) <= |m| && Span(fs[..i + 1]) <= |m| && Typed(fs[..i], t) && Typed(fs[..i + 1], t)
            && f.offset + Extent(f) <= |m|
            && var r := Put(fs[..i], t, m);
            && Put(fs[..i + 1], t, m) == Splice(r, f.offset, Stored(c, h, f, Index(h, v, f.name), Slice(r, f)))
  {
    var t, f := View(c, h, fs, v), fs[i];
    assert WfField(f) && Indexable(h, v) && ConformsField(h, f, Index(h, v, f.name));
    hide Put, Splice, Wf, WfField, Span, Extent, Typed, TypedField, View, ViewField, Conforms, ConformsField, Index, PutField;
    ViewTyped(c, h, fs, v);
    ViewAt(c, h, fs, v, i);
    PutStep(fs, t, m, i);
    SpliceSame(Put(fs[..i], t, m), f.offset, Extent(f));
  }

  /** What storing one key does to the struct, seen from the whole memory. */
  lemma {:induction false} EncodeStep(c: Conversions, h: Heap, fs: seq<Field>, v: Value, i: nat,
                                      mem: seq<Byte>, base: nat, m: seq<Byte>)
    requires Conforms(h, fs, v) && Wf(fs) && i < |fs| && Span(fs) <= |m| && base + |m| <= |mem|
    ensures var t, f := View(c, h, fs, v), fs[i];
            && Typed(fs, t) && WfField(f) && Indexable(h, v) && ConformsField(h, f, Index(h, v, f.name))
            && Span(fs[..i]) <= |m| && Span(fs[..i + 1]) <= |m| && Typed(fs[..i], t) && Typed(fs[..i + 1], t)
            && f.offset + Extent(f) <= |m|
            && StoredAt(c, h, f, Index(h, v, f.name), Splice(mem, base, Put(fs[..i], t, m)), base + f.offset)
               == Splice(mem, base, Put(fs[..i + 1], t, m))
  {
    hide Put, Splice, Wf, WfField, Span, Extent, Typed, View, Conforms, ConformsField, Index, Stored, StoredAt;
    PutOfView(c, h, fs, v, i, m);
    StoredInside(c, h, fs[i], Index(h, v, fs[i].name), mem, base, Put(fs[..i], View(c, h, fs, v), m));
  }

  lemma {:induction false} ConformsByKey(h: Heap, fs: seq<Field>, v: Value)
    ensures Conforms(h, fs, v) <==> forall i | 0 <= i < |fs| :: KeyConforms(h, fs[i], v)
  {
    if fs != [] && !Indexable(h, v) {
      assert !KeyConforms(h, fs[0], v);
    }
  }

  lemma {:induction false} PutNothing(fs: seq<Field>, t: Table, whole: seq<Byte>, base: nat, m: seq<Byte>)
    requires base + |m| <= |whole| && m == whole[base..base + |m|]
    ensures Span(fs[..0]) <= |m| && Typed(fs[..0], t)
    ensures whole == Splice(whole, base, Put(fs[..0], t, m))
  {
  }

  /** lua_msg_descr_from_table: overlays the table at stack index idx onto the struct at base
      and leaves the stack as it was; false stands for a raised Lua error. */
  method FromTable(L: State, c: Conversions, fs: seq<Field>, mem: array<Byte>, base: nat, idx: nat) returns (ok: bool)
    requires L.Valid() && Wf(fs) && base + Span(fs) <= mem.Length
    requires 1 <= idx <= |L.stack|
    modifies L, mem
    ensures L.Valid() && L.tables == old(L.tables) && L.next == old(L.next)
    ensures ok <==> Conforms(old(L.tables), fs, old(L.stack)[idx - 1])
    ensures ok ==> L.stack == old(L.stack)
    ensures ok ==> var t := View(c, old(L.tables), fs, old(L.stack)[idx - 1]);
              && Typed(fs, t)
              && mem[..] == Splice(old(mem[..]), base, Put(fs, t, old(mem[..])[base..base + Span(fs)]))
    // what that makes of each byte
    ensures ok ==> Encoded(c, old(L.tables), fs, old(L.stack)[idx - 1],
                           old(mem[..])[base..base + Span(fs)], mem[..][base..base + Span(fs)])
    ensures OnlyWithin(old(mem[..]), mem[..], base, base + Span(fs))
    ensures L.peak <= Max(old(L.peak), |old(L.stack)| + Depth(fs))
    decreases fs
  {
    hide Encoded, Wf, WfField, Typed, Put, Span, Extent, Depth, Conforms, ConformsField, View, StoredAt, KeyConforms, OnlyWithin, Splice, Index;
    ghost var h, v, n := L.tables, L.stack[idx - 1], Span(fs);
    ghost var whole, m := mem[..], mem[..][base..base + n];
    ghost var conforms := Conforms(h, fs, v);
    ghost var t := if conforms then View(c, h, fs, v) else map[];
    if conforms {
      ViewTyped(c, h, fs, v);
    }
    ConformsByKey(h, fs, v);
    PutNothing(fs, t, whole, base, m);
    assert OnlyWithin(whole, whole, base, base + n) by {
      OnlyWithinSame(whole, base, base + n);
    }
    var i := 0;
    while i < |fs|
      invariant i <= |fs| && L.Valid() && L.tables == h && L.next == old(L.next)
      invariant L.stack == old(L.stack)
      invariant forall j | 0 <= j < i :: KeyConforms(h, fs[j], v)
      invariant conforms ==> Span(fs[..i]) <= |m| && Typed(fs[..i], t)
      invariant conforms ==> mem[..] == Splice(whole, base, Put(fs[..i], t, m))
      invariant OnlyWithin(whole, mem[..], base, base + n)
      invariant L.peak <= Max(old(L.peak), |old(L.stack)| + Depth(fs))
    {
      FieldFacts(fs, i);
      if conforms {
        EncodeStep(c, h, fs, v, i, whole, base, m);
      }
      ghost var now := mem[..];
      ok := EncodeKey(L, c, fs[i], mem, base, idx);
      OnlyWithinTrans(whole, now, mem[..], base, base + n, base + fs[i].offset, base + fs[i].offset + Extent(fs[i]));
      if !ok {
        return;
      }
      i := i + 1;
    }
    ok := true;
    assert fs[..i] == fs;
    ConformsByKey(h, fs, v);
    ViewEncoded(c, h, fs, v, m);
    SpliceBack(whole, base, Put(fs, t, m));
  }

  lemma {:induction false} SpliceBack(m: seq<Byte>, p: nat, s: seq<Byte>)
    requires p + |s| <= |m|
    ensures Splice(m, p, s)[p..p + |s|] == s
  {
  }
}
