/** What encoding a Lua value leaves in memory, told byte by byte and by the kind of the value,
    without the typed view that the proofs go through. */
module StoredBytes {
  import opened Bytes
  import opened Wrappers
  import opened Descriptor
  import opened Lens
  import opened LuaState
  import opened TableView

  /** An integer field holds a number's two's complement. A string counts as the number Lua
      reads in it, and as 0 if it reads none, like every value of another kind. */
  predicate EncodedInteger(c: Conversions, v: Value, s': seq<Byte>)
  {
    && (v.Integer? ==> s' == ToLE(v.i, |s'|))
    && (v.String? && c.toInteger(v.s).Some? ==> s' == ToLE(c.toInteger(v.s).value, |s'|))
    && (v.String? && c.toInteger(v.s).None? ==> s' == Fill(0, |s'|))
    && (!v.Integer? && !v.String? ==> s' == Fill(0, |s'|))
  }

  /** A string buffer holds a string, or the text of a number, cut and padded; a value of
      another kind leaves it as it was. */
  predicate EncodedText(c: Conversions, v: Value, s: seq<Byte>, s': seq<Byte>)
    requires s != []
  {
    && (v.String? ==> s' == PadStr(v.s, |s|))
    && (v.Integer? ==> s' == PadStr(c.toText(v.i), |s|))
    && (!v.Integer? && !v.String? ==> s' == s)
  }

  /** The bytes s of field f become s' when v is the value of its key. */
  predicate EncodedField(c: Conversions, h: Heap, f: Field, v: Value, s: seq<Byte>, s': seq<Byte>)
    requires WfField(f) && |s| == |s'| == Extent(f)
    decreases f
  {
    if v == Nil then s' == s
    else
      match f.kind
      case Int => EncodedInteger(c, v, s')
      case UInt => EncodedInteger(c, v, s')
      case StrBuf => EncodedText(c, v, s, s')
      case Bool => (v == Boolean(false) ==> s' == [0]) && (v != Boolean(false) ==> s' == [1])
      case Object(sub) => Encoded(c, h, sub, v, s, s')
  }

  /** The struct m becomes m' when v is encoded: each field by the value of its own key, and
      bytes of no field stay as they are. */
  predicate Encoded(c: Conversions, h: Heap, fs: seq<Field>, v: Value, m: seq<Byte>, m': seq<Byte>)
    requires Wf(fs)
    decreases fs
  {
    && Span(fs) <= |m| == |m'|
    && (fs != [] ==> Indexable(h, v))
    && (forall i | 0 <= i < |fs| ::
          && fs[i].offset + Extent(fs[i]) <= |m|
          && EncodedField(c, h, fs[i], Index(h, v, fs[i].name), Slice(m, fs[i]), Slice(m', fs[i])))
    && (forall k | 0 <= k < |m| && Outside(fs, k) :: m'[k] == m[k])
  }

  // ---------------------------------------------------------------- what the encoder leaves

  lemma {:induction false} ViewLeafEncoded(c: Conversions, h: Heap, f: Field, v: Value, s: seq<Byte>)
    requires !f.kind.Object? && WfField(f) && |s| == Extent(f)
    ensures match ViewField(c, h, f, v)
            case None => EncodedField(c, h, f, v, s, s)
            case Some(x) => TypedField(f, x) && EncodedField(c, h, f, v, s, PutField(f, x, s))
  {
    hide PadStr, Fill, Pow256, ToLE;
    ToLESignFill(|s|);
  }

  lemma {:induction false} ViewFieldEncoded(c: Conversions, h: Heap, f: Field, v: Value, s: seq<Byte>)
    requires ConformsField(h, f, v) && WfField(f) && |s| == Extent(f)
    ensures match ViewField(c, h, f, v)
            case None => EncodedField(c, h, f, v, s, s)
            case Some(x) => TypedField(f, x) && EncodedField(c, h, f, v, s, PutField(f, x, s))
    decreases f
  {
    if !f.kind.Object? {
      ViewLeafEncoded(c, h, f, v, s);
    } else if v != Nil {
      ViewEncoded(c, h, f.kind.sub, v, s);
    }
  }

  /** Encoding the typed view of v is what the bytes say. */
  lemma {:induction false} ViewEncoded(c: Conversions, h: Heap, fs: seq<Field>, v: Value, m: seq<Byte>)
    requires Conforms(h, fs, v) && Wf(fs) && Span(fs) <= |m|
    ensures Typed(fs, View(c, h, fs, v)) && Encoded(c, h, fs, v, m, Put(fs, View(c, h, fs, v), m))
    decreases fs
  {
    ViewTyped(c, h, fs, v);
    var t := View(c, h, fs, v);
    PutOutside(fs, t, m);
    forall i | 0 <= i < |fs|
      ensures fs[i].offset + Extent(fs[i]) <= |m|
      ensures EncodedField(c, h, fs[i], Index(h, v, fs[i].name), Slice(m, fs[i]), Slice(Put(fs, t, m), fs[i]))
    {
      PutAt(fs, t, m, i);
      ViewAt(c, h, fs, v, i);
      ViewFieldEncoded(c, h, fs[i], Index(h, v, fs[i].name), Slice(m, fs[i]));
    }
  }

  lemma {:induction false} EncodedFieldOnce(c: Conversions, h: Heap, f: Field, v: Value, s: seq<Byte>, a: seq<Byte>, b: seq<Byte>)
    requires WfField(f) && |s| == |a| == |b| == Extent(f)
    requires EncodedField(c, h, f, v, s, a) && EncodedField(c, h, f, v, s, b)
    ensures a == b
    decreases f
  {
    if f.kind.Object? && v != Nil {
      EncodedOnce(c, h, f.kind.sub, v, s, a, b);
    }
  }

  lemma {:induction false} EncodedAt(c: Conversions, h: Heap, fs: seq<Field>, v: Value, m: seq<Byte>, m': seq<Byte>, i: nat)
    requires Wf(fs) && Encoded(c, h, fs, v, m, m') && i < |fs|
    ensures Indexable(h, v) && WfField(fs[i]) && fs[i].offset + Extent(fs[i]) <= |m| == |m'|
    ensures EncodedField(c, h, fs[i], Index(h, v, fs[i].name), Slice(m, fs[i]), Slice(m', fs[i]))
  {
    hide EncodedField, Index;
  }

  lemma {:induction false} EncodedOnceAt(c: Conversions, h: Heap, fs: seq<Field>, v: Value, m: seq<Byte>,
                                         a: seq<Byte>, b: seq<Byte>, i: nat, k: nat)
    requires Wf(fs) && Encoded(c, h, fs, v, m, a) && Encoded(c, h, fs, v, m, b)
    requires k < |m| && i < |fs| && Inside(fs[i], k)
    ensures |a| == |b| == |m| && a[k] == b[k]
    decreases fs, 0
  {
    hide Encoded, EncodedField, Wf, Index;
    EncodedAt(c, h, fs, v, m, a, i);
    EncodedAt(c, h, fs, v, m, b, i);
    var f := fs[i];
    EncodedFieldOnce(c, h, f, Index(h, v, f.name), Slice(m, f), Slice(a, f), Slice(b, f));
    assert Slice(a, f)[k - f.offset] == Slice(b, f)[k - f.offset];
  }

  /** The memory before, the heap and the value decide every byte. */
  lemma {:induction false} EncodedOnce(c: Conversions, h: Heap, fs: seq<Field>, v: Value, m: seq<Byte>, a: seq<Byte>, b: seq<Byte>)
    requires Wf(fs) && Encoded(c, h, fs, v, m, a) && Encoded(c, h, fs, v, m, b)
    ensures a == b
    decreases fs, 1
  {
    hide Wf, WfField, EncodedField, Index, Inside, Extent, Span;
    forall k | 0 <= k < |m| ensures a[k] == b[k] {
      if i :| 0 <= i < |fs| && Inside(fs[i], k) {
        EncodedOnceAt(c, h, fs, v, m, a, b, i, k);
      } else {
        assert Outside(fs, k);
      }
    }
  }

  // ---------------------------------------------------------------- what can be indexed

  /** Tables are indexed directly, channels, observers and strings through the table of their
      methods if it has been loaded, and no other value can be indexed. */
  lemma {:induction false} IndexKinds(h: Heap, id: nat, k: nat, s: seq<Byte>, b: bool, i: int, name: string)
    ensures Indexable(h, TableRef(id)) <==> id in h
    ensures id in h && name in h[id] ==> Index(h, TableRef(id), name) == h[id][name]
    ensures id in h && name !in h[id] ==> Index(h, TableRef(id), name) == Nil
    ensures Indexable(h, ChannelRef(k)) <==> 0 in h
    ensures 0 in h ==> Index(h, ChannelRef(k), name) == Index(h, TableRef(0), name)
    ensures Indexable(h, ObserverRef(k)) <==> 1 in h
    ensures 1 in h ==> Index(h, ObserverRef(k), name) == Index(h, TableRef(1), name)
    ensures Indexable(h, String(s)) <==> 2 in h
    ensures 2 in h ==> Index(h, String(s), name) == Index(h, TableRef(2), name)
    ensures !Indexable(h, Nil) && !Indexable(h, Boolean(b)) && !Indexable(h, Integer(i)) && !Indexable(h, Function(k))
  {
  }
}
