/** chan_pub does not clear its scratch block. These laws say, for every content of the block,
    for which tables that shows: when a published message has all its strings terminated, and
    when what a reader decodes is decided by the published table alone. */
module ScratchLaws {
  import opened Bytes
  import opened Wrappers
  import opened Descriptor
  import opened Lens

  function Lookup(t: Table, name: string): Option<Tree>
  {
    if name in t then Some(t[name]) else None
  }

  predicate TypedOption(f: Field, o: Option<Tree>)
  {
    o.Some? ==> TypedField(f, o.value)
  }

  function SubTable(o: Option<Tree>): Table
    requires o.Some? ==> o.value.TObj?
  {
    if o.Some? then o.value.t else map[]
  }

  predicate SpelledField(f: Field, o: Option<Tree>)
    requires TypedOption(f, o)
    decreases f
  {
    match f.kind
    case Object(sub) => Typed(sub, SubTable(o)) && Spelled(sub, SubTable(o))
    case StrBuf => o.Some?
    case _ => true
  }

  /** Every described string is present, recursively. */
  predicate Spelled(fs: seq<Field>, t: Table)
    requires Typed(fs, t)
    decreases fs
  {
    forall i | 0 <= i < |fs| :: SpelledField(fs[i], Lookup(t, fs[i].name))
  }

  predicate CoveredField(f: Field, o: Option<Tree>)
    requires TypedOption(f, o)
    decreases f
  {
    match f.kind
    case Object(sub) => Typed(sub, SubTable(o)) && Covered(sub, SubTable(o))
    case StrBuf => o.Some?
    case _ => o.Some? || Extent(f) == 0
  }

  /** Every described leaf is present, recursively; only an integer of unsupported size, which
      has no bytes and always reads as 0, may be absent. */
  predicate Covered(fs: seq<Field>, t: Table)
    requires Typed(fs, t)
    decreases fs
  {
    forall i | 0 <= i < |fs| :: CoveredField(fs[i], Lookup(t, fs[i].name))
  }

  function AfterField(f: Field, o: Option<Tree>, s: seq<Byte>): (r: seq<Byte>)
    requires |s| == Extent(f) && TypedOption(f, o)
    ensures |r| == |s|
  {
    if o.Some? then PutField(f, o.value, s) else s
  }

  lemma {:induction false} AfterObject(f: Field, o: Option<Tree>, s: seq<Byte>)
    requires |s| == Extent(f) && f.kind.Object? && TypedOption(f, o)
    ensures Typed(f.kind.sub, SubTable(o)) && AfterField(f, o, s) == Put(f.kind.sub, SubTable(o), s)
  {
    PutEmpty(f.kind.sub, s);
  }

  lemma {:induction false} SliceAfterPut(fs: seq<Field>, t: Table, m: seq<Byte>, i: nat)
    requires Span(fs) <= |m| && Wf(fs) && Typed(fs, t) && i < |fs|
    ensures fs[i].offset + Extent(fs[i]) <= |m| && TypedOption(fs[i], Lookup(t, fs[i].name))
    ensures Slice(Put(fs, t, m), fs[i]) == AfterField(fs[i], Lookup(t, fs[i].name), Slice(m, fs[i]))
  {
    PutAt(fs, t, m, i);
  }

  // ---------------------------------------------------------------- covering is enough

  lemma {:induction false} SpelledTerminatesField(f: Field, o: Option<Tree>, s: seq<Byte>)
    requires |s| == Extent(f) && WfField(f) && TypedOption(f, o) && SpelledField(f, o)
    ensures TerminatedField(f, AfterField(f, o, s))
    decreases f
  {
    match f.kind
    case Object(sub) =>
      AfterObject(f, o, s);
      SpelledTerminates(sub, SubTable(o), s);
    case StrBuf => assert PadStr(o.value.s, |s|)[|s| - 1] == 0;
    case _ =>
  }

  lemma {:induction false} SpelledTerminates(fs: seq<Field>, t: Table, m: seq<Byte>)
    requires Span(fs) <= |m| && Wf(fs) && Typed(fs, t) && Spelled(fs, t)
    ensures Terminated(fs, Put(fs, t, m))
    decreases fs
  {
    forall i | 0 <= i < |fs|
      ensures fs[i].offset + Extent(fs[i]) <= |m| && TerminatedField(fs[i], Slice(Put(fs, t, m), fs[i]))
    {
      SliceAfterPut(fs, t, m, i);
      SpelledTerminatesField(fs[i], Lookup(t, fs[i].name), Slice(m, fs[i]));
    }
  }

  lemma {:induction false} CoveredSpelledField(f: Field, o: Option<Tree>)
    requires TypedOption(f, o) && CoveredField(f, o)
    ensures SpelledField(f, o)
    decreases f
  {
    if f.kind.Object? {
      CoveredSpelled(f.kind.sub, SubTable(o));
    }
  }

  lemma {:induction false} CoveredSpelled(fs: seq<Field>, t: Table)
    requires Typed(fs, t) && Covered(fs, t)
    ensures Spelled(fs, t)
    decreases fs
  {
    forall i | 0 <= i < |fs| ensures SpelledField(fs[i], Lookup(t, fs[i].name)) {
      CoveredSpelledField(fs[i], Lookup(t, fs[i].name));
    }
  }

  lemma {:induction false} CoveredDecidesField(w: nat, f: Field, o: Option<Tree>, s: seq<Byte>, s': seq<Byte>)
    requires |s| == |s'| == Extent(f) && WfField(f) && TypedOption(f, o) && CoveredField(f, o)
    ensures GetField(w, f, AfterField(f, o, s)) == GetField(w, f, AfterField(f, o, s'))
    decreases f
  {
    match f.kind
    case Object(sub) =>
      AfterObject(f, o, s);
      AfterObject(f, o, s');
      CoveredDecides(w, sub, SubTable(o), s, s');
    case StrBuf =>
    case Bool =>
    case _ =>
      if o.None? {
        assert s == s';
      }
  }

  lemma {:induction false} CoveredDecidesAt(w: nat, fs: seq<Field>, t: Table, m: seq<Byte>, m': seq<Byte>, i: nat)
    requires Span(fs) <= |m| == |m'| && Wf(fs) && Typed(fs, t) && Covered(fs, t) && i < |fs|
    ensures fs[i].name in Get(w, fs, Put(fs, t, m)) && fs[i].name in Get(w, fs, Put(fs, t, m'))
    ensures Get(w, fs, Put(fs, t, m))[fs[i].name] == Get(w, fs, Put(fs, t, m'))[fs[i].name]
    decreases fs, 0
  {
    SliceAfterPut(fs, t, m, i);
    SliceAfterPut(fs, t, m', i);
    GetAt(w, fs, Put(fs, t, m), i);
    GetAt(w, fs, Put(fs, t, m'), i);
    CoveredDecidesField(w, fs[i], Lookup(t, fs[i].name), Slice(m, fs[i]), Slice(m', fs[i]));
  }

  lemma {:induction false} CoveredDecides(w: nat, fs: seq<Field>, t: Table, m: seq<Byte>, m': seq<Byte>)
    requires Span(fs) <= |m| == |m'| && Wf(fs) && Typed(fs, t) && Covered(fs, t)
    ensures Get(w, fs, Put(fs, t, m)) == Get(w, fs, Put(fs, t, m'))
    decreases fs, 1
  {
    var a, b := Get(w, fs, Put(fs, t, m)), Get(w, fs, Put(fs, t, m'));
    GetKeys(w, fs, Put(fs, t, m));
    GetKeys(w, fs, Put(fs, t, m'));
    forall x | x in a ensures x in b && a[x] == b[x] {
      var i :| 0 <= i < |fs| && fs[i].name == x;
      CoveredDecidesAt(w, fs, t, m, m', i);
    }
    assert a.Keys == b.Keys;
  }

  // ---------------------------------------------------------------- and it is needed

  /** A block of ones has no terminator, and every number in it is odd. */
  lemma {:induction false} OddWraps(v: int, w: nat)
    requires w >= 1 && v % 256 == 1
    ensures WrapS(v, w) != 0
  {
    assert Pow256(1) == 256 * Pow256(0);
    WrapSModulo(v, w);
    if WrapS(v, w) == 0 {
      NarrowModulo(v, 0, 1, w);
    }
  }

  lemma {:induction false} OnesRead(n: nat, w: nat)
    requires n >= 1 && w >= 1
    ensures WrapS(FromLE(Fill(1, n)), w) != 0 && WrapS(AsSigned(FromLE(Fill(1, n)), n), w) != 0
  {
    var u := FromLE(Fill(1, n));
    assert Pow256(1) == 256 * Pow256(0);
    DivModUnique(u, 256, FromLE(Fill(1, n)[1..]), 1);
    OddWraps(u, w);
    AsSignedModulo(u, n);
    DivModUnique(u, Pow256(n), 0, u);
    NarrowModulo(AsSigned(u, n), u, 1, n);
    OddWraps(AsSigned(u, n), w);
  }

  lemma {:induction false} ZerosRead(n: nat, w: nat)
    requires w >= 1
    ensures FromLE(Fill(0, n)) == 0 && AsSigned(0, n) == 0 && WrapS(0, w) == 0
    decreases n
  {
    WrapSFix(0, w);
    if n > 0 {
      ZerosRead(n - 1, w);
      assert Fill(0, n)[1..] == Fill(0, n - 1);
    }
  }

  lemma {:induction false} SliceFill(b: Byte, n: nat, f: Field)
    requires f.offset + Extent(f) <= n
    ensures Slice(Fill(b, n), f) == Fill(b, Extent(f))
  {
  }

  lemma {:induction false} UnspelledField(f: Field, o: Option<Tree>)
    requires WfField(f) && TypedOption(f, o) && !SpelledField(f, o)
    ensures !TerminatedField(f, AfterField(f, o, Fill(1, Extent(f))))
    decreases f
  {
    var n := Extent(f);
    match f.kind
    case Object(sub) =>
      AfterObject(f, o, Fill(1, n));
      Unspelled(sub, SubTable(o), n);
    case StrBuf => assert forall k | 0 <= k < n :: Fill(1, n)[k] == 1;
  }

  /** An absent string keeps the block's bytes, and they may hold no terminator. */
  lemma {:induction false} Unspelled(fs: seq<Field>, t: Table, n: nat)
    requires Wf(fs) && Span(fs) <= n && Typed(fs, t) && !Spelled(fs, t)
    ensures !Terminated(fs, Put(fs, t, Fill(1, n)))
    decreases fs
  {
    var i :| 0 <= i < |fs| && !SpelledField(fs[i], Lookup(t, fs[i].name));
    SliceAfterPut(fs, t, Fill(1, n), i);
    SliceFill(1, n, fs[i]);
    UnspelledField(fs[i], Lookup(t, fs[i].name));
  }

  lemma {:induction false} UncoveredField(w: nat, f: Field, o: Option<Tree>)
    requires w >= 1 && WfField(f) && TypedOption(f, o) && !CoveredField(f, o) && SpelledField(f, o)
    ensures var n := Extent(f);
            GetField(w, f, AfterField(f, o, Fill(0, n))) != GetField(w, f, AfterField(f, o, Fill(1, n)))
    decreases f
  {
    var n := Extent(f);
    match f.kind
    case Object(sub) =>
      AfterObject(f, o, Fill(0, n));
      AfterObject(f, o, Fill(1, n));
      Uncovered(w, sub, SubTable(o), n);
    case Bool =>
    case _ =>
      ZerosRead(n, w);
      OnesRead(n, w);
  }

  /** An absent number or bool shows whatever the block held. */
  lemma {:induction false} Uncovered(w: nat, fs: seq<Field>, t: Table, n: nat)
    requires w >= 1 && Wf(fs) && Span(fs) <= n && Typed(fs, t) && !Covered(fs, t) && Spelled(fs, t)
    ensures Get(w, fs, Put(fs, t, Fill(0, n))) != Get(w, fs, Put(fs, t, Fill(1, n)))
    decreases fs
  {
    var i :| 0 <= i < |fs| && !CoveredField(fs[i], Lookup(t, fs[i].name));
    SliceAfterPut(fs, t, Fill(0, n), i);
    SliceAfterPut(fs, t, Fill(1, n), i);
    GetAt(w, fs, Put(fs, t, Fill(0, n)), i);
    GetAt(w, fs, Put(fs, t, Fill(1, n)), i);
    SliceFill(0, n, fs[i]);
    SliceFill(1, n, fs[i]);
    UncoveredField(w, fs[i], Lookup(t, fs[i].name));
  }

  // ---------------------------------------------------------------- the exact conditions

  /** Every string of a published message is terminated, whatever the scratch block held, if
      and only if the table has every described string. */
  lemma {:induction false} TerminatedIff(fs: seq<Field>, t: Table, n: nat)
    requires Wf(fs) && Span(fs) <= n && Typed(fs, t)
    ensures Spelled(fs, t) <==> forall m: seq<Byte> | |m| == n :: Terminated(fs, Put(fs, t, m))
  {
    if Spelled(fs, t) {
      forall m: seq<Byte> | |m| == n ensures Terminated(fs, Put(fs, t, m)) {
        SpelledTerminates(fs, t, m);
      }
    } else {
      Unspelled(fs, t, n);
    }
  }

  /** Two contents of the scratch block make no difference to the readers of the message. */
  predicate SameMessage(w: nat, fs: seq<Field>, t: Table, m: seq<Byte>, m': seq<Byte>)
    requires Span(fs) <= |m| == |m'| && Typed(fs, t)
  {
    && Terminated(fs, Put(fs, t, m)) && Terminated(fs, Put(fs, t, m'))
    && Get(w, fs, Put(fs, t, m)) == Get(w, fs, Put(fs, t, m'))
  }

  /** The table alone decides what is read, for every content of the scratch block, if and only
      if it covers the descriptor. */
  lemma {:induction false} TableDecidesIff(w: nat, fs: seq<Field>, t: Table, n: nat)
    requires w >= 1 && Wf(fs) && Span(fs) <= n && Typed(fs, t)
    ensures Covered(fs, t) <==>
            forall m: seq<Byte>, m': seq<Byte> | |m| == |m'| == n :: SameMessage(w, fs, t, m, m')
  {
    if Covered(fs, t) {
      CoveredSpelled(fs, t);
      forall m: seq<Byte>, m': seq<Byte> | |m| == |m'| == n ensures SameMessage(w, fs, t, m, m') {
        SpelledTerminates(fs, t, m);
        SpelledTerminates(fs, t, m');
        CoveredDecides(w, fs, t, m, m');
      }
    } else {
      assert !SameMessage(w, fs, t, Fill(0, n), Fill(1, n)) by {
        if Spelled(fs, t) {
          Uncovered(w, fs, t, n);
        } else {
          Unspelled(fs, t, n);
        }
      }
    }
  }

  /** A nested object that stores nothing, such as a channel given in its place, leaves every
      leaf below it uncovered. */
  lemma {:induction false} EmptyObjectUncovered(fs: seq<Field>, t: Table, i: nat)
    requires Typed(fs, t) && i < |fs| && fs[i].kind.Object? && Lookup(t, fs[i].name) == Some(TObj(map[]))
    requires Typed(fs[i].kind.sub, map[]) && !Covered(fs[i].kind.sub, map[])
    ensures !Covered(fs, t)
  {
    assert TypedField(fs[i], t[fs[i].name]);
    assert !CoveredField(fs[i], Lookup(t, fs[i].name));
  }

  /** The empty table covers a descriptor only if it has no leaf with bytes, at any depth. */
  lemma {:induction false} EmptyCoveredIff(fs: seq<Field>)
    requires Wf(fs)
    ensures Typed(fs, map[]) && (Covered(fs, map[]) <==> Bare(fs))
    decreases fs
  {
    forall i | 0 <= i < |fs|
      ensures CoveredField(fs[i], None) <==> (if fs[i].kind.Object? then Bare(fs[i].kind.sub) else Extent(fs[i]) == 0)
    {
      if fs[i].kind.Object? {
        EmptyCoveredIff(fs[i].kind.sub);
      }
    }
    assert forall i | 0 <= i < |fs| :: Lookup(map[], fs[i].name) == None;
  }

  /** No leaf of the descriptor has a byte. */
  predicate Bare(fs: seq<Field>)
    decreases fs
  {
    forall i | 0 <= i < |fs| :: if fs[i].kind.Object? then Bare(fs[i].kind.sub) else Extent(fs[i]) == 0
  }
}
