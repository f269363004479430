/** Where the 16-bit offsets and 8-bit sizes of generated descriptors bite, exactly. */
module PbWidths {
  import opened Bytes
  import opened Descriptor
  import opened Lens
  import opened LensLaws
  import opened PbSchema
  import opened Reading

  // ---------------------------------------------------------------- encoding

  /** Encoding any value of a member through its generated descriptor gives the same struct as
      encoding it by its protobuf type, whatever the struct held. */
  ghost predicate EncodesDirectly(schema: Schema, k: nat, m: Member)
    requires ValidSchema(schema) && k < |schema| && ValidMember(schema, k, m)
  {
    forall v: Tree, r: seq<Byte> | MemberTyped(schema, k, m, v) && |r| == schema[k].size ::
      EncodesOne(schema, k, m, v, r)
  }

  /** A message none of whose members, at any depth, is a value: there is nothing to encode. */
  predicate Valueless(schema: Schema, k: nat, m: Member)
    requires ValidSchema(schema) && k < |schema| && ValidMember(schema, k, m)
    decreases k, 0
  {
    m.ltype.MESSAGE? && ValuelessStruct(schema, m.ltype.child)
  }

  predicate ValuelessStruct(schema: Schema, k: nat)
    requires ValidSchema(schema) && k < |schema|
    decreases k, 1
  {
    forall i | 0 <= i < |schema[k].members| ::
      ValidMember(schema, k, schema[k].members[i]) && Valueless(schema, k, schema[k].members[i])
  }

  lemma {:induction false} ValuelessPut(schema: Schema, k: nat, m: Member, v: Tree, s: seq<Byte>)
    requires ValidSchema(schema) && k < |schema| && ValidMember(schema, k, m) && Valueless(schema, k, m)
    requires MemberTyped(schema, k, m, v) && |s| == m.size
    ensures MemberPut(schema, k, m, v, s) == s
    decreases k, 0
  {
    ValuelessStructPut(schema, m.ltype.child, |schema[m.ltype.child].members|, v.t, s);
  }

  lemma {:induction false} ValuelessStructPut(schema: Schema, k: nat, n: nat, t: Table, s: seq<Byte>)
    requires ValidSchema(schema) && k < |schema| && ValuelessStruct(schema, k) && n <= |schema[k].members|
    requires StructTyped(schema, k, t) && |s| == schema[k].size
    ensures StructPut(schema, k, n, t, s) == s
    decreases k, n + 1
  {
    if n > 0 {
      var m := schema[k].members[n - 1];
      MemberTypedLast(schema, k, n - 1, t);
      assert Valueless(schema, k, m) && m.offset + m.size <= |s|;
      hide ValidSchema, ValidMember, Valueless, ValuelessStruct, StructTyped, MemberTyped, MemberPut, Splice;
      ValuelessStructPut(schema, k, n - 1, t, s);
      SpliceSelf(s, m.offset, m.size);
      if m.name in t {
        ValuelessPut(schema, k, m, t[m.name], s[m.offset..m.offset + m.size]);
      }
    }
  }

  lemma {:induction false} StructPutNone(schema: Schema, k: nat, t: Table, s: seq<Byte>)
    requires ValidSchema(schema) && k < |schema| && |s| == schema[k].size && StructTyped(schema, k, t)
    ensures StructPut(schema, k, 0, t, s) == s
  {
  }

  lemma {:induction false} StructPutLast(schema: Schema, k: nat, n: nat, t: Table, s: seq<Byte>)
    requires ValidSchema(schema) && k < |schema| && 0 < n <= |schema[k].members| && |s| == schema[k].size
    requires StructTyped(schema, k, t)
    ensures var m, r := schema[k].members[n - 1], StructPut(schema, k, n - 1, t, s);
            && ValidMember(schema, k, m) && m.offset + m.size <= |r|
            && (m.name in t ==> MemberTyped(schema, k, m, t[m.name]))
            && StructPut(schema, k, n, t, s) ==
               if m.name !in t then r
               else Splice(r, m.offset, MemberPut(schema, k, m, t[m.name], r[m.offset..m.offset + m.size]))
  {
    MemberTypedLast(schema, k, n - 1, t);
    assert ValidStruct(schema, k);
    hide ValidSchema, MemberTyped, StructTyped, MemberPut, Splice;
  }

  /** A table with one key changes that member alone. */
  lemma {:induction false} StructPutOne(schema: Schema, k: nat, n: nat, j: nat, t: Table, s: seq<Byte>)
    requires ValidSchema(schema) && k < |schema| && n <= |schema[k].members| && j < |schema[k].members|
    requires |s| == schema[k].size && StructTyped(schema, k, t) && t.Keys == {schema[k].members[j].name}
    ensures var m := schema[k].members[j];
            && ValidMember(schema, k, m) && MemberTyped(schema, k, m, t[m.name]) && m.offset + m.size <= |s|
            && StructPut(schema, k, n, t, s) ==
               if n <= j then s
               else Splice(s, m.offset, MemberPut(schema, k, m, t[m.name], s[m.offset..m.offset + m.size]))
    decreases n
  {
    hide ValidSchema, ValidMember, ValidStruct, MemberTyped, StructTyped, MemberPut, Splice, StructPut;
    StructPutLast(schema, k, j + 1, t, s);
    if n == 0 {
      StructPutNone(schema, k, t, s);
    } else {
      StructPutOne(schema, k, n - 1, j, t, s);
      StructPutLast(schema, k, n, t, s);
      if n - 1 != j {
        NamesApart(schema, k, n - 1, j);
        assert schema[k].members[n - 1].name !in t.Keys;
      }
    }
  }

  lemma {:induction false} NamesApart(schema: Schema, k: nat, i: nat, j: nat)
    requires ValidSchema(schema) && k < |schema| && i < |schema[k].members| && j < |schema[k].members| && i != j
    ensures schema[k].members[i].name != schema[k].members[j].name
  {
    assert ValidStruct(schema, k);
    assert Apart(schema[k].members[if i < j then i else j], schema[k].members[if i < j then j else i]);
  }

  lemma {:induction false} OneTyped(schema: Schema, k: nat, j: nat, v: Tree)
    requires ValidSchema(schema) && k < |schema| && j < |schema[k].members|
    requires ValidMember(schema, k, schema[k].members[j]) && MemberTyped(schema, k, schema[k].members[j], v)
    ensures StructTyped(schema, k, map[schema[k].members[j].name := v])
  {
    var t := map[schema[k].members[j].name := v];
    forall i | 0 <= i < |schema[k].members| && schema[k].members[i].name in t
      ensures ValidMember(schema, k, schema[k].members[i])
              && MemberTyped(schema, k, schema[k].members[i], t[schema[k].members[i].name])
    {
      if i != j {
        NamesApart(schema, k, i, j);
      }
    }
  }

  const FILLER: Byte := 7

  /** Every member with a value somewhere has a value that shows. */
  lemma {:induction false} SomeChange(schema: Schema, k: nat, m: Member) returns (v: Tree)
    requires ValidSchema(schema) && k < |schema| && ValidMember(schema, k, m) && !Valueless(schema, k, m)
    ensures MemberTyped(schema, k, m, v) && MemberPut(schema, k, m, v, Fill(FILLER, m.size)) != Fill(FILLER, m.size)
    decreases k, 0
  {
    var filler := Fill(FILLER, m.size);
    if SignedType(m.ltype) || UnsignedType(m.ltype) {
      v := TInt(0);
      ToLESignFill(m.size);
      assert MemberPut(schema, k, m, v, filler)[0] == 0 && filler[0] == FILLER;
    } else if m.ltype == BOOL {
      v := TBool(false);
      assert MemberPut(schema, k, m, v, filler)[0] == 0 && filler[0] == FILLER;
    } else if m.ltype == STRING {
      v := TStr([]);
      assert MemberPut(schema, k, m, v, filler)[0] == 0 && filler[0] == FILLER;
    } else {
      v := SomeChangeInside(schema, m.ltype.child);
    }
  }

  lemma {:induction false} FillerSlice(n: nat, p: nat, k: nat)
    requires p + k <= n
    ensures Fill(FILLER, n)[p..p + k] == Fill(FILLER, k)
  {
  }

  lemma {:induction false} SpliceShows(s: seq<Byte>, p: nat, part: seq<Byte>)
    requires p + |part| <= |s| && part != s[p..p + |part|]
    ensures Splice(s, p, part) != s
  {
    var k :| 0 <= k < |part| && part[k] != s[p..p + |part|][k];
    assert Splice(s, p, part)[p + k] == part[k];
  }

  lemma {:induction false} SomeChangeInside(schema: Schema, k: nat) returns (v: Tree)
    requires ValidSchema(schema) && k < |schema| && !ValuelessStruct(schema, k)
    ensures v.TObj? && StructTyped(schema, k, v.t)
    ensures StructPut(schema, k, |schema[k].members|, v.t, Fill(FILLER, schema[k].size)) != Fill(FILLER, schema[k].size)
    decreases k, 1
  {
    assert ValidStruct(schema, k);
    var j :| 0 <= j < |schema[k].members| && !Valueless(schema, k, schema[k].members[j]);
    var m, s := schema[k].members[j], Fill(FILLER, schema[k].size);
    var u := SomeChange(schema, k, m);
    v := TObj(map[m.name := u]);
    hide ValidSchema, ValidStruct, MemberTyped, StructTyped, MemberPut, StructPut, Valueless, ValuelessStruct, Splice;
    OneTyped(schema, k, j, u);
    StructPutOne(schema, k, |schema[k].members|, j, v.t, s);
    FillerSlice(schema[k].size, m.offset, m.size);
    SpliceShows(s, m.offset, MemberPut(schema, k, m, u, Fill(FILLER, m.size)));
  }

  lemma {:induction false} FillerEnd(n: nat)
    ensures Fill(FILLER, n + 1) == Fill(FILLER, n) + [FILLER]
  {
  }

  lemma {:induction false} LastChange(z: seq<Byte>) returns (p: nat)
    requires z != Fill(FILLER, |z|)
    ensures p < |z| && z[p] != FILLER && forall q | p < q < |z| :: z[q] == FILLER
  {
    if z[|z| - 1] != FILLER {
      p := |z| - 1;
    } else {
      var init := z[..|z| - 1];
      FillerEnd(|init|);
      assert z == init + [FILLER];
      p := LastChange(init);
    }
  }

  /** The same bytes written at two different places of a filled struct make two structs; so do
      longer bytes and shorter ones that start far before them. */
  lemma {:induction false} PlacesDiffer(n: nat, z: seq<Byte>, at: nat, y: seq<Byte>, before: nat)
    requires at + |z| <= n && before + |y| <= n && z != Fill(FILLER, |z|)
    requires before < at
    requires before + |y| <= at || (|y| <= |z| && y == z[..|y|] && forall q | |y| <= q < |z| :: z[q] == FILLER)
    ensures Splice(Fill(FILLER, n), at, z) != Splice(Fill(FILLER, n), before, y)
  {
    var p := LastChange(z);
    assert Splice(Fill(FILLER, n), at, z)[at + p] == z[p];
    assert Splice(Fill(FILLER, n), before, y)[at + p] == FILLER;
  }

  lemma {:induction false} PutFieldPrefix(schema: Schema, k: nat, m: Member, v: Tree)
    requires ValidSchema(schema) && FitsTo(schema, k) && k < |schema| && StringFits(m)
    requires ValidMember(schema, k, m) && MemberTyped(schema, k, m, v)
    ensures var f, s := GenField(schema, k, m), Fill(FILLER, m.size);
            && TypedField(f, v) && Extent(f) <= m.size
            && var y, z := PutField(f, v, Fill(FILLER, Extent(f))), MemberPut(schema, k, m, v, s);
            && |y| <= |z| && y == z[..|y|] && forall q | |y| <= q < |z| :: z[q] == FILLER
  {
    hide ValidSchema, FitsTo, StringFits, ValidMember, GenField, MemberPut, PutField, Extent, TypedField, MemberTyped;
    var f, s := GenField(schema, k, m), Fill(FILLER, m.size);
    GeneratedPutMember(schema, k, m, v, s);
    assert s[..Extent(f)] == Fill(FILLER, Extent(f));
  }

  lemma {:induction false} GenPlace(schema: Schema, k: nat, m: Member)
    requires ValidSchema(schema) && OffsetsTo(schema, k) && k < |schema| && ValidMember(schema, k, m)
    ensures var f := GenField(schema, k, m);
            && m.offset + m.size <= schema[k].size && f.offset == m.offset % 0x1_0000 && f.offset + Extent(f) <= schema[k].size
            && Extent(f) <= m.size && (!StringFits(m) ==> f.kind == StrBuf && Extent(f) < 0x100)
  {
    GenRoom(schema, k, m);
  }

  /** What the two encodings make of a filled struct, for a value that shows. */
  lemma {:induction false} FarPieces(schema: Schema, k: nat, m: Member, v: Tree, r: seq<Byte>)
    requires ValidSchema(schema) && FitsTo(schema, k) && k < |schema| && ValidMember(schema, k, m)
    requires m.offset >= 0x1_0000 && MemberTyped(schema, k, m, v) && r == Fill(FILLER, schema[k].size)
    requires MemberPut(schema, k, m, v, Fill(FILLER, m.size)) != Fill(FILLER, m.size)
    requires TypedField(GenField(schema, k, m), v)
    ensures !EncodesOne(schema, k, m, v, r)
  {
    hide ValidSchema, OffsetsTo, StringsFit, ValidMember, GenField, MemberPut, PutField, Extent, TypedField, MemberTyped, Splice;
    var f, n := GenField(schema, k, m), schema[k].size;
    GenPlace(schema, k, m);
    FillerSlice(n, m.offset, m.size);
    FillerSlice(n, f.offset, Extent(f));
    assert Slice(r, f) == Fill(FILLER, Extent(f));
    hide Slice;
    if StringFits(m) {
      PutFieldPrefix(schema, k, m, v);
    }
    PlacesDiffer(n, MemberPut(schema, k, m, v, Fill(FILLER, m.size)), m.offset, PutField(f, v, Slice(r, f)), f.offset);
  }

  /** A member behind the first 64 KiB is encoded somewhere else. */
  lemma {:induction false} FarDiffers(schema: Schema, k: nat, m: Member)
    requires ValidSchema(schema) && FitsTo(schema, k) && k < |schema| && ValidMember(schema, k, m)
    requires m.offset >= 0x1_0000 && !Valueless(schema, k, m)
    ensures !EncodesDirectly(schema, k, m)
  {
    hide ValidSchema, FitsTo, ValidMember, GenField, MemberPut, PutField, Extent, TypedField, MemberTyped, Valueless, Splice;
    var v := SomeChange(schema, k, m);
    var r := Fill(FILLER, schema[k].size);
    if TypedField(GenField(schema, k, m), v) {
      FarPieces(schema, k, m, v, r);
    }
    assert !EncodesOne(schema, k, m, v, r);
  }

  lemma {:induction false} SpliceSelf(r: seq<Byte>, p: nat, n: nat)
    requires p + n <= |r|
    ensures Splice(r, p, r[p..p + n]) == r
  {
  }

  lemma {:induction false} SpliceNothing(s: seq<Byte>, y: seq<Byte>)
    requires |y| <= |s| && Splice(s, 0, y) == s
    ensures y == s[..|y|]
  {
    assert forall k | 0 <= k < |y| :: Splice(s, 0, y)[k] == y[k];
  }

  /** A field that writes nothing into some block that starts with x writes nothing into x. */
  lemma {:induction false} ValuelessField(schema: Schema, k: nat, m: Member, v: Tree, x: seq<Byte>)
    requires ValidSchema(schema) && FitsTo(schema, k) && k < |schema| && ValidMember(schema, k, m)
    requires Valueless(schema, k, m) && MemberTyped(schema, k, m, v) && |x| == Extent(GenField(schema, k, m)) <= m.size
    ensures TypedField(GenField(schema, k, m), v) && PutField(GenField(schema, k, m), v, x) == x
  {
    assert StringFits(m);
    hide ValidSchema, OffsetsTo, StringsFit, ValidMember, GenField, MemberPut, PutField, Extent, TypedField, MemberTyped,
      Valueless, Splice;
    var s := x + Fill(0, m.size - |x|);
    assert s[..|x|] == x;
    ValuelessPut(schema, k, m, v, s);
    GeneratedPutMember(schema, k, m, v, s);
    SpliceNothing(s, PutField(GenField(schema, k, m), v, x));
  }

  lemma {:induction false} ValuelessEncodes(schema: Schema, k: nat, m: Member, v: Tree, r: seq<Byte>)
    requires ValidSchema(schema) && FitsTo(schema, k) && k < |schema| && ValidMember(schema, k, m)
    requires Valueless(schema, k, m) && MemberTyped(schema, k, m, v) && |r| == schema[k].size
    ensures EncodesOne(schema, k, m, v, r)
  {
    hide ValidSchema, OffsetsTo, StringsFit, ValidMember, GenField, MemberPut, PutField, Extent, TypedField, MemberTyped,
      Valueless, Splice;
    GenPlace(schema, k, m);
    var f := GenField(schema, k, m);
    ValuelessField(schema, k, m, v, Slice(r, f));
    ValuelessPut(schema, k, m, v, r[m.offset..m.offset + m.size]);
    SpliceSelf(r, f.offset, Extent(f));
    SpliceSelf(r, m.offset, m.size);
  }

  lemma {:induction false} StringMember(schema: Schema, k: nat, m: Member, v: Tree, s: seq<Byte>)
    requires ValidSchema(schema) && k < |schema| && ValidMember(schema, k, m)
    requires m.ltype == STRING && m.offset < 0x1_0000 && |s| == m.size
    ensures GenField(schema, k, m) == Field(m.name, StrBuf, m.offset, m.size % 0x100)
    ensures m.size >= 1 && m.offset + m.size <= schema[k].size
    ensures MemberTyped(schema, k, m, v) <==> v.TStr?
    ensures v.TStr? ==> MemberPut(schema, k, m, v, s) == PadStr(v.s, m.size)
  {
  }

  /** A buffer filled to the brim tells any two sizes apart. */
  lemma {:induction false} PadWidths(n: nat, size: nat)
    requires 1 <= n < size
    ensures PadStr(Fill(1, size - 1), size)[n - 1] == 1
    ensures PadStr(Fill(1, size - 1), n)[n - 1] == 0
  {
    CStrWhole(Fill(1, size - 1));
  }

  lemma {:induction false} WideStringDiffers(schema: Schema, k: nat, m: Member)
    requires ValidSchema(schema) && k < |schema| && ValidMember(schema, k, m)
    requires m.ltype == STRING && m.offset < 0x1_0000 && m.size >= 0x100
    ensures !EncodesDirectly(schema, k, m)
  {
    hide ValidSchema, ValidMember, GenField, MemberPut, MemberTyped, PadStr;
    var f := GenField(schema, k, m);
    var v, r := TStr(Fill(1, m.size - 1)), Fill(1, schema[k].size);
    StringMember(schema, k, m, v, Fill(1, m.size));
    var n := f.size;
    if n >= 1 {
      StringMember(schema, k, m, v, r[m.offset..m.offset + m.size]);
      PadWidths(n, m.size);
      var p := m.offset + n - 1;
      assert Splice(r, m.offset, MemberPut(schema, k, m, v, r[m.offset..m.offset + m.size]))[p] == 1;
      assert Splice(r, f.offset, PutField(f, v, Slice(r, f)))[p] == 0;
    }
    assert !EncodesOne(schema, k, m, v, r);
  }

  /** Given messages that fit inside it, a member is encoded through its generated descriptor as
      it should be, for every value and every struct, if and only if its offset is below 65536
      and, for a string, its buffer smaller than 256 bytes, or it has no value to encode. */
  lemma {:induction false} WidthIff(schema: Schema, k: nat, m: Member)
    requires ValidSchema(schema) && FitsTo(schema, k) && k < |schema| && ValidMember(schema, k, m)
    ensures EncodesDirectly(schema, k, m) <==> (m.offset < 0x1_0000 && StringFits(m)) || Valueless(schema, k, m)
  {
    if m.offset < 0x1_0000 && StringFits(m) {
      forall v: Tree, r: seq<Byte> | MemberTyped(schema, k, m, v) && |r| == schema[k].size
        ensures EncodesOne(schema, k, m, v, r)
      {
        MemberEncodes(schema, k, m, v, r);
      }
    } else if Valueless(schema, k, m) {
      forall v: Tree, r: seq<Byte> | MemberTyped(schema, k, m, v) && |r| == schema[k].size
        ensures EncodesOne(schema, k, m, v, r)
      {
        ValuelessEncodes(schema, k, m, v, r);
      }
    } else if m.offset < 0x1_0000 {
      WideStringDiffers(schema, k, m);
    } else {
      FarDiffers(schema, k, m);
    }
  }

  /** The bytes that strncpy(p, s, size - 1) and p[size - 1] = NUL write, relative to p, when
      size_t counts modulo `modulus`: the first `count` bytes and byte size - 1. */
  predicate StaysInside(size: nat, modulus: nat, room: nat)
    requires modulus > 0
  {
    var count := (size - 1) % modulus;
    count <= room && 0 <= size - 1 < room
  }

  /** Encoding a string member writes inside its buffer only, if and only if the buffer's size
      is no multiple of 256; and these are the members the encoder is defined on. */
  lemma {:induction false} StringInsideIff(schema: Schema, k: nat, m: Member, s: seq<Byte>, modulus: nat)
    requires ValidSchema(schema) && k < |schema| && ValidMember(schema, k, m) && m.ltype == STRING
    requires modulus > m.size
    ensures StaysInside(GenField(schema, k, m).size, modulus, m.size) <==> m.size % 0x100 != 0
    ensures TypedField(GenField(schema, k, m), TStr(s)) <==> m.size % 0x100 != 0
  {
    var size := m.size % 0x100;
    if size > 0 {
      SmallModulo(size - 1, modulus);
    }
  }

  lemma {:induction false} SmallModulo(x: nat, d: nat)
    requires x < d
    ensures x % d == x
  {
    DivModUnique(x, d, 0, x);
  }

  /** A buffer of 256 bytes: the descriptor's size is 0, the copy has no limit and the
      terminator goes to the byte before the buffer. */
  lemma {:induction false} StringOf256(schema: Schema, k: nat, m: Member)
    requires ValidSchema(schema) && k < |schema| && ValidMember(schema, k, m)
    requires m.ltype == STRING && m.size == 0x100
    ensures GenField(schema, k, m).size == 0
    ensures (GenField(schema, k, m).size - 1) % 0x1_0000_0000 == 0xFFFF_FFFF
    ensures !StaysInside(GenField(schema, k, m).size, 0x1_0000_0000, m.size)
  {
    DivModUnique(-1, 0x1_0000_0000, -1, 0xFFFF_FFFF);
  }

  // ---------------------------------------------------------------- decoding

  predicate MemberTerminated(schema: Schema, k: nat, m: Member, s: seq<Byte>)
    requires ValidSchema(schema) && k < |schema| && ValidMember(schema, k, m) && |s| == m.size
    decreases k, 0
  {
    && (m.ltype == STRING ==> 0 in s)
    && (m.ltype.MESSAGE? ==> StructTerminated(schema, m.ltype.child, s))
  }

  /** Every string of the struct is terminated within its own buffer. */
  predicate StructTerminated(schema: Schema, k: nat, s: seq<Byte>)
    requires ValidSchema(schema) && k < |schema| && |s| == schema[k].size
    decreases k, 1
  {
    forall i | 0 <= i < |schema[k].members| ::
      && ValidMember(schema, k, schema[k].members[i])
      && MemberTerminated(schema, k, schema[k].members[i],
           s[schema[k].members[i].offset..schema[k].members[i].offset + schema[k].members[i].size])
  }

  lemma {:induction false} GeneratedDistinct(schema: Schema, k: nat)
    requires ValidSchema(schema) && k < |schema|
    ensures Distinct(Generated(schema, k))
    decreases k
  {
    var ms, fs := schema[k].members, Generated(schema, k);
    forall i | 0 <= i < |ms| ensures DistinctField(fs[i]) {
      GenAt(schema, k, |ms|, i);
      if ms[i].ltype.MESSAGE? {
        GeneratedDistinct(schema, ms[i].ltype.child);
      }
    }
    forall i, j | 0 <= i < j < |ms| ensures fs[i].name != fs[j].name {
      GenAt(schema, k, |ms|, i);
      GenAt(schema, k, |ms|, j);
      NamesApart(schema, k, i, j);
    }
  }

  lemma {:induction false} ReadString(w: nat, schema: Schema, k: nat, m: Member, mem: seq<Byte>, p: nat)
    requires ValidSchema(schema) && k < |schema| && ValidMember(schema, k, m) && m.ltype == STRING
    requires p + m.size <= |mem| && MemberTerminated(schema, k, m, mem[p..p + m.size])
    requires Extent(GenField(schema, k, m)) <= m.size
    ensures var f := GenField(schema, k, m);
            && ReadableField(f, mem, p)
            && ReadField(w, f, mem, p) == MemberGet(w, schema, k, m, mem[p..p + m.size])
  {
    hide ValidSchema, CStr;
    TextAt(mem, p, m.size);
  }

  lemma {:induction false} ReadNumber(w: nat, schema: Schema, k: nat, m: Member, mem: seq<Byte>, p: nat)
    requires ValidSchema(schema) && k < |schema| && ValidMember(schema, k, m) && !m.ltype.MESSAGE? && m.ltype != STRING
    requires p + m.size <= |mem| && MemberTerminated(schema, k, m, mem[p..p + m.size])
    requires Extent(GenField(schema, k, m)) == m.size
    ensures var f := GenField(schema, k, m);
            && ReadableField(f, mem, p)
            && ReadField(w, f, mem, p) == MemberGet(w, schema, k, m, mem[p..p + m.size])
  {
    hide ValidSchema, FromLE, AsSigned, WrapS;
  }

  lemma {:induction false} GeneratedReadMember(w: nat, schema: Schema, k: nat, m: Member, mem: seq<Byte>, p: nat)
    requires ValidSchema(schema) && OffsetsTo(schema, k) && k < |schema| && ValidMember(schema, k, m)
    requires p + m.size <= |mem| && MemberTerminated(schema, k, m, mem[p..p + m.size])
    ensures var f := GenField(schema, k, m);
            && p + Extent(f) <= |mem| && ReadableField(f, mem, p)
            && ReadField(w, f, mem, p) == MemberGet(w, schema, k, m, mem[p..p + m.size])
    decreases k, 0
  {
    hide ValidSchema, OffsetsTo, ValidMember, GenField, MemberGet, ReadField, ReadableField, Extent, MemberTerminated,
      StringFits, Span, Read, Readable, StructGet, StructTerminated, GenFields;
    GenRoom(schema, k, m);
    if m.ltype.MESSAGE? {
      MessageFacts(schema, k, m, mem[p..p + m.size]);
      OffsetsLess(schema, k, m.ltype.child + 1);
      GeneratedRead(w, schema, m.ltype.child, mem, p);
      ReadMessage(w, schema, k, m, mem, p);
    } else if m.ltype == STRING {
      ReadString(w, schema, k, m, mem, p);
    } else {
      assert StringFits(m) by { NotString(m); }
      ReadNumber(w, schema, k, m, mem, p);
    }
  }

  lemma {:induction false} NotString(m: Member)
    requires m.ltype != STRING
    ensures StringFits(m)
  {
  }

  lemma {:induction false} MessageFacts(schema: Schema, k: nat, m: Member, s: seq<Byte>)
    requires ValidSchema(schema) && k < |schema| && ValidMember(schema, k, m) && m.ltype.MESSAGE? && |s| == m.size
    ensures m.ltype.child < k && m.size == schema[m.ltype.child].size
    ensures MemberTerminated(schema, k, m, s) ==> StructTerminated(schema, m.ltype.child, s)
  {
  }

  lemma {:induction false} ReadMessage(w: nat, schema: Schema, k: nat, m: Member, mem: seq<Byte>, p: nat)
    requires ValidSchema(schema) && k < |schema| && ValidMember(schema, k, m) && m.ltype.MESSAGE? && p + m.size <= |mem|
    requires var fs := Generated(schema, m.ltype.child);
             && p + Span(fs) <= |mem| && Readable(fs, mem, p)
             && Read(w, fs, mem, p) == StructGet(w, schema, m.ltype.child, |schema[m.ltype.child].members|, mem[p..p + m.size])
    ensures var f := GenField(schema, k, m);
            && p + Extent(f) <= |mem| && ReadableField(f, mem, p)
            && ReadField(w, f, mem, p) == MemberGet(w, schema, k, m, mem[p..p + m.size])
  {
    hide ValidSchema, Span, Read, Readable, StructGet, GenFields, GetField;
  }

  lemma {:induction false} ReadLast(w: nat, fs: seq<Field>, mem: seq<Byte>, p: nat)
    requires fs != [] && p + Span(fs) <= |mem|
    ensures var init, f := fs[..|fs| - 1], fs[|fs| - 1];
            && p + Span(init) <= |mem| && p + f.offset + Extent(f) <= |mem|
            && Read(w, fs, mem, p) == Read(w, init, mem, p)[f.name := ReadField(w, f, mem, p + f.offset)]
  {
  }

  lemma {:induction false} ReadableLast(fs: seq<Field>, mem: seq<Byte>, p: nat)
    requires fs != [] && p + Span(fs) <= |mem| && p + Span(fs[..|fs| - 1]) <= |mem| && Readable(fs[..|fs| - 1], mem, p)
    requires var f := fs[|fs| - 1];
             p + f.offset + Extent(f) <= |mem| && ReadableField(f, mem, p + f.offset)
    ensures Readable(fs, mem, p)
  {
    hide Span, ReadableField, Extent;
    forall i | 0 <= i < |fs|
      ensures p + fs[i].offset + Extent(fs[i]) <= |mem| && ReadableField(fs[i], mem, p + fs[i].offset)
    {
      assert i < |fs| - 1 ==> fs[..|fs| - 1][i] == fs[i];
    }
  }

  lemma {:induction false} TerminatedMember(schema: Schema, k: nat, i: nat, mem: seq<Byte>, p: nat)
    requires ValidSchema(schema) && k < |schema| && i < |schema[k].members| && p + schema[k].size <= |mem|
    requires StructTerminated(schema, k, mem[p..p + schema[k].size])
    ensures var m := schema[k].members[i];
            && ValidMember(schema, k, m) && m.offset + m.size <= schema[k].size
            && mem[p..p + schema[k].size][m.offset..m.offset + m.size] == mem[p + m.offset..p + m.offset + m.size]
            && MemberTerminated(schema, k, m, mem[p + m.offset..p + m.offset + m.size])
  {
    hide ValidSchema, MemberTerminated;
    var m := schema[k].members[i];
    assert ValidMember(schema, k, m);
    SubSlice(mem, p, schema[k].size, m.offset, m.size);
  }

  lemma {:induction false} ReadNothing(w: nat, schema: Schema, k: nat, mem: seq<Byte>, p: nat)
    requires ValidSchema(schema) && k < |schema| && p + schema[k].size <= |mem|
    ensures p + Span(GenFields(schema, k, 0)) <= |mem| && Readable(GenFields(schema, k, 0), mem, p)
    ensures Read(w, GenFields(schema, k, 0), mem, p) == StructGet(w, schema, k, 0, mem[p..p + schema[k].size])
  {
    assert GenFields(schema, k, 0) == [];
  }

  lemma {:induction false} StructGetLast(w: nat, schema: Schema, k: nat, n: nat, s: seq<Byte>)
    requires ValidSchema(schema) && k < |schema| && 0 < n <= |schema[k].members| && |s| == schema[k].size
    ensures var m := schema[k].members[n - 1];
            && ValidMember(schema, k, m)
            && StructGet(w, schema, k, n, s) ==
               StructGet(w, schema, k, n - 1, s)[m.name := MemberGet(w, schema, k, m, s[m.offset..m.offset + m.size])]
  {
    assert ValidStruct(schema, k);
  }

  lemma {:induction false} GeneratedReadFirst(w: nat, schema: Schema, k: nat, n: nat, mem: seq<Byte>, p: nat)
    requires ValidSchema(schema) && OffsetsTo(schema, k + 1) && k < |schema| && n <= |schema[k].members|
    requires p + schema[k].size <= |mem| && StructTerminated(schema, k, mem[p..p + schema[k].size])
    ensures p + Span(GenFields(schema, k, n)) <= |mem| && Readable(GenFields(schema, k, n), mem, p)
    ensures Read(w, GenFields(schema, k, n), mem, p) == StructGet(w, schema, k, n, mem[p..p + schema[k].size])
    decreases k, 1, n
  {
    hide ValidSchema, OffsetsTo, ValidMember, GenField, GenFields, MemberGet, ReadField, ReadableField, Extent, Span,
      StructTerminated, MemberTerminated, Readable, Read, StructGet;
    if n == 0 {
      ReadNothing(w, schema, k, mem, p);
    } else {
      var m := schema[k].members[n - 1];
      GenSpan(schema, k, n);
      TerminatedMember(schema, k, n - 1, mem, p);
      GenFieldsLast(schema, k, n);
      GenExtent(schema, k, m);
      OffsetsLess(schema, k + 1, k);
      GeneratedReadFirst(w, schema, k, n - 1, mem, p);
      GeneratedReadMember(w, schema, k, m, mem, p + m.offset);
      ReadLast(w, GenFields(schema, k, n), mem, p);
      ReadableLast(GenFields(schema, k, n), mem, p);
      StructGetLast(w, schema, k, n, mem[p..p + schema[k].size]);
    }
  }

  /** The decoder reads every string member rightly, whatever the size of its buffer: it never
      looks at the size in the descriptor. */
  lemma {:induction false} GeneratedRead(w: nat, schema: Schema, k: nat, mem: seq<Byte>, p: nat)
    requires ValidSchema(schema) && OffsetsTo(schema, k + 1) && k < |schema| && p + schema[k].size <= |mem|
    requires StructTerminated(schema, k, mem[p..p + schema[k].size])
    ensures Distinct(Generated(schema, k)) && p + Span(Generated(schema, k)) <= |mem|
    ensures Readable(Generated(schema, k), mem, p)
    ensures Read(w, Generated(schema, k), mem, p) ==
            StructGet(w, schema, k, |schema[k].members|, mem[p..p + schema[k].size])
    decreases k, 2
  {
    GeneratedDistinct(schema, k);
    GeneratedReadFirst(w, schema, k, |schema[k].members|, mem, p);
  }
}
