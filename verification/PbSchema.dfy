/** The X-macros of include/luaz_msg_descr_pb.h: from nanopb message definitions, laid out as
    C structs, to descriptor arrays. */
module PbSchema {
  import opened Bytes
  import opened Descriptor
  import opened Lens

  /** nanopb's logical types; MESSAGE names an earlier definition by its index. */
  datatype LType =
    | BOOL
    | INT32 | SINT32 | SFIXED32 | INT64 | SINT64 | SFIXED64 | ENUM
    | UINT32 | FIXED32 | UINT64 | FIXED64 | UENUM
    | STRING
    | MESSAGE(child: nat)

  /** A member of a generated struct: offsetof and sizeof are the C compiler's. */
  datatype Member = Member(name: string, ltype: LType, offset: nat, size: nat)

  datatype Struct = Struct(members: seq<Member>, size: nat)

  /** Definitions in the order of the LUA_PB_DESCR_DEFINE lines. */
  type Schema = seq<Struct>

  predicate SignedType(l: LType)
  {
    l in {INT32, SINT32, SFIXED32, INT64, SINT64, SFIXED64, ENUM}
  }

  predicate UnsignedType(l: LType)
  {
    l in {UINT32, FIXED32, UINT64, FIXED64, UENUM}
  }

  /** What a C compiler guarantees of a member, and that a submessage was defined before. */
  predicate ValidMember(schema: Schema, k: nat, m: Member)
    requires k < |schema|
  {
    && m.offset + m.size <= schema[k].size
    && match m.ltype
       case BOOL => m.size == 1
       case STRING => m.size >= 1
       case MESSAGE(child) => child < k && m.size == schema[child].size
       case _ => m.size in {1, 2, 4, 8}
  }

  predicate Apart(m: Member, n: Member)
  {
    m.name != n.name && (m.offset + m.size <= n.offset || n.offset + n.size <= m.offset)
  }

  predicate ValidSchema(schema: Schema)
  {
    forall k | 0 <= k < |schema| :: ValidStruct(schema, k)
  }

  predicate ValidStruct(schema: Schema, k: nat)
    requires k < |schema|
  {
    && (forall i | 0 <= i < |schema[k].members| :: ValidMember(schema, k, schema[k].members[i]))
    && (forall i, j | 0 <= i < j < |schema[k].members| :: Apart(schema[k].members[i], schema[k].members[j]))
  }

  /** Offsets of the first n messages fit uint16_t. */
  predicate OffsetsTo(schema: Schema, n: nat)
  {
    forall k | 0 <= k < |schema| && k < n :: OffsetsFit(schema[k])
  }

  predicate OffsetsFit(s: Struct)
  {
    forall i | 0 <= i < |s.members| :: s.members[i].offset < 0x1_0000
  }

  /** String buffers of the first n messages fit uint8_t as well. */
  predicate FitsTo(schema: Schema, n: nat)
  {
    OffsetsTo(schema, n) && forall k | 0 <= k < |schema| && k < n :: StringsFit(schema[k])
  }

  predicate StringFits(m: Member)
  {
    m.ltype == STRING ==> m.size < 0x100
  }

  predicate StringsFit(s: Struct)
  {
    forall i | 0 <= i < |s.members| :: StringFits(s.members[i])
  }

  // ---------------------------------------------------------------- the macros

  /** LUA_PB_GEN_<ltype>: the initialiser of one descriptor; offset and size are cut to the
      descriptor's 16-bit and 8-bit members. */
  function GenField(schema: Schema, k: nat, m: Member): (f: Field)
    requires ValidSchema(schema) && k < |schema| && ValidMember(schema, k, m)
    decreases k, 0
  {
    var kind := match m.ltype
      case BOOL => Bool
      case INT32 => Int
      case SINT32 => Int
      case SFIXED32 => Int
      case INT64 => Int
      case SINT64 => Int
      case SFIXED64 => Int
      case UINT32 => UInt
      case FIXED32 => UInt
      case UINT64 => UInt
      case FIXED64 => UInt
      case STRING => StrBuf
      case ENUM => Int
      case UENUM => UInt
      case MESSAGE(child) => Object(GenFields(schema, child, |schema[child].members|));
    Field(m.name, kind, m.offset % 0x1_0000, m.size % 0x100)
  }

  /** LUA_PB_DESCR_DEFINE: the array for the first n members of definition k. */
  function GenFields(schema: Schema, k: nat, n: nat): (fs: seq<Field>)
    requires ValidSchema(schema) && k < |schema| && n <= |schema[k].members|
    ensures |fs| == n
    decreases k, n + 1
  {
    if n == 0 then []
    else
      assert ValidStruct(schema, k);
      GenFields(schema, k, n - 1) + [GenField(schema, k, schema[k].members[n - 1])]
  }

  /** The whole array of definition k. */
  function Generated(schema: Schema, k: nat): seq<Field>
    requires ValidSchema(schema) && k < |schema|
  {
    GenFields(schema, k, |schema[k].members|)
  }

  lemma {:induction false} GenAt(schema: Schema, k: nat, n: nat, i: nat)
    requires ValidSchema(schema) && k < |schema| && i < n <= |schema[k].members|
    ensures ValidMember(schema, k, schema[k].members[i])
    ensures GenFields(schema, k, n)[i] == GenField(schema, k, schema[k].members[i])
    decreases n
  {
    assert ValidStruct(schema, k);
    if i < n - 1 {
      GenAt(schema, k, n - 1, i);
    }
  }

  lemma {:induction false} AllOnes(k: nat)
    requires k >= 1
    ensures FromLE(Fill(255, k)) == Pow256(k) - 1 && AsSigned(FromLE(Fill(255, k)), k) == -1
  {
    ToLESignFill(k);
    FromToLE(-1, k);
    DivModUnique(-1, Pow256(k), -1, Pow256(k) - 1);
    assert Pow256(k) == 256 * Pow256(k - 1);
  }

  /** What the generated field makes of a member whose bits are all set: -1 for the signed types
      and enumerations, the largest number for the unsigned ones, true for a bool. */
  lemma {:induction false} OnesRead(w: nat, schema: Schema, k: nat, m: Member)
    requires w >= 1 && ValidSchema(schema) && k < |schema| && ValidMember(schema, k, m) && !m.ltype.MESSAGE? && m.ltype != STRING
    ensures Extent(GenField(schema, k, m)) == m.size
    ensures var v := GetField(w, GenField(schema, k, m), Fill(255, m.size));
            match m.ltype
            case BOOL => v == TBool(true)
            case INT32 | SINT32 | SFIXED32 | INT64 | SINT64 | SFIXED64 | ENUM => v == TInt(-1)
            case _ => v == TInt(WrapS(Pow256(m.size) - 1, w))
  {
    hide ValidSchema, ValidStruct, GenFields, Fill, FromLE, AsSigned, WrapS, Pow256, Span;
    AllOnes(m.size);
    MinusOne(w);
  }

  lemma {:induction false} MinusOne(w: nat)
    requires w >= 1
    ensures WrapS(-1, w) == -1
  {
    assert Pow256(w) == 256 * Pow256(w - 1);
    WrapSFix(-1, w);
  }

  // ---------------------------------------------------------------- the struct read directly

  /** A member's value by its protobuf type alone, from its sizeof bytes. */
  function MemberGet(w: nat, schema: Schema, k: nat, m: Member, s: seq<Byte>): Tree
    requires ValidSchema(schema) && k < |schema| && ValidMember(schema, k, m) && |s| == m.size
    decreases k, 0
  {
    if SignedType(m.ltype) then TInt(WrapS(AsSigned(FromLE(s), m.size), w))
    else if UnsignedType(m.ltype) then TInt(WrapS(FromLE(s), w))
    else if m.ltype == BOOL then TBool(s[0] != 0)
    else if m.ltype == STRING then TStr(CStr(s))
    else TObj(StructGet(w, schema, m.ltype.child, |schema[m.ltype.child].members|, s))
  }

  function StructGet(w: nat, schema: Schema, k: nat, n: nat, s: seq<Byte>): Table
    requires ValidSchema(schema) && k < |schema| && n <= |schema[k].members| && |s| == schema[k].size
    decreases k, n + 1
  {
    if n == 0 then map[]
    else
      var m := schema[k].members[n - 1];
      assert ValidStruct(schema, k) && ValidMember(schema, k, m);
      StructGet(w, schema, k, n - 1, s)[m.name := MemberGet(w, schema, k, m, s[m.offset..m.offset + m.size])]
  }

  /** A Lua value of the member's protobuf type. */
  predicate MemberTyped(schema: Schema, k: nat, m: Member, v: Tree)
    requires ValidSchema(schema) && k < |schema| && ValidMember(schema, k, m)
    decreases k, 0
  {
    if SignedType(m.ltype) || UnsignedType(m.ltype) then v.TInt?
    else if m.ltype == BOOL then v.TBool?
    else if m.ltype == STRING then v.TStr?
    else v.TObj? && StructTyped(schema, m.ltype.child, v.t)
  }

  predicate StructTyped(schema: Schema, k: nat, t: Table)
    requires ValidSchema(schema) && k < |schema|
    decreases k, 1
  {
    forall i | 0 <= i < |schema[k].members| && schema[k].members[i].name in t ::
      ValidMember(schema, k, schema[k].members[i])
      && MemberTyped(schema, k, schema[k].members[i], t[schema[k].members[i].name])
  }

  /** No string that v stores goes to a member whose descriptor size has become 0. */
  predicate SizedMember(schema: Schema, k: nat, m: Member, v: Tree)
    requires ValidSchema(schema) && k < |schema| && ValidMember(schema, k, m) && MemberTyped(schema, k, m, v)
    decreases k, 0
  {
    && (m.ltype == STRING ==> m.size % 0x100 != 0)
    && (m.ltype.MESSAGE? ==> SizedStruct(schema, m.ltype.child, v.t))
  }

  predicate SizedStruct(schema: Schema, k: nat, t: Table)
    requires ValidSchema(schema) && k < |schema| && StructTyped(schema, k, t)
    decreases k, 1
  {
    forall i | 0 <= i < |schema[k].members| && schema[k].members[i].name in t ::
      SizedMember(schema, k, schema[k].members[i], t[schema[k].members[i].name])
  }

  lemma {:induction false} FitsSizedMember(schema: Schema, k: nat, m: Member, v: Tree)
    requires ValidSchema(schema) && FitsTo(schema, k) && k < |schema| && StringFits(m)
    requires ValidMember(schema, k, m) && MemberTyped(schema, k, m, v)
    ensures SizedMember(schema, k, m, v)
    decreases k, 0
  {
    if m.ltype.MESSAGE? {
      FitsSized(schema, m.ltype.child, v.t);
    }
  }

  lemma {:induction false} FitsSized(schema: Schema, k: nat, t: Table)
    requires ValidSchema(schema) && FitsTo(schema, k + 1) && k < |schema| && StructTyped(schema, k, t)
    ensures SizedStruct(schema, k, t)
    decreases k, 1
  {
    forall i | 0 <= i < |schema[k].members| && schema[k].members[i].name in t
      ensures SizedMember(schema, k, schema[k].members[i], t[schema[k].members[i].name])
    {
      assert StringsFit(schema[k]);
      FitsSizedMember(schema, k, schema[k].members[i], t[schema[k].members[i].name]);
    }
  }

  function MemberPut(schema: Schema, k: nat, m: Member, v: Tree, s: seq<Byte>): (r: seq<Byte>)
    requires ValidSchema(schema) && k < |schema| && ValidMember(schema, k, m) && |s| == m.size
    requires MemberTyped(schema, k, m, v)
    ensures |r| == |s|
    decreases k, 0
  {
    if SignedType(m.ltype) || UnsignedType(m.ltype) then ToLE(v.i, m.size)
    else if m.ltype == BOOL then [if v.b then 1 else 0]
    else if m.ltype == STRING then PadStr(v.s, m.size)
    else StructPut(schema, m.ltype.child, |schema[m.ltype.child].members|, v.t, s)
  }

  function StructPut(schema: Schema, k: nat, n: nat, t: Table, s: seq<Byte>): (r: seq<Byte>)
    requires ValidSchema(schema) && k < |schema| && n <= |schema[k].members| && |s| == schema[k].size
    requires StructTyped(schema, k, t)
    ensures |r| == |s|
    decreases k, n + 1
  {
    if n == 0 then s
    else
      var m := schema[k].members[n - 1];
      var r := StructPut(schema, k, n - 1, t, s);
      if m.name !in t then r
      else
        assert ValidStruct(schema, k) && ValidMember(schema, k, m);
        Splice(r, m.offset, MemberPut(schema, k, m, t[m.name], r[m.offset..m.offset + m.size]))
  }

  // ---------------------------------------------------------------- the translation is correct

  lemma {:induction false} MemberFacts(schema: Schema, k: nat, m: Member)
    requires ValidSchema(schema) && OffsetsTo(schema, k + 1) && k < |schema| && m in schema[k].members
    ensures ValidMember(schema, k, m) && m.offset + m.size <= schema[k].size && m.offset < 0x1_0000
    ensures FitsTo(schema, k + 1) ==> StringFits(m)
  {
    assert ValidStruct(schema, k) && OffsetsFit(schema[k]);
    var i :| 0 <= i < |schema[k].members| && schema[k].members[i] == m;
    if FitsTo(schema, k + 1) {
      assert StringsFit(schema[k]);
    }
  }

  /** A generated descriptor never reaches beyond its member, and only a message or a string too
      large for its size field may stay below. */
  lemma {:induction false} GenRoom(schema: Schema, k: nat, m: Member)
    requires ValidSchema(schema) && OffsetsTo(schema, k) && k < |schema| && ValidMember(schema, k, m)
    ensures Extent(GenField(schema, k, m)) <= m.size
    ensures !m.ltype.MESSAGE? && StringFits(m) ==> Extent(GenField(schema, k, m)) == m.size
    decreases k, 0
  {
    hide ValidSchema, OffsetsTo, ValidStruct, GenFields, Span;
    if m.ltype.MESSAGE? {
      assert OffsetsTo(schema, m.ltype.child + 1) by {
        OffsetsLess(schema, k, m.ltype.child + 1);
      }
      GenSpan(schema, m.ltype.child, |schema[m.ltype.child].members|);
    }
  }

  lemma {:induction false} FitsLess(schema: Schema, n: nat, k: nat)
    requires FitsTo(schema, n) && k <= n
    ensures FitsTo(schema, k)
  {
  }

  lemma {:induction false} OffsetsLess(schema: Schema, n: nat, k: nat)
    requires OffsetsTo(schema, n) && k <= n
    ensures OffsetsTo(schema, k)
  {
  }

  lemma {:induction false} GenExtent(schema: Schema, k: nat, m: Member)
    requires ValidSchema(schema) && OffsetsTo(schema, k + 1) && k < |schema| && m in schema[k].members
    ensures ValidMember(schema, k, m) && m.offset + m.size <= schema[k].size
    ensures var f := GenField(schema, k, m);
            f.name == m.name && f.offset == m.offset && Extent(f) <= m.size
    ensures FitsTo(schema, k + 1) && !m.ltype.MESSAGE? ==> Extent(GenField(schema, k, m)) == m.size
    decreases k, 1
  {
    hide ValidSchema, OffsetsTo, FitsTo, ValidStruct, GenFields, Span, Extent;
    MemberFacts(schema, k, m);
    OffsetsLess(schema, k + 1, k);
    GenRoom(schema, k, m);
  }

  lemma {:induction false} GenSpan(schema: Schema, k: nat, n: nat)
    requires ValidSchema(schema) && OffsetsTo(schema, k + 1) && k < |schema| && n <= |schema[k].members|
    ensures Span(GenFields(schema, k, n)) <= schema[k].size
    decreases k, n + 2
  {
    if n > 0 {
      GenSpan(schema, k, n - 1);
      GenExtent(schema, k, schema[k].members[n - 1]);
      assert GenFields(schema, k, n)[..n - 1] == GenFields(schema, k, n - 1);
    }
  }

  /** Every generated array is a well-formed descriptor of its struct. */
  lemma {:induction false} GeneratedWf(schema: Schema, k: nat)
    requires ValidSchema(schema) && FitsTo(schema, k + 1) && k < |schema|
    ensures Wf(Generated(schema, k)) && Span(Generated(schema, k)) <= schema[k].size
    decreases k
  {
    var ms := schema[k].members;
    var n := |ms|;
    var fs := Generated(schema, k);
    GenSpan(schema, k, n);
    forall i | 0 <= i < n ensures WfField(fs[i]) {
      GenAt(schema, k, n, i);
      GenExtent(schema, k, ms[i]);
      if ms[i].ltype.MESSAGE? {
        GeneratedWf(schema, ms[i].ltype.child);
      }
    }
    forall i, j | 0 <= i < j < n ensures fs[i].name != fs[j].name && Disjoint(fs[i], fs[j]) {
      GenAt(schema, k, n, i);
      GenAt(schema, k, n, j);
      GenExtent(schema, k, ms[i]);
      GenExtent(schema, k, ms[j]);
      assert ValidStruct(schema, k) && Apart(ms[i], ms[j]);
    }
  }

  lemma {:induction false} MemberSlice(s: seq<Byte>, f: Field, m: Member)
    requires f.offset == m.offset && Extent(f) <= m.size && m.offset + m.size <= |s|
    ensures Slice(s, f) == s[m.offset..m.offset + m.size][..Extent(f)]
  {
    hide Extent;
  }

  lemma {:induction false} GeneratedGetMember(w: nat, schema: Schema, k: nat, m: Member, s: seq<Byte>)
    requires ValidSchema(schema) && FitsTo(schema, k + 1) && k < |schema| && m in schema[k].members
    requires |s| == m.size
    ensures ValidMember(schema, k, m) && Extent(GenField(schema, k, m)) <= |s|
    ensures GetField(w, GenField(schema, k, m), s[..Extent(GenField(schema, k, m))]) == MemberGet(w, schema, k, m, s)
    decreases k, 0
  {
    hide ValidSchema, OffsetsTo, StringsFit, ValidStruct, Get, Span, StructGet;
    GenExtent(schema, k, m);
    var f := GenField(schema, k, m);
    if m.ltype.MESSAGE? {
      var child := m.ltype.child;
      FitsLess(schema, k + 1, child + 1);
      GeneratedGetFirst(w, schema, child, |schema[child].members|, s);
      GetLocal(w, f.kind.sub, s, Extent(f));
    } else {
      assert s[..Extent(f)] == s;
    }
  }

  lemma {:induction false} GeneratedGetFirst(w: nat, schema: Schema, k: nat, n: nat, s: seq<Byte>)
    requires ValidSchema(schema) && FitsTo(schema, k + 1) && k < |schema| && n <= |schema[k].members| && |s| == schema[k].size
    ensures Span(GenFields(schema, k, n)) <= |s|
    ensures Get(w, GenFields(schema, k, n), s) == StructGet(w, schema, k, n, s)
    decreases k, n + 1
  {
    hide ValidSchema, OffsetsTo, StringsFit, ValidStruct, ValidMember, GenField, MemberGet, GetField, Extent, FromLE, CStr;
    GenSpan(schema, k, n);
    if n > 0 {
      var m := schema[k].members[n - 1];
      GenExtent(schema, k, m);
      var f := GenField(schema, k, m);
      assert GenFields(schema, k, n) == GenFields(schema, k, n - 1) + [f];
      assert GenFields(schema, k, n)[..n - 1] == GenFields(schema, k, n - 1);
      assert StructGet(w, schema, k, n, s) ==
             StructGet(w, schema, k, n - 1, s)[m.name := MemberGet(w, schema, k, m, s[m.offset..m.offset + m.size])];
      MemberSlice(s, f, m);
      hide GenFields, StructGet, Slice;
      GeneratedGetFirst(w, schema, k, n - 1, s);
      GeneratedGetMember(w, schema, k, m, s[m.offset..m.offset + m.size]);
    }
  }

  /** Interpreting the generated descriptor decodes the struct by its protobuf types. */
  lemma {:induction false} GeneratedGet(w: nat, schema: Schema, k: nat, s: seq<Byte>)
    requires ValidSchema(schema) && FitsTo(schema, k + 1) && k < |schema| && |s| == schema[k].size
    ensures Span(Generated(schema, k)) <= |s|
    ensures Get(w, Generated(schema, k), s) == StructGet(w, schema, k, |schema[k].members|, s)
  {
    GeneratedGetFirst(w, schema, k, |schema[k].members|, s);
  }

  lemma {:induction false} GeneratedTypedMember(schema: Schema, k: nat, m: Member, v: Tree)
    requires ValidSchema(schema) && k < |schema| && ValidMember(schema, k, m)
    ensures MemberTyped(schema, k, m, v) && SizedMember(schema, k, m, v) <==> TypedField(GenField(schema, k, m), v)
    decreases k, 0
  {
    if m.ltype.MESSAGE? && v.TObj? {
      GeneratedTyped(schema, m.ltype.child, v.t);
    }
  }

  lemma {:induction false} GeneratedTypedAt(schema: Schema, k: nat, t: Table, i: nat)
    requires ValidSchema(schema) && k < |schema| && i < |schema[k].members| && schema[k].members[i].name in t
    ensures ValidMember(schema, k, schema[k].members[i])
    ensures Generated(schema, k)[i].name == schema[k].members[i].name
    ensures var m, v := schema[k].members[i], t[schema[k].members[i].name];
            MemberTyped(schema, k, m, v) && SizedMember(schema, k, m, v) <==> TypedField(Generated(schema, k)[i], v)
    decreases k, 1
  {
    GenAt(schema, k, |schema[k].members|, i);
    GeneratedTypedMember(schema, k, schema[k].members[i], t[schema[k].members[i].name]);
  }

  /** The generated descriptor accepts exactly the tables of the message's protobuf types whose
      strings have a buffer that the descriptor can express. */
  lemma {:induction false} GeneratedTyped(schema: Schema, k: nat, t: Table)
    requires ValidSchema(schema) && k < |schema|
    ensures StructTyped(schema, k, t) && SizedStruct(schema, k, t) <==> Typed(Generated(schema, k), t)
    decreases k, 2
  {
    var ms, fs := schema[k].members, Generated(schema, k);
    forall i | 0 <= i < |ms| ensures fs[i].name == ms[i].name {
      GenAt(schema, k, |ms|, i);
    }
    forall i | 0 <= i < |ms| && ms[i].name in t
      ensures ValidMember(schema, k, ms[i])
      ensures MemberTyped(schema, k, ms[i], t[ms[i].name]) && SizedMember(schema, k, ms[i], t[ms[i].name])
              <==> TypedField(fs[i], t[ms[i].name])
    {
      GeneratedTypedAt(schema, k, t, i);
    }
  }

  lemma {:induction false} GeneratedPutMember(schema: Schema, k: nat, m: Member, v: Tree, s: seq<Byte>)
    requires ValidSchema(schema) && FitsTo(schema, k) && k < |schema| && StringFits(m)
    requires |s| == m.size && ValidMember(schema, k, m) && MemberTyped(schema, k, m, v)
    ensures var f := GenField(schema, k, m);
            && TypedField(f, v) && Extent(f) <= |s|
            && Splice(s, 0, PutField(f, v, s[..Extent(f)])) == MemberPut(schema, k, m, v, s)
    decreases k, 0
  {
    GenRoom(schema, k, m);
    FitsSizedMember(schema, k, m, v);
    GeneratedTypedMember(schema, k, m, v);
    var f := GenField(schema, k, m);
    if m.ltype.MESSAGE? {
      var child := m.ltype.child;
      GeneratedPutFirst(schema, child, |schema[child].members|, v.t, s);
      PutLocal(f.kind.sub, v.t, s, Extent(f));
    } else {
      assert s[..Extent(f)] == s;
    }
  }

  /** Splicing the start of a part, then the part into the whole. */
  lemma {:induction false} NestSplice(r: seq<Byte>, p: nat, part: seq<Byte>, s: seq<Byte>)
    requires p + |part| <= |r| && part == r[p..p + |part|] && |s| <= |part|
    ensures Splice(r, p, s) == Splice(r, p, Splice(part, 0, s))
  {
  }

  lemma {:induction false} GeneratedTypedFirst(schema: Schema, k: nat, n: nat, t: Table)
    requires ValidSchema(schema) && FitsTo(schema, k + 1) && k < |schema| && n <= |schema[k].members|
    requires StructTyped(schema, k, t)
    ensures Typed(GenFields(schema, k, n), t)
  {
    var fs := GenFields(schema, k, n);
    FitsSized(schema, k, t);
    GeneratedTyped(schema, k, t);
    forall i | 0 <= i < |fs| && fs[i].name in t ensures TypedField(fs[i], t[fs[i].name]) {
      GenAt(schema, k, n, i);
      GenAt(schema, k, |schema[k].members|, i);
      assert Generated(schema, k)[i] == fs[i];
    }
  }

  /** Encoding v through the member's generated descriptor gives the same struct as encoding it
      by its protobuf type. */
  predicate EncodesOne(schema: Schema, k: nat, m: Member, v: Tree, r: seq<Byte>)
    requires ValidSchema(schema) && k < |schema| && ValidMember(schema, k, m)
    requires MemberTyped(schema, k, m, v) && |r| == schema[k].size
  {
    var f := GenField(schema, k, m);
    && TypedField(f, v) && f.offset + Extent(f) <= |r|
    && Splice(r, f.offset, PutField(f, v, Slice(r, f)))
       == Splice(r, m.offset, MemberPut(schema, k, m, v, r[m.offset..m.offset + m.size]))
  }

  lemma {:induction false} MemberEncodes(schema: Schema, k: nat, m: Member, v: Tree, r: seq<Byte>)
    requires ValidSchema(schema) && FitsTo(schema, k) && k < |schema| && StringFits(m) && m.offset < 0x1_0000
    requires ValidMember(schema, k, m) && MemberTyped(schema, k, m, v) && |r| == schema[k].size
    ensures EncodesOne(schema, k, m, v, r)
    decreases k, 1
  {
    assert m.offset + m.size <= |r| && GenField(schema, k, m).offset == m.offset;
    hide ValidSchema, OffsetsTo, StringsFit, ValidMember, GenField, MemberPut, PutField, Extent, TypedField, MemberTyped, Splice;
    GenRoom(schema, k, m);
    var f, before := GenField(schema, k, m), r[m.offset..m.offset + m.size];
    GeneratedPutMember(schema, k, m, v, before);
    MemberSlice(r, f, m);
    NestSplice(r, m.offset, before, PutField(f, v, before[..Extent(f)]));
  }

  /** One more member, given what the members before it made of the struct. */
  lemma {:induction false} PutLastMember(schema: Schema, k: nat, n: nat, t: Table, s: seq<Byte>, r: seq<Byte>)
    requires ValidSchema(schema) && FitsTo(schema, k + 1) && k < |schema| && 0 < n <= |schema[k].members|
    requires |s| == |r| == schema[k].size && StructTyped(schema, k, t) && r == StructPut(schema, k, n - 1, t, s)
    requires var m := schema[k].members[n - 1];
             ValidMember(schema, k, m) && m.offset + m.size <= schema[k].size
    ensures var m := schema[k].members[n - 1];
            if m.name !in t then StructPut(schema, k, n, t, s) == r
            else MemberTyped(schema, k, m, t[m.name]) && StructPut(schema, k, n, t, s) ==
                   Splice(r, m.offset, MemberPut(schema, k, m, t[m.name], r[m.offset..m.offset + m.size]))
  {
    hide ValidSchema, OffsetsTo, StringsFit, ValidStruct, ValidMember, MemberPut, MemberTyped, Splice;
    MemberTypedLast(schema, k, n - 1, t);
  }

  lemma {:induction false} PutLastField(fs: seq<Field>, t: Table, s: seq<Byte>)
    requires fs != [] && Span(fs) <= |s| && Typed(fs, t)
    ensures var init, f := fs[..|fs| - 1], fs[|fs| - 1];
            && Span(init) <= |s| && Typed(init, t) && f.offset + Extent(f) <= |s|
            && Put(fs, t, s) ==
               var r := Put(init, t, s);
               if f.name !in t then r else Splice(r, f.offset, PutField(f, t[f.name], Slice(r, f)))
  {
  }

  lemma {:induction false} MemberTypedLast(schema: Schema, k: nat, i: nat, t: Table)
    requires ValidSchema(schema) && k < |schema| && i < |schema[k].members| && StructTyped(schema, k, t)
    ensures ValidMember(schema, k, schema[k].members[i])
    ensures var m := schema[k].members[i];
            m.name in t ==> MemberTyped(schema, k, m, t[m.name])
  {
    assert ValidStruct(schema, k);
  }

  lemma {:induction false} GenFieldsLast(schema: Schema, k: nat, n: nat)
    requires ValidSchema(schema) && OffsetsTo(schema, k + 1) && k < |schema| && 0 < n <= |schema[k].members|
    ensures var m := schema[k].members[n - 1];
            && ValidMember(schema, k, m) && m.offset + m.size <= schema[k].size
            && GenFields(schema, k, n) == GenFields(schema, k, n - 1) + [GenField(schema, k, m)]
            && GenFields(schema, k, n)[..n - 1] == GenFields(schema, k, n - 1)
  {
    assert schema[k].members[n - 1] in schema[k].members;
    MemberFacts(schema, k, schema[k].members[n - 1]);
  }

  lemma {:induction false} GeneratedPutFirst(schema: Schema, k: nat, n: nat, t: Table, s: seq<Byte>)
    requires ValidSchema(schema) && FitsTo(schema, k + 1) && k < |schema| && n <= |schema[k].members| && |s| == schema[k].size
    requires StructTyped(schema, k, t)
    ensures Span(GenFields(schema, k, n)) <= |s| && Typed(GenFields(schema, k, n), t)
    ensures Put(GenFields(schema, k, n), t, s) == StructPut(schema, k, n, t, s)
    decreases k, n + 1
  {
    hide ValidSchema, OffsetsTo, StringsFit, ValidStruct, ValidMember, GenField, MemberPut, PutField, Extent, TypedField, MemberTyped,
      Typed, Splice, StructTyped, Span;
    GenSpan(schema, k, n);
    GeneratedTypedFirst(schema, k, n, t);
    if n > 0 {
      var m := schema[k].members[n - 1];
      GenFieldsLast(schema, k, n);
      GenExtent(schema, k, m);
      var r := StructPut(schema, k, n - 1, t, s);
      PutLastMember(schema, k, n, t, s, r);
      PutLastField(GenFields(schema, k, n), t, s);
      hide GenFields, StructPut, Put;
      GeneratedPutFirst(schema, k, n - 1, t, s);
      if m.name in t {
        MemberFacts(schema, k, m);
        FitsLess(schema, k + 1, k);
        MemberEncodes(schema, k, m, t[m.name], r);
        assert EncodesOne(schema, k, m, t[m.name], r);
      }
    }
  }

  /** Interpreting the generated descriptor encodes the struct by its protobuf types. */
  lemma {:induction false} GeneratedPut(schema: Schema, k: nat, t: Table, s: seq<Byte>)
    requires ValidSchema(schema) && FitsTo(schema, k + 1) && k < |schema| && |s| == schema[k].size
    requires StructTyped(schema, k, t)
    ensures Span(Generated(schema, k)) <= |s| && Typed(Generated(schema, k), t)
    ensures Put(Generated(schema, k), t, s) == StructPut(schema, k, |schema[k].members|, t, s)
  {
    GeneratedPutFirst(schema, k, |schema[k].members|, t, s);
  }

  // ---------------------------------------------------------------- the sample's messages

  /** samples/producer_consumer/proto/channels.proto as nanopb lays it out on a 32-bit target;
      the submessage member of the last struct is preceded by an undescribed has_offset flag. */
  const SAMPLE: Schema := [
    Struct([Member("x", INT32, 0, 4), Member("y", INT32, 4, 4), Member("z", INT32, 8, 4)], 12),
    Struct([Member("count", INT32, 0, 4)], 4),
    Struct([Member("major", UINT32, 0, 4), Member("minor", UINT32, 4, 4), Member("patch", UINT32, 8, 4),
            Member("hardware_id", STRING, 12, 16)], 28),
    Struct([Member("sensor_id", INT32, 0, 4), Member("offset", MESSAGE(0), 8, 12)], 20)
  ]

  lemma {:induction false} AccDataValid()
    ensures ValidStruct(SAMPLE, 0) && OffsetsFit(SAMPLE[0]) && StringsFit(SAMPLE[0])
  {
  }

  lemma {:induction false} ConsumedValid()
    ensures ValidStruct(SAMPLE, 1) && OffsetsFit(SAMPLE[1]) && StringsFit(SAMPLE[1])
  {
  }

  lemma {:induction false} VersionValid()
    ensures ValidStruct(SAMPLE, 2) && OffsetsFit(SAMPLE[2]) && StringsFit(SAMPLE[2])
  {
  }

  lemma {:induction false} SensorConfigValid()
    ensures ValidStruct(SAMPLE, 3) && OffsetsFit(SAMPLE[3]) && StringsFit(SAMPLE[3])
  {
    assert SAMPLE[3].members[1].ltype.child == 0;
  }

  lemma {:induction false} SampleValid()
    ensures ValidSchema(SAMPLE) && FitsTo(SAMPLE, 4)
  {
    hide ValidStruct, OffsetsFit, StringsFit;
    AccDataValid();
    ConsumedValid();
    VersionValid();
    SensorConfigValid();
  }

  lemma {:induction false} SampleFlagOutside(i: nat, p: nat)
    requires i < 2 && 4 <= p < 8 && ValidSchema(SAMPLE) && FitsTo(SAMPLE, 4)
    ensures !Inside(Generated(SAMPLE, 3)[i], p)
  {
    GenAt(SAMPLE, 3, 2, i);
    GenExtent(SAMPLE, 3, SAMPLE[3].members[i]);
  }

  /** No table whatsoever changes the has_offset flag or the padding after it. */
  lemma {:induction false} SampleFlagUntouched(t: Table, s: seq<Byte>, p: nat)
    requires |s| == 20 && 4 <= p < 8 && ValidSchema(SAMPLE) && StructTyped(SAMPLE, 3, t)
    ensures Span(Generated(SAMPLE, 3)) <= 20 && Typed(Generated(SAMPLE, 3), t)
    ensures Put(Generated(SAMPLE, 3), t, s)[p] == s[p]
  {
    hide Wf, Span, Typed, Put, Inside, ValidSchema, FitsTo, OffsetsTo, StructTyped, GenFields, StructPut;
    SampleValid();
    assert SAMPLE[3].size == 20 && |SAMPLE[3].members| == 2;
    GeneratedPut(SAMPLE, 3, t, s);
    GeneratedWf(SAMPLE, 3);
    var fs := Generated(SAMPLE, 3);
    forall i | 0 <= i < |fs| ensures !Inside(fs[i], p) {
      SampleFlagOutside(i, p);
    }
    assert Outside(fs, p);
    PutOutside(fs, t, s);
  }
}
