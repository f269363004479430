/** The field descriptors of include/luaz_msg_descr.h and what makes an array of them
    a proper description of a C struct. */
module Descriptor {
  type U8 = n: int | 0 <= n < 0x100
  type U16 = n: int | 0 <= n < 0x1_0000

  /** The field types of the model; Object carries its sub-descriptor array. */
  datatype Kind = Int | UInt | StrBuf | Bool | Object(sub: seq<Field>)

  datatype Field = Field(name: string, kind: Kind, offset: U16, size: U8)

  /** The number of bytes the codec touches for one field. An integer of another size than
      1, 2, 4 or 8 falls through every case of the C switch; an object's own size field is
      never read, only its sub-fields are. */
  function Extent(f: Field): nat
    decreases f
  {
    match f.kind
    case Int => if f.size in {1, 2, 4, 8} then f.size else 0
    case UInt => if f.size in {1, 2, 4, 8} then f.size else 0
    case StrBuf => f.size
    case Bool => 1
    case Object(sub) => Span(sub)
  }

  /** One past the last offset that any field of the array touches. */
  function Span(fs: seq<Field>): nat
    decreases fs
  {
    if fs == [] then 0
    else
      var f := fs[|fs| - 1];
      var rest := Span(fs[..|fs| - 1]);
      var end := f.offset + Extent(f);
      if rest < end then end else rest
  }

  /** How deep the values of the described tables are nested, 0 for no values. */
  function Depth(fs: seq<Field>): nat
    decreases fs
  {
    if fs == [] then 0
    else
      var f := fs[|fs| - 1];
      var rest := Depth(fs[..|fs| - 1]);
      var d := if f.kind.Object? then 1 + Depth(f.kind.sub) else 1;
      if rest < d then d else rest
  }

  predicate Disjoint(f: Field, g: Field)
  {
    f.offset + Extent(f) <= g.offset || g.offset + Extent(g) <= f.offset
  }

  predicate WfField(f: Field)
    decreases f
  {
    match f.kind
    case StrBuf => f.size >= 1
    case Object(sub) => Wf(sub)
    case _ => true
  }

  /** Sibling names differ, sibling ranges do not overlap, string buffers have room for their
      terminator; recursively. */
  predicate Wf(fs: seq<Field>)
    decreases fs
  {
    && (forall i | 0 <= i < |fs| :: WfField(fs[i]))
    && (forall i, j | 0 <= i < j < |fs| :: fs[i].name != fs[j].name && Disjoint(fs[i], fs[j]))
  }

  predicate DistinctField(f: Field)
    decreases f
  {
    f.kind.Object? ==> Distinct(f.kind.sub)
  }

  /** Sibling names differ, recursively: all that decoding needs. */
  predicate Distinct(fs: seq<Field>)
    decreases fs
  {
    && (forall i | 0 <= i < |fs| :: DistinctField(fs[i]))
    && (forall i, j | 0 <= i < j < |fs| :: fs[i].name != fs[j].name)
  }

  lemma {:induction false} DistinctInit(fs: seq<Field>)
    requires Distinct(fs) && fs != []
    ensures Distinct(fs[..|fs| - 1])
  {
  }

  lemma {:induction false} WfDistinctField(f: Field)
    requires WfField(f)
    ensures DistinctField(f)
    decreases f
  {
    if f.kind.Object? {
      WfDistinct(f.kind.sub);
    }
  }

  lemma {:induction false} WfDistinct(fs: seq<Field>)
    requires Wf(fs)
    ensures Distinct(fs)
    decreases fs
  {
    forall i | 0 <= i < |fs| ensures DistinctField(fs[i]) {
      WfDistinctField(fs[i]);
    }
  }

  function Names(fs: seq<Field>): (s: set<string>)
  {
    set i | 0 <= i < |fs| :: fs[i].name
  }

  lemma {:induction false} SpanCovers(fs: seq<Field>, i: nat)
    requires i < |fs|
    ensures fs[i].offset + Extent(fs[i]) <= Span(fs)
  {
    if i < |fs| - 1 {
      SpanCovers(fs[..|fs| - 1], i);
    }
  }

  lemma {:induction false} SpanPrefix(fs: seq<Field>, n: nat)
    requires n <= |fs|
    ensures Span(fs[..n]) <= Span(fs)
  {
    if n < |fs| {
      SpanPrefix(fs[..|fs| - 1], n);
      assert fs[..|fs| - 1][..n] == fs[..n];
    } else {
      assert fs[..n] == fs;
    }
  }

  lemma {:induction false} SpanBound(fs: seq<Field>, n: nat)
    requires forall i | 0 <= i < |fs| :: fs[i].offset + Extent(fs[i]) <= n
    ensures Span(fs) <= n
  {
    if fs != [] {
      SpanBound(fs[..|fs| - 1], n);
    }
  }

  /** The depth of one field's value. */
  function FieldDepth(f: Field): nat
  {
    if f.kind.Object? then 1 + Depth(f.kind.sub) else 1
  }

  lemma {:induction false} DepthStep(fs: seq<Field>, i: nat)
    requires i < |fs|
    ensures Depth(fs[..i + 1]) == if Depth(fs[..i]) < FieldDepth(fs[i]) then FieldDepth(fs[i]) else Depth(fs[..i])
  {
    assert fs[..i + 1][..i] == fs[..i];
  }

  lemma {:induction false} DepthCovers(fs: seq<Field>, i: nat)
    requires i < |fs|
    ensures FieldDepth(fs[i]) <= Depth(fs)
  {
    if i < |fs| - 1 {
      DepthCovers(fs[..|fs| - 1], i);
    }
  }
}
