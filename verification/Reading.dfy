/** Decoding as the code does it, from whole memory. A string is read up to the first NUL,
    wherever that is: the size in its descriptor is never looked at. As long as every string is
    terminated within its field this is the field-wise decoding of module Lens. */
module Reading {
  import opened Bytes
  import opened Descriptor
  import opened Lens

  function ReadField(w: nat, f: Field, m: seq<Byte>, p: nat): Tree
    requires p + Extent(f) <= |m|
    decreases f
  {
    match f.kind
    case StrBuf => TStr(CStr(m[p..]))
    case Object(sub) => TObj(Read(w, sub, m, p))
    case _ => GetField(w, f, m[p..p + Extent(f)])
  }

  function Read(w: nat, fs: seq<Field>, m: seq<Byte>, p: nat): Table
    requires p + Span(fs) <= |m|
    decreases fs
  {
    if fs == [] then map[]
    else
      var f := fs[|fs| - 1];
      Read(w, fs[..|fs| - 1], m, p)[f.name := ReadField(w, f, m, p + f.offset)]
  }

  predicate ReadableField(f: Field, m: seq<Byte>, p: nat)
    requires p + Extent(f) <= |m|
    decreases f
  {
    match f.kind
    case StrBuf => 0 in m[p..]
    case Object(sub) => Readable(sub, m, p)
    case _ => true
  }

  /** Every described string meets a NUL before the memory ends. */
  predicate Readable(fs: seq<Field>, m: seq<Byte>, p: nat)
    requires p + Span(fs) <= |m|
    decreases fs
  {
    forall i | 0 <= i < |fs| ::
      p + fs[i].offset + Extent(fs[i]) <= |m| && ReadableField(fs[i], m, p + fs[i].offset)
  }

  lemma {:induction false} ReadKeys(w: nat, fs: seq<Field>, m: seq<Byte>, p: nat)
    requires p + Span(fs) <= |m|
    ensures Read(w, fs, m, p).Keys == Names(fs)
  {
    if fs != [] {
      ReadKeys(w, fs[..|fs| - 1], m, p);
      NamesInit(fs);
    }
  }

  lemma {:induction false} ReadAt(w: nat, fs: seq<Field>, m: seq<Byte>, p: nat, i: nat)
    requires p + Span(fs) <= |m| && Distinct(fs) && i < |fs|
    ensures p + fs[i].offset + Extent(fs[i]) <= |m| && fs[i].name in Read(w, fs, m, p)
    ensures Read(w, fs, m, p)[fs[i].name] == ReadField(w, fs[i], m, p + fs[i].offset)
  {
    SpanCovers(fs, i);
    if i < |fs| - 1 {
      var init := fs[..|fs| - 1];
      DistinctInit(fs);
      ReadAt(w, init, m, p, i);
      assert init[i] == fs[i];
    }
  }

  // ---------------------------------------------------------------- strings terminated in place

  lemma {:induction false} CStrWithin(s: seq<Byte>, n: nat)
    requires n <= |s| && 0 in s[..n]
    ensures CStr(s) == CStr(s[..n])
  {
    if s[0] != 0 {
      assert s[1..][..n - 1] == s[..n][1..];
      assert s[..n] == [s[0]] + s[1..][..n - 1];
      CStrWithin(s[1..], n - 1);
    }
  }

  lemma {:induction false} NulWithin(s: seq<Byte>, n: nat)
    requires n <= |s| && 0 in s[..n]
    ensures 0 in s
  {
    var k :| 0 <= k < n && s[..n][k] == 0;
    assert s[k] == 0;
  }

  lemma {:induction false} TextPrefix(m: seq<Byte>, p: nat, n: nat)
    requires p <= n <= |m| && 0 in m[..n][p..]
    ensures 0 in m[p..] && CStr(m[p..]) == CStr(m[..n][p..])
  {
    hide CStr;
    assert m[..n][p..] == m[p..][..n - p];
    CStrWithin(m[p..], n - p);
    NulWithin(m[p..], n - p);
  }

  lemma {:induction false} TextAt(mem: seq<Byte>, p: nat, size: nat)
    requires p + size <= |mem| && 0 in mem[p..p + size]
    ensures 0 in mem[p..] && CStr(mem[p..]) == CStr(mem[p..p + size])
  {
    hide CStr;
    assert mem[..p + size][p..] == mem[p..p + size];
    TextPrefix(mem, p, p + size);
  }

  lemma {:induction false} TerminatedText(w: nat, f: Field, m: seq<Byte>, p: nat)
    requires f.kind.StrBuf? && p + Extent(f) <= |m| && TerminatedField(f, m[p..p + Extent(f)])
    ensures ReadableField(f, m, p) && ReadField(w, f, m, p) == GetField(w, f, m[p..p + Extent(f)])
  {
    hide CStr;
    TextAt(m, p, f.size);
  }

  lemma {:induction false} TerminatedReadField(w: nat, f: Field, m: seq<Byte>, p: nat)
    requires p + Extent(f) <= |m| && TerminatedField(f, m[p..p + Extent(f)])
    ensures ReadableField(f, m, p) && ReadField(w, f, m, p) == GetField(w, f, m[p..p + Extent(f)])
    decreases f
  {
    hide CStr, Terminated, Readable, Get, Read;
    match f.kind
    case StrBuf => TerminatedText(w, f, m, p);
    case Object(sub) => TerminatedRead(w, sub, m, p);
    case _ =>
  }

  lemma {:induction false} SubSlice(s: seq<Byte>, base: nat, n: nat, off: nat, k: nat)
    requires base + n <= |s| && off + k <= n
    ensures s[base..base + n][off..off + k] == s[base + off..base + off + k]
  {
    var a, b := s[base..base + n][off..off + k], s[base + off..base + off + k];
    assert forall i | 0 <= i < k :: a[i] == s[base + (off + i)] && b[i] == s[(base + off) + i];
  }

  lemma {:induction false} TerminatedReadAt(w: nat, fs: seq<Field>, m: seq<Byte>, p: nat, n: nat, i: nat)
    requires Span(fs) <= n && p + n <= |m| && Terminated(fs, m[p..p + n]) && i < |fs|
    ensures fs[i].offset + Extent(fs[i]) <= n && ReadableField(fs[i], m, p + fs[i].offset)
    ensures ReadField(w, fs[i], m, p + fs[i].offset) == GetField(w, fs[i], Slice(m[p..p + n], fs[i]))
    decreases fs, 0
  {
    var f := fs[i];
    SubSlice(m, p, n, f.offset, Extent(f));
    assert Slice(m[p..p + n], f) == m[p + f.offset..p + f.offset + Extent(f)];
    TerminatedReadField(w, f, m, p + f.offset);
  }

  lemma {:induction false} TerminatedReadFirst(w: nat, fs: seq<Field>, m: seq<Byte>, p: nat, n: nat, k: nat)
    requires Span(fs) <= n && p + n <= |m| && Terminated(fs, m[p..p + n]) && k <= |fs|
    ensures Span(fs[..k]) <= n && Read(w, fs[..k], m, p) == Get(w, fs[..k], m[p..p + n])
    decreases fs, 1, k
  {
    hide ReadField, GetField, Extent, Terminated;
    SpanPrefix(fs, k);
    if k > 0 {
      assert fs[..k][..k - 1] == fs[..k - 1];
      TerminatedReadFirst(w, fs, m, p, n, k - 1);
      TerminatedReadAt(w, fs, m, p, n, k - 1);
    }
  }

  /** With every string terminated within its field, reading memory is decoding field by field. */
  lemma {:induction false} TerminatedRead(w: nat, fs: seq<Field>, m: seq<Byte>, p: nat)
    requires p + Span(fs) <= |m| && Terminated(fs, m[p..p + Span(fs)])
    ensures Readable(fs, m, p) && Read(w, fs, m, p) == Get(w, fs, m[p..p + Span(fs)])
    decreases fs, 2
  {
    hide Span, Extent, ReadableField, Terminated, Read, Get;
    forall i | 0 <= i < |fs|
      ensures p + fs[i].offset + Extent(fs[i]) <= |m| && ReadableField(fs[i], m, p + fs[i].offset)
    {
      TerminatedReadAt(w, fs, m, p, Span(fs), i);
    }
    TerminatedReadFirst(w, fs, m, p, Span(fs), |fs|);
    assert fs[..|fs|] == fs;
  }

  /** The same for a struct at the start of its memory. */
  lemma {:induction false} TerminatedReadWhole(w: nat, fs: seq<Field>, m: seq<Byte>)
    requires Span(fs) <= |m| && Terminated(fs, m)
    ensures Readable(fs, m, 0) && Read(w, fs, m, 0) == Get(w, fs, m)
  {
    var n := Span(fs);
    assert m[0..0 + n] == m[..n];
    TerminatedLocal(fs, m, n);
    GetLocal(w, fs, m, n);
    TerminatedRead(w, fs, m, 0);
  }

  // ---------------------------------------------------------------- a message in a larger block

  lemma {:induction false} ReadPrefixField(w: nat, f: Field, m: seq<Byte>, p: nat, n: nat)
    requires p + Extent(f) <= n <= |m| && ReadableField(f, m[..n], p)
    ensures ReadableField(f, m, p) && ReadField(w, f, m, p) == ReadField(w, f, m[..n], p)
    decreases f
  {
    match f.kind
    case StrBuf => TextPrefix(m, p, n);
    case Object(sub) => ReadPrefix(w, sub, m, p, n);
    case _ => assert m[..n][p..p + Extent(f)] == m[p..p + Extent(f)];
  }

  lemma {:induction false} ReadPrefixFirst(w: nat, fs: seq<Field>, m: seq<Byte>, p: nat, n: nat, k: nat)
    requires p + Span(fs) <= n <= |m| && Readable(fs, m[..n], p) && k <= |fs|
    ensures p + Span(fs[..k]) <= n && Read(w, fs[..k], m, p) == Read(w, fs[..k], m[..n], p)
    decreases fs, 1, k
  {
    SpanPrefix(fs, k);
    if k > 0 {
      assert fs[..k][..k - 1] == fs[..k - 1];
      ReadPrefixFirst(w, fs, m, p, n, k - 1);
      ReadPrefixField(w, fs[k - 1], m, p + fs[k - 1].offset, n);
    }
  }

  /** What can be read from the first n bytes does not depend on the bytes after them. */
  lemma {:induction false} ReadPrefix(w: nat, fs: seq<Field>, m: seq<Byte>, p: nat, n: nat)
    requires p + Span(fs) <= n <= |m| && Readable(fs, m[..n], p)
    ensures Readable(fs, m, p) && Read(w, fs, m, p) == Read(w, fs, m[..n], p)
    decreases fs, 2
  {
    forall i | 0 <= i < |fs|
      ensures p + fs[i].offset + Extent(fs[i]) <= |m| && ReadableField(fs[i], m, p + fs[i].offset)
    {
      SpanCovers(fs, i);
      ReadPrefixField(w, fs[i], m, p + fs[i].offset, n);
    }
    ReadPrefixFirst(w, fs, m, p, n, |fs|);
    assert fs[..|fs|] == fs;
  }

  lemma {:induction false} NoNul(s: seq<Byte>)
    requires 0 !in s
    ensures CStr(s) == s
  {
    if s != [] {
      assert s == [s[0]] + s[1..];
      NoNul(s[1..]);
    }
  }

  /** A string buffer is terminated if and only if what is read from it does not depend on the
      bytes that follow it. */
  lemma {:induction false} TerminatedFieldIff(f: Field, s: seq<Byte>)
    requires f.kind == StrBuf && |s| == Extent(f)
    ensures TerminatedField(f, s) <==> forall rest: seq<Byte> :: CStr(s + rest) == CStr(s)
  {
    if 0 in s {
      forall rest: seq<Byte> ensures CStr(s + rest) == CStr(s) {
        assert (s + rest)[0..|s|] == s && (s + rest)[0..] == s + rest;
        TextAt(s + rest, 0, |s|);
      }
    } else {
      NoNul(s);
      NoNul(s + [1]);
      assert CStr(s + [1]) != CStr(s);
    }
  }
}
