/** host_tools/luac.c: how the listing prints a string constant, and that Lua's own lexer reads
    the printed literal back to the same bytes. */
module PrintString {
  import opened Bytes
  import opened Wrappers

  const QUOTE: Byte := 34
  const BACKSLASH: Byte := 92

  /** isprint in the C locale. */
  predicate IsPrint(c: Byte)
  {
    32 <= c <= 126
  }

  predicate IsDigit(c: Byte)
  {
    48 <= c <= 57
  }

  /** printf("%03d") of a byte. */
  function Decimal3(c: Byte): (s: seq<Byte>)
    ensures |s| == 3
  {
    [48 + c / 100, 48 + c / 10 % 10, 48 + c % 10]
  }

  /** One arm of the switch. */
  function PrintedByte(c: Byte): (s: seq<Byte>)
  {
    if c == QUOTE then [BACKSLASH, QUOTE]
    else if c == BACKSLASH then [BACKSLASH, BACKSLASH]
    else if c == 7 then [BACKSLASH, 97]
    else if c == 8 then [BACKSLASH, 98]
    else if c == 12 then [BACKSLASH, 102]
    else if c == 10 then [BACKSLASH, 110]
    else if c == 13 then [BACKSLASH, 114]
    else if c == 9 then [BACKSLASH, 116]
    else if c == 11 then [BACKSLASH, 118]
    else if IsPrint(c) then [c]
    else [BACKSLASH] + Decimal3(c)
  }

  function PrintedBody(s: seq<Byte>): seq<Byte>
  {
    if s == [] then [] else PrintedBody(s[..|s| - 1]) + PrintedByte(s[|s| - 1])
  }

  /** PrintString: the literal it emits, opening and closing quote included. */
  method Print(s: seq<Byte>) returns (out: seq<Byte>)
    ensures out == [QUOTE] + PrintedBody(s) + [QUOTE]
    ensures ReadLiteral(out) == Some(s)
  {
    out := [QUOTE];
    var i := 0;
    while i < |s|
      invariant i <= |s| && out == [QUOTE] + PrintedBody(s[..i])
    {
      assert s[..i + 1][..i] == s[..i];
      out := out + PrintedByte(s[i]);
      i := i + 1;
    }
    assert s[..i] == s;
    out := out + [QUOTE];
    ReadPrinted(s);
  }

  // ---------------------------------------------------------------- Lua's lexer

  /** The single-character escapes of section 3.1 of the Lua reference manual. */
  function SimpleEscape(e: Byte): Option<Byte>
  {
    if e == 97 then Some(7) else if e == 98 then Some(8) else if e == 102 then Some(12)
    else if e == 110 then Some(10) else if e == 114 then Some(13) else if e == 116 then Some(9)
    else if e == 118 then Some(11) else if e in {BACKSLASH, QUOTE, 39, 10} then Some(e) else None
  }

  /** How many of the at most three characters of a decimal escape are there. */
  function DigitRun(t: seq<Byte>, most: nat): (n: nat)
    ensures n <= most && n <= |t|
    ensures forall k | 0 <= k < n :: IsDigit(t[k])
  {
    if most == 0 || t == [] || !IsDigit(t[0]) then 0 else 1 + DigitRun(t[1..], most - 1)
  }

  function DecimalValue(t: seq<Byte>): int
  {
    if t == [] then 0 else 10 * DecimalValue(t[..|t| - 1]) + (t[|t| - 1] as int - 48)
  }

  function Cons(c: Byte, rest: Option<seq<Byte>>): Option<seq<Byte>>
  {
    match rest
    case None => None
    case Some(s) => Some([c] + s)
  }

  /** The contents of a short literal whose opening quote has been read, up to a closing quote
      at the very end. Escapes \x, \u and \z are not part of this model and read as errors. */
  function ReadBody(t: seq<Byte>): Option<seq<Byte>>
    decreases |t|
  {
    if t == [] then None
    else if t[0] == QUOTE then (if |t| == 1 then Some([]) else None)
    else if t[0] in {10, 13} then None
    else if t[0] != BACKSLASH then Cons(t[0], ReadBody(t[1..]))
    else if |t| == 1 then None
    else if SimpleEscape(t[1]).Some? then Cons(SimpleEscape(t[1]).value, ReadBody(t[2..]))
    else
      var n := DigitRun(t[1..], 3);
      var v := DecimalValue(t[1..1 + n]);
      if n == 0 || v < 0 || v > 255 then None else Cons(v, ReadBody(t[1 + n..]))
  }

  function ReadLiteral(t: seq<Byte>): Option<seq<Byte>>
  {
    if t == [] || t[0] != QUOTE then None else ReadBody(t[1..])
  }

  lemma {:induction false} DigitRunThree(t: seq<Byte>)
    requires |t| >= 3 && IsDigit(t[0]) && IsDigit(t[1]) && IsDigit(t[2])
    ensures DigitRun(t, 3) == 3
  {
    var u := t[1..];
    var v := u[1..];
    assert u[0] == t[1] && v[0] == t[2];
    assert DigitRun(v, 1) == 1;
    assert DigitRun(u, 2) == 2;
  }

  lemma {:induction false} Decimal3Value(c: Byte)
    ensures DecimalValue(Decimal3(c)) == c
    ensures forall k | 0 <= k < 3 :: IsDigit(Decimal3(c)[k])
  {
    var t := Decimal3(c);
    assert t[..2] == [t[0], t[1]] && t[..2][..1] == [t[0]] && t[..2][..1][..0] == [];
    assert DecimalValue([t[0]]) == c / 100;
    assert DecimalValue(t[..2]) == 10 * (c / 100) + c / 10 % 10;
  }

  /** Reading consumes exactly what was printed for one byte, whatever follows: three digits
      are all a decimal escape takes, even before another digit. */
  lemma {:induction false} ReadByte(c: Byte, rest: seq<Byte>)
    ensures ReadBody(PrintedByte(c) + rest) == Cons(c, ReadBody(rest))
  {
    var t := PrintedByte(c) + rest;
    if |PrintedByte(c)| == 1 {
      assert t[1..] == rest;
    } else if |PrintedByte(c)| == 2 {
      assert t[2..] == rest;
    } else {
      Decimal3Value(c);
      assert t[1..] == Decimal3(c) + rest;
      DigitRunThree(t[1..]);
      assert t[1..4] == Decimal3(c);
      assert t[4..] == rest;
    }
  }

  function Prepend(s: seq<Byte>, rest: Option<seq<Byte>>): Option<seq<Byte>>
  {
    match rest
    case None => None
    case Some(r) => Some(s + r)
  }

  lemma {:induction false} ReadPrintedBody(s: seq<Byte>, rest: seq<Byte>)
    ensures ReadBody(PrintedBody(s) + rest) == Prepend(s, ReadBody(rest))
    decreases |s|
  {
    hide ReadBody, PrintedByte;
    if s == [] {
      assert PrintedBody(s) + rest == rest;
      assert ReadBody(rest).Some? ==> s + ReadBody(rest).value == ReadBody(rest).value;
    } else {
      var init, c := s[..|s| - 1], s[|s| - 1];
      ReadPrintedBody(init, PrintedByte(c) + rest);
      ReadByte(c, rest);
      assert PrintedBody(s) + rest == PrintedBody(init) + (PrintedByte(c) + rest);
      match ReadBody(rest)
      case None =>
      case Some(r) => assert init + ([c] + r) == s + r;
    }
  }

  /** For every byte string, Lua reads the printed literal back to the same bytes. */
  lemma {:induction false} ReadPrinted(s: seq<Byte>)
    ensures ReadLiteral([QUOTE] + PrintedBody(s) + [QUOTE]) == Some(s)
  {
    ReadPrintedBody(s, [QUOTE]);
    assert ReadBody([QUOTE]) == Some([]);
    assert s + [] == s;
    var t := [QUOTE] + PrintedBody(s) + [QUOTE];
    assert t[0] == QUOTE && t[1..] == PrintedBody(s) + [QUOTE];
  }

  /** Hence two different constants never print alike. */
  lemma {:induction false} PrintInjective(s: seq<Byte>, t: seq<Byte>)
    requires PrintedBody(s) == PrintedBody(t)
    ensures s == t
  {
    ReadPrinted(s);
    ReadPrinted(t);
  }

  // ---------------------------------------------------------------- what needs no escape

  /** Printable, and neither a quote nor a backslash. */
  predicate Verbatim(s: seq<Byte>)
  {
    forall k | 0 <= k < |s| :: 32 <= s[k] <= 126 && s[k] != 34 && s[k] != 92
  }

  lemma {:induction false} VerbatimLast(s: seq<Byte>)
    requires s != []
    ensures Verbatim(s) <==> Verbatim(s[..|s| - 1]) && Verbatim([s[|s| - 1]])
  {
    var init := s[..|s| - 1];
    assert s == init + [s[|s| - 1]];
    if Verbatim(init) && Verbatim([s[|s| - 1]]) {
      assert forall k | 0 <= k < |init| :: s[k] == init[k];
    }
  }

  lemma {:induction false} VerbatimByte(c: Byte)
    ensures |PrintedByte(c)| >= 1
    ensures |PrintedByte(c)| == 1 <==> Verbatim([c])
    ensures Verbatim([c]) ==> PrintedByte(c) == [c]
  {
    assert [c][0] == c;
  }

  /** A text prints as it is if and only if it is printable and has no quote and no backslash. */
  lemma {:induction false} VerbatimIff(s: seq<Byte>)
    ensures |PrintedBody(s)| >= |s| && (|PrintedBody(s)| == |s| <==> Verbatim(s))
    ensures PrintedBody(s) == s <==> Verbatim(s)
    decreases |s|
  {
    if s != [] {
      var init, c := s[..|s| - 1], s[|s| - 1];
      assert PrintedBody(s) == PrintedBody(init) + PrintedByte(c) && s == init + [c];
      hide PrintedBody, PrintedByte, Verbatim;
      VerbatimIff(init);
      VerbatimLast(s);
      VerbatimByte(c);
    }
  }

  /** The word print. */
  lemma {:induction false} PrintedWord()
    ensures PrintedBody([112, 114, 105, 110, 116]) == [112, 114, 105, 110, 116]
  {
    hide PrintedBody;
    VerbatimIff([112, 114, 105, 110, 116]);
  }

  /** Each escape, and bytes without a name. */
  lemma {:induction false} PrintedEscapes()
    ensures PrintedByte(34) == [92, 34] && PrintedByte(92) == [92, 92]
    ensures PrintedByte(7) == [92, 97] && PrintedByte(8) == [92, 98] && PrintedByte(12) == [92, 102]
    ensures PrintedByte(10) == [92, 110] && PrintedByte(13) == [92, 114] && PrintedByte(9) == [92, 116]
    ensures PrintedByte(11) == [92, 118] && PrintedByte(27) == [92, 48, 50, 55] && PrintedByte(255) == [92, 50, 53, 53]
  {
  }
}
