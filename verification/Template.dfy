/** scripts/luaz_gen.py: placeholder substitution, and the byte array of bytecode mode. */
module Template {
  import opened Bytes
  import opened Wrappers

  // ---------------------------------------------------------------- str.replace

  /** Python's t.replace(pat, val): leftmost, not overlapping, never rescanning val. */
  function Replace(t: string, pat: string, val: string): string
    requires pat != ""
    decreases |t|
  {
    if |t| < |pat| then t
    else if pat <= t then val + Replace(t[|pat|..], pat, val)
    else [t[0]] + Replace(t[1..], pat, val)
  }

  // ---------------------------------------------------------------- templates

  /** A template text: literal text, then possibly a placeholder or a stray '@' (as in the
      comments of the templates) and more template. */
  datatype Template =
    | Text(text: string)
    | Hole(text: string, name: string, rest: Template)
    | Stray(text: string, rest: Template)

  function Mark(name: string): (m: string)
    ensures |m| == |name| + 2
  {
    "@" + name + "@"
  }

  function Render(t: Template): string
  {
    match t
    case Text(s) => s
    case Hole(s, n, r) => s + (Mark(n) + Render(r))
    case Stray(s, r) => s + ("@" + Render(r))
  }

  predicate NameChar(c: char)
  {
    'A' <= c <= 'Z' || c == '_'
  }

  predicate Name(s: string)
  {
    forall k | 0 <= k < |s| :: NameChar(s[k])
  }

  /** The text up to the next '@' could not be mistaken for a placeholder name: it has a
      character such as a blank or a newline. */
  predicate Separated(t: Template)
  {
    t.Text? || !Name(t.text)
  }

  /** The template is what it looks like: texts hold no '@', and no two consecutive '@' that
      belong to different placeholders enclose a name. */
  predicate Clean(t: Template)
  {
    && '@' !in t.text
    && (t.Hole? ==> Name(t.name))
    && (!t.Text? ==> Clean(t.rest) && Separated(t.rest))
  }

  function Prefix(p: string, t: Template): Template
  {
    match t
    case Text(s) => Text(p + s)
    case Hole(s, n, r) => Hole(p + s, n, r)
    case Stray(s, r) => Stray(p + s, r)
  }

  /** Substitution on the template itself, every placeholder of m at once. */
  function Fill(t: Template, m: map<string, string>): Template
  {
    match t
    case Text(s) => t
    case Hole(s, n, r) => if n in m then Prefix(s + m[n], Fill(r, m)) else Hole(s, n, Fill(r, m))
    case Stray(s, r) => Stray(s, Fill(r, m))
  }

  lemma {:induction false} RenderPrefix(p: string, t: Template)
    ensures Render(Prefix(p, t)) == p + Render(t)
  {
    match t
    case Text(s) =>
    case Hole(s, n, r) => assert p + s + (Mark(n) + Render(r)) == p + (s + (Mark(n) + Render(r)));
    case Stray(s, r) => assert p + s + ("@" + Render(r)) == p + (s + ("@" + Render(r)));
  }

  /** Text without '@' is copied. */
  lemma {:induction false} ReplaceSkip(s: string, rest: string, x: string, val: string)
    requires '@' !in s
    ensures Replace(s + rest, Mark(x), val) == s + Replace(rest, Mark(x), val)
    decreases |s|
  {
    var t := s + rest;
    if s == "" {
      assert t == rest;
    } else {
      assert t[0] == s[0] && t[1..] == s[1..] + rest;
      assert Mark(x)[0] == '@';
      ReplaceSkip(s[1..], rest, x, val);
      if |t| < |Mark(x)| {
        ReplaceShort(rest, x, val);
      } else {
        assert [s[0]] + (s[1..] + Replace(rest, Mark(x), val)) == s + Replace(rest, Mark(x), val);
      }
    }
  }

  lemma {:induction false} ReplaceShort(t: string, x: string, val: string)
    requires |t| < |Mark(x)|
    ensures Replace(t, Mark(x), val) == t
  {
  }

  lemma {:induction false} ReplaceHit(rest: string, x: string, val: string)
    ensures Replace(Mark(x) + rest, Mark(x), val) == val + Replace(rest, Mark(x), val)
  {
    assert (Mark(x) + rest)[|Mark(x)|..] == rest;
  }

  /** A character that no match starts at is copied. */
  lemma {:induction false} ReplaceMiss(c: char, rest: string, x: string, val: string)
    requires !(Mark(x) <= [c] + rest)
    ensures Replace([c] + rest, Mark(x), val) == [c] + Replace(rest, Mark(x), val)
  {
    assert ([c] + rest)[1..] == rest;
    if |[c] + rest| < |Mark(x)| {
      ReplaceShort(rest, x, val);
    }
  }

  /** Up to the first mark two texts agree only if they are the same. */
  lemma {:induction false} UpToMark(x: string, s: string, rest: string)
    requires '@' !in x && '@' !in s && x + "@" <= s + "@" + rest
    ensures x == s
  {
    var t := s + "@" + rest;
    assert t[..|x| + 1] == x + "@";
    assert t[|x|] == '@' && t[|s|] == '@';
    assert forall k | 0 <= k < |s| :: t[k] == s[k] && s[k] != '@';
    assert forall k | 0 <= k < |x| :: t[k] == x[k] && x[k] != '@';
    assert |x| == |s|;
  }

  /** A match at the opening mark of a placeholder is that placeholder. */
  lemma {:induction false} OpeningMark(n: string, x: string, rest: string)
    requires Name(n) && Name(x) && Mark(x) <= Mark(n) + rest
    ensures n == x
  {
    var t := Mark(n) + rest;
    assert t[1..] == n + "@" + rest && Mark(x)[1..] == x + "@";
    UpToMark(x, n, rest);
  }

  lemma {:induction false} MarkTail(x: string, t: string)
    requires Mark(x) <= "@" + t
    ensures x + "@" <= t
  {
    assert ("@" + t)[1..] == t && Mark(x)[1..] == x + "@";
  }

  lemma {:induction false} NameNoMark(x: string)
    requires Name(x)
    ensures '@' !in x
  {
  }

  /** A match at a closing mark takes the text up to the next placeholder as a name. */
  lemma {:induction false} ClosingMark(r: Template, x: string)
    requires Clean(r) && Name(x) && Mark(x) <= "@" + Render(r)
    ensures !r.Text? && r.text == x
  {
    MarkTail(x, Render(r));
    NameNoMark(x);
    assert (x + "@")[|x|] == '@';
    match r
    case Text(s) =>
    case Hole(s, n, r') =>
      assert Render(r) == s + "@" + (n + "@" + Render(r'));
      hide Render, Clean, Mark, Name;
      UpToMark(x, s, n + "@" + Render(r'));
    case Stray(s, r') =>
      assert Render(r) == s + "@" + Render(r');
      hide Render, Clean, Mark, Name;
      UpToMark(x, s, Render(r'));
  }

  lemma {:induction false} ReplaceStray(r: Template, x: string, val: string)
    requires Clean(r) && Separated(r) && Name(x)
    ensures Replace("@" + Render(r), Mark(x), val) == "@" + Replace(Render(r), Mark(x), val)
  {
    if Mark(x) <= "@" + Render(r) {
      ClosingMark(r, x);
    }
    ReplaceMiss('@', Render(r), x, val);
  }

  /** str.replace on a rendered template fills exactly that placeholder, even with a value that
      contains marks of its own. */
  lemma {:induction false} ReplaceIsFill(t: Template, x: string, val: string)
    requires Clean(t) && Name(x)
    ensures Replace(Render(t), Mark(x), val) == Render(Fill(t, map[x := val]))
    decreases t
  {
    var m := map[x := val];
    match t
    case Text(s) =>
      ReplaceSkip(s, "", x, val);
      assert s + "" == s;
      ReplaceShort("", x, val);
    case Hole(s, n, r) =>
      assert Render(t) == s + (Mark(n) + Render(r));
      assert Fill(t, m) == if n == x then Prefix(s + val, Fill(r, m)) else Hole(s, n, Fill(r, m));
      assert Render(Hole(s, n, Fill(r, m))) == s + (Mark(n) + Render(Fill(r, m)));
      hide Replace, Render, Fill, Prefix, Mark, Name, Separated;
      ReplaceIsFill(r, x, val);
      ReplaceSkip(s, Mark(n) + Render(r), x, val);
      if n == x {
        ReplaceHit(Render(r), x, val);
        RenderPrefix(s + val, Fill(r, m));
        assert s + (val + Render(Fill(r, m))) == s + val + Render(Fill(r, m));
      } else {
        ReplaceOther(n, r, x, val);
      }
    case Stray(s, r) =>
      assert Render(Fill(t, m)) == s + ("@" + Render(Fill(r, m)));
      hide Replace, Fill, Prefix, Mark, Name, Separated;
      ReplaceIsFill(r, x, val);
      ReplaceSkip(s, "@" + Render(r), x, val);
      ReplaceStray(r, x, val);
  }

  /** Another placeholder is copied. */
  lemma {:induction false} ReplaceOther(n: string, r: Template, x: string, val: string)
    requires Name(n) && Name(x) && n != x && Clean(r) && Separated(r)
    ensures Replace(Mark(n) + Render(r), Mark(x), val) == Mark(n) + Replace(Render(r), Mark(x), val)
  {
    var tail := Render(r);
    var inner := n + (['@'] + tail);
    assert Mark(n) + tail == ['@'] + inner;
    assert !(Mark(x) <= ['@'] + inner) by {
      if Mark(x) <= Mark(n) + tail {
        OpeningMark(n, x, tail);
      }
    }
    assert !(Mark(x) <= ['@'] + tail) by {
      if Mark(x) <= "@" + tail {
        ClosingMark(r, x);
      }
    }
    assert '@' !in n;
    CopyMark(n, tail, x, val);
  }

  lemma {:induction false} CopyMark(n: string, tail: string, x: string, val: string)
    requires '@' !in n && !(Mark(x) <= ['@'] + (n + (['@'] + tail))) && !(Mark(x) <= ['@'] + tail)
    ensures Replace(['@'] + (n + (['@'] + tail)), Mark(x), val) == Mark(n) + Replace(tail, Mark(x), val)
  {
    hide Replace;
    var r := Replace(tail, Mark(x), val);
    ReplaceMiss('@', tail, x, val);
    ReplaceSkip(n, ['@'] + tail, x, val);
    ReplaceMiss('@', n + (['@'] + tail), x, val);
    assert ['@'] + (n + (['@'] + r)) == Mark(n) + r;
  }

  lemma {:induction false} PrefixClean(p: string, t: Template)
    requires Clean(t) && '@' !in p
    ensures Clean(Prefix(p, t))
  {
  }

  lemma {:induction false} FillClean(t: Template, x: string, val: string)
    requires Clean(t) && Name(x) && '@' !in val
    ensures Clean(Fill(t, map[x := val]))
    decreases t
  {
    if !t.Text? {
      FillClean(t.rest, x, val);
      FillSeparated(t.rest, x, val);
      if t.Hole? && t.name == x {
        PrefixClean(t.text + val, Fill(t.rest, map[x := val]));
      }
    }
  }

  lemma {:induction false} FillSeparated(t: Template, x: string, val: string)
    requires Clean(t) && Separated(t)
    ensures Separated(Fill(t, map[x := val]))
  {
    if t.Hole? && t.name == x {
      var p, f := t.text + val, Fill(t.rest, map[x := val]);
      var k :| 0 <= k < |t.text| && !NameChar(t.text[k]);
      assert Prefix(p, f).text[k] == t.text[k];
    }
  }

  lemma {:induction false} FillPrefix(p: string, t: Template, m: map<string, string>)
    ensures Fill(Prefix(p, t), m) == Prefix(p, Fill(t, m))
  {
    match t
    case Text(s) =>
    case Hole(s, n, r) =>
      if n in m {
        PrefixPrefix(p, s + m[n], Fill(r, m));
        assert p + s + m[n] == p + (s + m[n]);
      }
    case Stray(s, r) =>
  }

  lemma {:induction false} PrefixPrefix(p: string, q: string, t: Template)
    ensures Prefix(p, Prefix(q, t)) == Prefix(p + q, t)
  {
    assert p + (q + t.text) == p + q + t.text;
  }

  /** Filling one placeholder after the others is filling them together. */
  lemma {:induction false} FillThenFill(t: Template, m: map<string, string>, x: string, val: string)
    requires x !in m
    ensures Fill(Fill(t, m), map[x := val]) == Fill(t, m[x := val])
    decreases t
  {
    if !t.Text? {
      FillThenFill(t.rest, m, x, val);
      if t.Hole? && t.name in m {
        FillPrefix(t.text + m[t.name], Fill(t.rest, m), map[x := val]);
      }
    }
  }

  // ---------------------------------------------------------------- main

  const FILE_NAME := "FILE_NAME"
  const FILE_NAME_UPPER := "FILE_NAME_UPPER"
  const LUA_CONTENT := "LUA_CONTENT"
  const LUA_BYTECODE := "LUA_BYTECODE"
  const LUA_BYTECODE_LEN := "LUA_BYTECODE_LEN"

  /** The replacements of source mode, in the order main makes them. */
  method GenerateSource(template: string, name: string, upper: string, content: string) returns (output: string)
    ensures forall t | Clean(t) && Render(t) == template && '@' !in name && '@' !in upper ::
              output == Render(Fill(t, map["FILE_NAME" := name, "FILE_NAME_UPPER" := upper, "LUA_CONTENT" := content]))
  {
    output := Replace(template, Mark(FILE_NAME), name);
    output := Replace(output, Mark(FILE_NAME_UPPER), upper);
    output := Replace(output, Mark(LUA_CONTENT), content);
    forall t | Clean(t) && Render(t) == template && '@' !in name && '@' !in upper
      ensures output == Render(Fill(t, map[FILE_NAME := name, FILE_NAME_UPPER := upper, LUA_CONTENT := content]))
    {
      InOrder(t, name, upper, LUA_CONTENT, content);
    }
  }

  lemma {:induction false} InOrder(t: Template, name: string, upper: string, x: string, val: string)
    requires Clean(t) && '@' !in name && '@' !in upper && Name(x) && x != FILE_NAME && x != FILE_NAME_UPPER
    ensures Replace(Replace(Replace(Render(t), Mark(FILE_NAME), name), Mark(FILE_NAME_UPPER), upper), Mark(x), val)
            == Render(Fill(t, map[FILE_NAME := name, FILE_NAME_UPPER := upper, x := val]))
    ensures '@' !in val ==> Clean(Fill(t, map[FILE_NAME := name, FILE_NAME_UPPER := upper, x := val]))
  {
    hide Replace;
    var t1 := Fill(t, map[FILE_NAME := name]);
    ReplaceIsFill(t, FILE_NAME, name);
    FillClean(t, FILE_NAME, name);
    var t2 := Fill(t1, map[FILE_NAME_UPPER := upper]);
    ReplaceIsFill(t1, FILE_NAME_UPPER, upper);
    FillClean(t1, FILE_NAME_UPPER, upper);
    ReplaceIsFill(t2, x, val);
    if '@' !in val {
      FillClean(t2, x, val);
    }
    var m1 := map[FILE_NAME := name];
    var m2 := m1[FILE_NAME_UPPER := upper];
    FillThenFill(t, m1, FILE_NAME_UPPER, upper);
    FillThenFill(t, m2, x, val);
    assert m2[x := val] == map[FILE_NAME := name, FILE_NAME_UPPER := upper, x := val];
  }

  /** The replacements of bytecode mode, in the order main makes them. */
  method GenerateBytecode(template: string, name: string, upper: string, data: seq<Byte>) returns (output: string)
    ensures forall t | Clean(t) && Render(t) == template && '@' !in name && '@' !in upper ::
              output == Render(Fill(t, map["FILE_NAME" := name, "FILE_NAME_UPPER" := upper,
                                           "LUA_BYTECODE" := HexList(data), "LUA_BYTECODE_LEN" := Decimal(|data|)]))
  {
    output := Replace(template, Mark(FILE_NAME), name);
    output := Replace(output, Mark(FILE_NAME_UPPER), upper);
    output := Replace(output, Mark(LUA_BYTECODE), HexList(data));
    output := Replace(output, Mark(LUA_BYTECODE_LEN), Decimal(|data|));
    forall t | Clean(t) && Render(t) == template && '@' !in name && '@' !in upper
      ensures output == Render(Fill(t, map[FILE_NAME := name, FILE_NAME_UPPER := upper,
                                           LUA_BYTECODE := HexList(data), LUA_BYTECODE_LEN := Decimal(|data|)]))
    {
      var m := map[FILE_NAME := name, FILE_NAME_UPPER := upper, LUA_BYTECODE := HexList(data)];
      HexListPlain(data);
      InOrder(t, name, upper, LUA_BYTECODE, HexList(data));
      ReplaceIsFill(Fill(t, m), LUA_BYTECODE_LEN, Decimal(|data|));
      FillThenFill(t, m, LUA_BYTECODE_LEN, Decimal(|data|));
    }
  }

  // ---------------------------------------------------------------- numbers as text

  const DIGITS := "0123456789abcdef"

  /** str(n) */
  function Decimal(n: nat): (s: string)
    ensures s != "" && forall k | 0 <= k < |s| :: s[k] in DIGITS[..10]
  {
    if n < 10 then [DIGITS[n]] else Decimal(n / 10) + [DIGITS[n % 10]]
  }

  /** f"0x{b:02x}" */
  function Hex(b: Byte): (s: string)
    ensures |s| == 4
  {
    "0x" + [DIGITS[b / 16], DIGITS[b % 16]]
  }

  /** ", ".join(...) */
  function HexList(data: seq<Byte>): string
  {
    if data == [] then "" else if |data| == 1 then Hex(data[0]) else Hex(data[0]) + ", " + HexList(data[1..])
  }

  lemma {:induction false} HexListPlain(data: seq<Byte>)
    ensures '@' !in HexList(data)
  {
    if |data| > 1 {
      HexListPlain(data[1..]);
    }
  }

  function DigitOf(c: char): Option<int>
  {
    if '0' <= c <= '9' then Some(c as int - '0' as int)
    else if 'a' <= c <= 'f' then Some(c as int - 'a' as int + 10)
    else None
  }

  /** A C initialiser list of two-digit hexadecimal constants. */
  function ParseList(t: string): Option<seq<Byte>>
    decreases |t|
  {
    if t == "" then Some([])
    else if |t| < 4 || t[0] != '0' || t[1] != 'x' || DigitOf(t[2]).None? || DigitOf(t[3]).None? then None
    else
      var b := 16 * DigitOf(t[2]).value + DigitOf(t[3]).value;
      if !(0 <= b < 256) then None
      else if |t| == 4 then Some([b])
      else if |t| < 7 || t[4] != ',' || t[5] != ' ' then None
      else match ParseList(t[6..])
        case None => None
        case Some(rest) => Some([b] + rest)
  }

  function ParseDecimal(t: string): Option<int>
  {
    if t == "" then None
    else if DigitOf(t[|t| - 1]).None? || DigitOf(t[|t| - 1]).value > 9 then None
    else if |t| == 1 then DigitOf(t[0])
    else match ParseDecimal(t[..|t| - 1])
      case None => None
      case Some(n) => Some(10 * n + DigitOf(t[|t| - 1]).value)
  }

  lemma {:induction false} DigitRoundTrip(d: nat)
    requires d < 16
    ensures DigitOf(DIGITS[d]) == Some(d)
  {
    assert d == 0 || d == 1 || d == 2 || d == 3 || d == 4 || d == 5 || d == 6 || d == 7
        || d == 8 || d == 9 || d == 10 || d == 11 || d == 12 || d == 13 || d == 14 || d == 15;
  }

  lemma {:induction false} ParseOne(b: Byte, tail: string)
    ensures var t := Hex(b) + tail;
            && t[0] == '0' && t[1] == 'x' && DigitOf(t[2]) == Some(b / 16) && DigitOf(t[3]) == Some(b % 16)
            && t[4..] == tail
  {
    DigitRoundTrip(b / 16);
    DigitRoundTrip(b % 16);
  }

  lemma {:induction false} ParseMore(b: Byte, rest: string)
    requires rest != ""
    ensures ParseList(Hex(b) + (", " + rest)) ==
            match ParseList(rest) case None => None case Some(s) => Some([b] + s)
  {
    ParseOne(b, ", " + rest);
    var t := Hex(b) + (", " + rest);
    assert t[6..] == t[4..][2..] == rest;
  }

  lemma {:induction false} HexListFirst(data: seq<Byte>)
    requires |data| > 1
    ensures HexList(data) == Hex(data[0]) + (", " + HexList(data[1..])) && HexList(data[1..]) != ""
    ensures [data[0]] + data[1..] == data
  {
  }

  lemma {:induction false} ParseSingle(b: Byte)
    ensures ParseList(Hex(b)) == Some([b])
  {
    ParseOne(b, "");
    assert Hex(b) + "" == Hex(b);
  }

  /** The emitted array is the bytecode, byte for byte. */
  lemma {:induction false} HexRoundTrip(data: seq<Byte>)
    ensures ParseList(HexList(data)) == Some(data)
  {
    if |data| == 1 {
      ParseSingle(data[0]);
      assert data == [data[0]];
    } else if data != [] {
      hide ParseList, HexList, Hex;
      HexListFirst(data);
      HexRoundTrip(data[1..]);
      ParseMore(data[0], HexList(data[1..]));
    }
  }

  lemma {:induction false} ParseDigit(init: string, c: char)
    requires DigitOf(c).Some? && DigitOf(c).value <= 9 && init != "" && ParseDecimal(init).Some?
    ensures ParseDecimal(init + [c]) == Some(10 * ParseDecimal(init).value + DigitOf(c).value)
  {
    assert (init + [c])[..|init|] == init;
  }

  lemma {:induction false} OneDigit(d: nat)
    requires d < 10
    ensures ParseDecimal(Decimal(d)) == Some(d)
  {
    DigitRoundTrip(d);
    assert Decimal(d) == [DIGITS[d]];
    hide Decimal, DigitOf;
  }

  lemma {:induction false} LastDigit(n: nat) returns (q: nat, c: char)
    requires n >= 10
    ensures q < n && Decimal(n) == Decimal(q) + [c]
    ensures DigitOf(c).Some? && 0 <= DigitOf(c).value <= 9 && n == 10 * q + DigitOf(c).value
  {
    q, c := n / 10, DIGITS[n % 10];
    DigitRoundTrip(n % 10);
  }

  /** The emitted length is a numeral for the array's length. */
  lemma {:induction false} LengthRoundTrip(n: nat)
    ensures ParseDecimal(Decimal(n)) == Some(n)
  {
    if n < 10 {
      OneDigit(n);
    } else {
      hide ParseDecimal, Decimal, DigitOf;
      var q, c := LastDigit(n);
      LengthRoundTrip(q);
      ParseDigit(Decimal(q), c);
    }
  }

  lemma {:induction false} Numerals()
    ensures Hex(0x0A) == "0x0a" && Hex(0xB1) == "0xb1" && Decimal(407) == "407"
    ensures HexList([0x1B, 0x4C]) == "0x1b, 0x4c"
  {
    assert Decimal(4) == "4" && Decimal(40) == "40";
    assert Hex(0x1B) == "0x1b" && Hex(0x4C) == "0x4c";
    assert [0x1B, 0x4C][1..] == [0x4C];
  }
}
