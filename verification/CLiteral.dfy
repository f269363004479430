/** scripts/luaz_gen.py, source mode: a Lua script as the body of a C string literal, and what
    a C compiler reads out of it. */
module CLiteral {
  import opened Wrappers

  const BACKSLASH: char := '\\'
  const QUOTE: char := '\"'
  const NL: char := '\n'

  // ---------------------------------------------------------------- str.splitlines

  /** The line boundaries of Python's splitlines. */
  predicate Break(c: char)
  {
    c == '\n' || c == '\r' || c as int in {0x0B, 0x0C, 0x1C, 0x1D, 0x1E, 0x85, 0x2028, 0x2029}
  }

  function LineLength(s: string): (n: nat)
    ensures n <= |s| && (forall k | 0 <= k < n :: !Break(s[k])) && (n < |s| ==> Break(s[n]))
  {
    if s == "" || Break(s[0]) then 0 else 1 + LineLength(s[1..])
  }

  function SplitLines(s: string): (lines: seq<string>)
    ensures forall i, k | 0 <= i < |lines| && 0 <= k < |lines[i]| :: !Break(lines[i][k])
    decreases |s|
  {
    if s == "" then []
    else
      var n := LineLength(s);
      if n == |s| then [s]
      else if s[n] == '\r' && n + 1 < |s| && s[n + 1] == NL then [s[..n]] + SplitLines(s[n + 2..])
      else [s[..n]] + SplitLines(s[n + 1..])
  }

  /** Text as an editor shows it: tabs and the ASCII characters from blank to tilde. */
  predicate Printable(s: string)
  {
    forall k | 0 <= k < |s| :: s[k] == '\t' || ' ' <= s[k] <= '~'
  }

  /** Every line followed by the line end. */
  function Ended(lines: seq<string>, end: string): string
  {
    if lines == [] then "" else lines[0] + end + Ended(lines[1..], end)
  }

  lemma {:induction false} LineLengthAt(s: string, n: nat)
    requires n <= |s| && (forall k | 0 <= k < n :: !Break(s[k])) && (n < |s| ==> Break(s[n]))
    ensures LineLength(s) == n
  {
  }

  lemma {:induction false} PrintableNoBreak(s: string)
    requires Printable(s)
    ensures forall k | 0 <= k < |s| :: !Break(s[k]) && s[k] != NL && s[k] != '\r'
  {
  }

  lemma {:induction false} SplitEnded(line: string, end: string, rest: string)
    requires Printable(line) && (end == "\n" || end == "\r\n" || (end == "\r" && (rest == "" || rest[0] != '\n')))
    ensures SplitLines(line + end + rest) == [line] + SplitLines(rest)
  {
    var s, n := line + end + rest, |line|;
    PrintableNoBreak(line);
    assert s[n] == end[0] && s[..n] == line && forall k | 0 <= k < n :: s[k] == line[k];
    LineLengthAt(s, n);
    assert end == "\r\n" ==> s[n + 1] == '\n' && s[n + 2..] == rest;
    assert end != "\r\n" ==> s[n + 1..] == rest;
  }

  /** Lines of printable text, each ended by a line feed, a carriage return or both, split into
      just these lines; a last line without a line end is one more. */
  lemma {:induction false} SplitJoined(lines: seq<string>, end: string, last: string)
    requires (forall i | 0 <= i < |lines| :: Printable(lines[i])) && Printable(last)
    requires end == "\n" || end == "\r\n" || end == "\r"
    ensures SplitLines(Ended(lines, end) + last) == lines + (if last == "" then [] else [last])
    decreases |lines|
  {
    if lines == [] {
      PrintableNoBreak(last);
      LineLengthAt(last, |last|);
      assert "" + last == last;
    } else {
      var rest := Ended(lines[1..], end) + last;
      assert Ended(lines, end) + last == lines[0] + end + rest;
      assert lines == [lines[0]] + lines[1..];
      SplitJoined(lines[1..], end, last);
      EndedFirst(lines[1..], end, last);
      hide SplitLines, Ended, Printable;
      SplitEnded(lines[0], end, rest);
    }
  }

  lemma {:induction false} EndedFirst(lines: seq<string>, end: string, last: string)
    requires (forall i | 0 <= i < |lines| :: Printable(lines[i])) && Printable(last)
    requires end == "\n" || end == "\r\n" || end == "\r"
    ensures var rest := Ended(lines, end) + last; end == "\r" ==> rest == "" || rest[0] != '\n'
  {
    if lines == [] {
      PrintableNoBreak(last);
    } else {
      PrintableNoBreak(lines[0]);
    }
  }

  /** The characters that end a line: line feed and carriage return, the vertical tab and the
      form feed, three of the ASCII separators, and three Unicode characters. */
  lemma {:induction false} BoundaryIff(c: char)
    ensures SplitLines(['a', c, 'b']) == ["a", "b"]
            <==> c as int in {10, 11, 12, 13, 28, 29, 30, 0x85, 0x2028, 0x2029}
    ensures c as int !in {10, 11, 12, 13, 28, 29, 30, 0x85, 0x2028, 0x2029} ==> SplitLines(['a', c, 'b']) == [['a', c, 'b']]
  {
    var s := ['a', c, 'b'];
    LineLengthAt("b", 1);
    assert SplitLines("b") == ["b"];
    if Break(c) {
      LineLengthAt(s, 1);
      assert s[..1] == "a" && s[2..] == "b";
      assert SplitLines(s) == ["a"] + SplitLines("b");
    } else {
      LineLengthAt(s, 3);
    }
  }

  // ---------------------------------------------------------------- lua_to_c_string

  /** line.replace('"', '\\"') */
  function EscapeQuotes(s: string): string
  {
    if s == "" then "" else (if s[0] == QUOTE then [BACKSLASH, QUOTE] else [s[0]]) + EscapeQuotes(s[1..])
  }

  /** line.replace("\r", "") */
  function DropReturns(s: string): string
  {
    if s == "" then "" else (if s[0] == '\r' then "" else [s[0]]) + DropReturns(s[1..])
  }

  function LineText(line: string): string
  {
    DropReturns(EscapeQuotes(line)) + [BACKSLASH, 'n']
  }

  const SEPARATOR: string := [' ', BACKSLASH, NL]
  const OPENING: string := [BACKSLASH, NL]

  /** str.join */
  function Join(sep: string, parts: seq<string>): string
  {
    if parts == [] then "" else if |parts| == 1 then parts[0] else parts[0] + sep + Join(sep, parts[1..])
  }

  function LineTexts(lines: seq<string>): (r: seq<string>)
    ensures |r| == |lines|
  {
    if lines == [] then [] else [LineText(lines[0])] + LineTexts(lines[1..])
  }

  method LuaToCString(script: string) returns (text: string)
    ensures text == Join(SEPARATOR, [OPENING] + LineTexts(SplitLines(script)))
    ensures Compile(text) == Some(Expected(SplitLines(script))) <==> BACKSLASH !in script
  {
    var lines := SplitLines(script);
    var strings := [OPENING];
    var i := 0;
    while i < |lines|
      invariant i <= |lines| && strings + LineTexts(lines[i..]) == [OPENING] + LineTexts(lines)
    {
      var line := lines[i];
      line := EscapeQuotes(line);
      line := DropReturns(line);
      strings := strings + [line + [BACKSLASH, 'n']];
      i := i + 1;
    }
    assert lines[i..] == [] && strings + [] == strings;
    text := Join(SEPARATOR, strings);
    EmbedIff(lines);
    BackslashSurvives(script);
  }

  // ---------------------------------------------------------------- the C compiler

  /** Translation phase 2 of ISO/IEC 9899:2011, section 5.1.1.2: a backslash immediately before
      a newline disappears together with it. */
  function Splice(t: string): string
    decreases |t|
  {
    if t == "" then ""
    else if |t| >= 2 && t[0] == BACKSLASH && t[1] == NL then Splice(t[2..])
    else [t[0]] + Splice(t[1..])
  }

  /** Simple escape sequences, section 6.4.4.4. */
  function SimpleEscape(c: char): Option<char>
  {
    if c in {'\'', QUOTE, '?', BACKSLASH} then Some(c)
    else if c == 'a' then Some(7 as char) else if c == 'b' then Some(8 as char)
    else if c == 'f' then Some(12 as char) else if c == 'n' then Some(NL)
    else if c == 'r' then Some('\r') else if c == 't' then Some('\t')
    else if c == 'v' then Some(11 as char) else None
  }

  function DigitValue(c: char): int
  {
    if '0' <= c <= '9' then c as int - '0' as int
    else if 'a' <= c <= 'f' then c as int - 'a' as int + 10
    else if 'A' <= c <= 'F' then c as int - 'A' as int + 10
    else 99
  }

  /** How many digits of the base lead t, at most `most`. */
  function DigitRun(t: string, base: int, most: nat): (n: nat)
    ensures n <= |t| && n <= most
    ensures base <= 16 ==> forall k | 0 <= k < n :: t[k] != QUOTE && t[k] != BACKSLASH && t[k] != NL
  {
    if most == 0 || t == "" || DigitValue(t[0]) >= base then 0 else 1 + DigitRun(t[1..], base, most - 1)
  }

  function NumberValue(t: string, base: int): int
  {
    if t == "" then 0 else base * NumberValue(t[..|t| - 1], base) + DigitValue(t[|t| - 1])
  }

  /** The length of the escape sequence at the start of t and its character; None when there is
      no such sequence or its value does not fit a char. Universal character names read as
      errors here. */
  function EscapeAt(t: string): (r: Option<(nat, char)>)
    ensures r.Some? ==> 2 <= r.value.0 <= |t|
  {
    if |t| < 2 then None
    else if SimpleEscape(t[1]).Some? then Some((2, SimpleEscape(t[1]).value))
    else if t[1] == 'x' then
      var n := DigitRun(t[2..], 16, |t| - 2);
      var v := NumberValue(t[2..2 + n], 16);
      if n == 0 || !(0 <= v < 256) then None else Some((2 + n, v as char))
    else
      var n := DigitRun(t[1..], 8, 3);
      var v := NumberValue(t[1..1 + n], 8);
      if n == 0 || !(0 <= v < 256) then None else Some((1 + n, v as char))
  }

  function Cons(c: char, rest: Option<string>): Option<string>
  {
    match rest
    case None => None
    case Some(s) => Some([c] + s)
  }

  /** The characters of a string literal with body t, section 6.4.5; None when t is not a
      literal body. */
  function Decode(t: string): Option<string>
    decreases |t|
  {
    if t == "" then Some("")
    else if t[0] == QUOTE || t[0] == NL then None
    else if t[0] != BACKSLASH then Cons(t[0], Decode(t[1..]))
    else match EscapeAt(t)
      case None => None
      case Some(e) => Cons(e.1, Decode(t[e.0..]))
  }

  function Compile(text: string): Option<string>
  {
    Decode(Splice(text))
  }

  // ---------------------------------------------------------------- the round trip

  /** The script as it is meant to arrive: every line with a leading space and a newline. */
  function Expected(lines: seq<string>): string
  {
    if lines == [] then "" else " " + lines[0] + [NL] + Expected(lines[1..])
  }

  function EncodeChar(c: char): (e: string)
    ensures |e| >= 1
  {
    if c == NL then [BACKSLASH, 'n'] else if c == QUOTE then [BACKSLASH, QUOTE] else [c]
  }

  /** The encoding the generator amounts to, character by character. */
  function Encode(u: string): string
  {
    if u == "" then "" else EncodeChar(u[0]) + Encode(u[1..])
  }

  predicate Unbroken(s: string)
  {
    forall k | 0 <= k < |s| :: s[k] != NL && s[k] != '\r'
  }

  lemma {:induction false} Associate(a: string, b: string, c: string)
    ensures a + b + c == a + (b + c)
  {
  }

  lemma {:induction false} EncodeAppend(u: string, v: string)
    ensures Encode(u + v) == Encode(u) + Encode(v)
  {
    if u == "" {
      assert u + v == v;
    } else {
      assert (u + v)[1..] == u[1..] + v && (u + v)[0] == u[0];
      assert Encode(u + v) == EncodeChar(u[0]) + Encode(u[1..] + v);
      assert Encode(u) == EncodeChar(u[0]) + Encode(u[1..]);
      hide Encode, EncodeChar;
      EncodeAppend(u[1..], v);
      Associate(EncodeChar(u[0]), Encode(u[1..]), Encode(v));
    }
  }

  lemma {:induction false} LineIsEncoded(line: string)
    requires Unbroken(line)
    ensures DropReturns(EscapeQuotes(line)) == Encode(line)
  {
    if line != "" {
      LineIsEncoded(line[1..]);
      var rest := EscapeQuotes(line[1..]);
      if line[0] == QUOTE {
        var t := [BACKSLASH, QUOTE] + rest;
        assert t[1..] == [QUOTE] + rest && t[1..][1..] == rest;
        assert DropReturns(t[1..]) == [QUOTE] + DropReturns(rest);
      } else {
        assert ([line[0]] + rest)[1..] == rest;
      }
    }
  }

  lemma {:induction false} SpliceOne(c: char, rest: string)
    requires c != BACKSLASH || rest == "" || rest[0] != NL
    ensures Splice([c] + rest) == [c] + Splice(rest)
  {
    assert ([c] + rest)[1..] == rest;
  }

  lemma {:induction false} SpliceChar(c: char, rest: string)
    requires c != NL && (rest == "" || rest[0] != NL)
    ensures Splice(EncodeChar(c) + rest) == EncodeChar(c) + Splice(rest)
  {
    if c == QUOTE {
      SpliceOne(QUOTE, rest);
      SpliceOne(BACKSLASH, [QUOTE] + rest);
      assert EncodeChar(c) + rest == [BACKSLASH] + ([QUOTE] + rest);
    } else {
      SpliceOne(c, rest);
    }
  }

  /** Nothing is spliced away inside an encoded line: no backslash of it meets a newline. */
  lemma {:induction false} SpliceEncoded(line: string, rest: string)
    requires Unbroken(line) && (rest == "" || rest[0] != NL)
    ensures Splice(Encode(line) + rest) == Encode(line) + Splice(rest)
    decreases |line|
  {
    if line == "" {
      assert Encode(line) + rest == rest;
    } else {
      var head, tail := EncodeChar(line[0]), Encode(line[1..]) + rest;
      var c, more := line[0], line[1..];
      assert Encode(line) == head + Encode(more);
      assert Unbroken(more) && c != NL;
      hide Splice, Encode, EncodeChar, Unbroken;
      SpliceEncoded(more, rest);
      EncodedHead(more, rest);
      SpliceChar(c, tail);
      Associate(head, Encode(more), rest);
      Associate(head, Encode(more), Splice(rest));
    }
  }

  lemma {:induction false} EncodedHead(line: string, rest: string)
    requires Unbroken(line) && (rest == "" || rest[0] != NL)
    ensures Encode(line) + rest == "" || (Encode(line) + rest)[0] != NL
  {
    if line != "" {
      assert (Encode(line) + rest)[0] == EncodeChar(line[0])[0];
    }
  }

  lemma {:induction false} SpliceLine(line: string, rest: string)
    requires Unbroken(line) && (rest == "" || rest[0] != NL)
    ensures Splice(SEPARATOR + LineText(line) + rest) == Encode(" " + line + [NL]) + Splice(rest)
  {
    hide Splice, Encode;
    var tail := [BACKSLASH, 'n'] + rest;
    var encoded := Encode(line) + tail;
    LineIsEncoded(line);
    SpliceEncoded(line, tail);
    SpliceOne('n', rest);
    SpliceOne(BACKSLASH, ['n'] + rest);
    assert tail == [BACKSLASH] + (['n'] + rest);
    SplicePair(encoded);
    SpliceOne(' ', [BACKSLASH, NL] + encoded);
    assert SEPARATOR + LineText(line) + rest == [' '] + ([BACKSLASH, NL] + encoded);
    LineEncoding(line);
  }

  lemma {:induction false} SplicePair(rest: string)
    ensures Splice([BACKSLASH, NL] + rest) == Splice(rest)
  {
    assert ([BACKSLASH, NL] + rest)[2..] == rest;
  }

  lemma {:induction false} LineEncoding(line: string)
    ensures Encode(" " + line + [NL]) == " " + Encode(line) + [BACKSLASH, 'n']
  {
    EncodeAppend(" " + line, [NL]);
    EncodeAppend(" ", line);
    assert " "[1..] == "" && [NL][1..] == "";
  }

  function Body(parts: seq<string>): string
  {
    if parts == [] then "" else SEPARATOR + parts[0] + Body(parts[1..])
  }

  lemma {:induction false} JoinIsBody(first: string, parts: seq<string>)
    ensures Join(SEPARATOR, [first] + parts) == first + Body(parts)
    decreases |parts|
  {
    var all := [first] + parts;
    assert all[1..] == parts;
    if parts != [] {
      assert parts == [parts[0]] + parts[1..];
      assert Join(SEPARATOR, all) == first + SEPARATOR + Join(SEPARATOR, parts);
      assert Body(parts) == SEPARATOR + parts[0] + Body(parts[1..]);
      hide Join, Body;
      JoinIsBody(parts[0], parts[1..]);
      Associate(SEPARATOR, parts[0], Body(parts[1..]));
      Associate(first, SEPARATOR, parts[0] + Body(parts[1..]));
    }
  }

  lemma {:induction false} BodyFirst(lines: seq<string>)
    requires lines != []
    ensures var rest := Body(LineTexts(lines[1..]));
            && (rest == "" || rest[0] == ' ')
            && Body(LineTexts(lines)) == SEPARATOR + LineText(lines[0]) + rest
    ensures Expected(lines) == " " + lines[0] + [NL] + Expected(lines[1..])
  {
    assert LineTexts(lines)[1..] == LineTexts(lines[1..]);
  }

  lemma {:induction false} SpliceBody(lines: seq<string>, after: string)
    requires forall i | 0 <= i < |lines| :: Unbroken(lines[i])
    requires after == "" || after[0] != NL
    ensures Splice(Body(LineTexts(lines)) + after) == Encode(Expected(lines)) + Splice(after)
  {
    if lines == [] {
      assert "" + after == after;
    } else {
      var rest := Body(LineTexts(lines[1..]));
      var line := " " + lines[0] + [NL];
      var more, head := Expected(lines[1..]), SEPARATOR + LineText(lines[0]);
      hide Splice, Encode, LineText, Unbroken;
      BodyFirst(lines);
      SpliceBody(lines[1..], after);
      SpliceLine(lines[0], rest + after);
      EncodeAppend(line, more);
      Associate(head, rest, after);
      Associate(Encode(line), Encode(more), Splice(after));
    }
  }

  /** Decoding an encoded text never yields more characters than the text has. */
  lemma {:induction false} DecodeShrinks(u: string)
    ensures Decode(Encode(u)).Some? ==> |Decode(Encode(u)).value| <= |u|
    decreases |u|, 2
  {
    if u != "" {
      if u[0] == BACKSLASH {
        DecodeBackslash(u);
      } else {
        DecodeShrinks(u[1..]);
        DecodePlain(u);
      }
    }
  }

  lemma {:induction false} DecodePlain(u: string)
    requires u != "" && u[0] != BACKSLASH
    ensures Decode(Encode(u)) == Cons(u[0], Decode(Encode(u[1..])))
  {
    var t, rest := Encode(u), Encode(u[1..]);
    if |EncodeChar(u[0])| == 2 {
      assert t[0] == BACKSLASH && t[1] == EncodeChar(u[0])[1] && t[2..] == rest;
      assert EscapeAt(t) == Some((2, u[0]));
    } else {
      assert t == [u[0]] + rest && t[1..] == rest;
    }
  }

  lemma {:induction false} EncodePrefix(u: string, n: nat)
    requires n <= |Encode(u)|
    requires forall k | 0 <= k < n :: Encode(u)[k] != QUOTE && Encode(u)[k] != BACKSLASH && Encode(u)[k] != NL
    ensures n <= |u| && Encode(u)[n..] == Encode(u[n..])
  {
    if n > 0 {
      assert u != "";
      assert Encode(u)[0] == EncodeChar(u[0])[0];
      var rest := Encode(u[1..]);
      assert Encode(u) == [u[0]] + rest;
      forall k | 0 <= k < n - 1
        ensures rest[k] != QUOTE && rest[k] != BACKSLASH && rest[k] != NL
      {
        assert rest[k] == Encode(u)[k + 1];
      }
      EncodePrefix(u[1..], n - 1);
      assert Encode(u)[n..] == rest[n - 1..];
      assert u[n..] == u[1..][n - 1..];
    }
  }

  /** A backslash in the text is lost: it swallows what follows it, or at the end of a line
      turns the newline into a letter. */
  lemma {:induction false} DecodeBackslash(u: string)
    requires u != "" && u[0] == BACKSLASH
    ensures Decode(Encode(u)) != Some(u)
    ensures Decode(Encode(u)).Some? ==> |Decode(Encode(u)).value| <= |u|
    decreases |u|, 1
  {
    var v := u[1..];
    var t, r := Encode(u), Encode(v);
    assert t == [BACKSLASH] + r && t[1..] == r;
    if v != "" {
      assert r == EncodeChar(v[0]) + Encode(v[1..]);
      assert t[1] == EncodeChar(v[0])[0];
      if v[0] == NL {
        BackslashNewline(u);
      } else if v[0] == QUOTE {
        assert t[1] == BACKSLASH && t[2] == QUOTE && EscapeAt(t) == Some((2, BACKSLASH));
        assert t[2..][0] == QUOTE;
      } else if EscapeAt(t).Some? {
        var e := EscapeAt(t).value;
        BackslashEscape(u, e.0);
        DecodeShrinks(u[e.0..]);
      }
    }
  }

  /** An escape that starts with a backslash of the text takes its characters from the text. */
  lemma {:induction false} BackslashEscape(u: string, n: nat)
    requires |u| >= 2 && u[0] == BACKSLASH && u[1] != NL && u[1] != QUOTE
    requires EscapeAt(Encode(u)).Some? && n == EscapeAt(Encode(u)).value.0
    ensures 2 <= n <= |u| && Encode(u)[n..] == Encode(u[n..])
  {
    var v, w := u[1..], u[2..];
    var t := Encode(u);
    assert v[1..] == w;
    assert Encode(v) == [u[1]] + Encode(w);
    assert t == [BACKSLASH] + Encode(v);
    assert t[1] == u[1] && t[2..] == Encode(w) && t[1..] == Encode(v);
    if SimpleEscape(t[1]).Some? {
    } else if t[1] == 'x' {
      EncodePrefix(w, n - 2);
      assert t[n..] == Encode(w)[n - 2..] && w[n - 2..] == u[n..];
    } else {
      EncodePrefix(v, n - 1);
      assert t[n..] == Encode(v)[n - 1..] && v[n - 1..] == u[n..];
    }
  }

  lemma {:induction false} BackslashNewline(u: string)
    requires |u| >= 2 && u[0] == BACKSLASH && u[1] == NL
    ensures Decode(Encode(u)) != Some(u)
    ensures Decode(Encode(u)).Some? ==> |Decode(Encode(u)).value| <= |u|
    decreases |u|, 0
  {
    var w := u[2..];
    var t := Encode(u);
    assert u[1..][1..] == w;
    assert Encode(u[1..]) == [BACKSLASH, 'n'] + Encode(w);
    assert t == [BACKSLASH, BACKSLASH, 'n'] + Encode(w);
    assert EscapeAt(t) == Some((2, BACKSLASH));
    assert t[2..][0] == 'n' && t[2..][1..] == Encode(w);
    assert Decode(t[2..]) == Cons('n', Decode(Encode(w)));
    DecodeShrinks(w);
  }

  lemma {:induction false} DecodeIff(u: string)
    ensures Decode(Encode(u)) == Some(u) <==> BACKSLASH !in u
    decreases |u|
  {
    if u != "" {
      if u[0] == BACKSLASH {
        DecodeBackslash(u);
      } else {
        DecodePlain(u);
        DecodeIff(u[1..]);
        assert u == [u[0]] + u[1..];
        assert BACKSLASH in u <==> BACKSLASH in u[1..];
      }
    }
  }

  /** The compiled literal is the script's lines in order, each with one leading space and one
      newline, if and only if the script has no backslash. */
  lemma {:induction false} EmbedIff(lines: seq<string>)
    requires forall i, k | 0 <= i < |lines| && 0 <= k < |lines[i]| :: !Break(lines[i][k])
    ensures Compile(Join(SEPARATOR, [OPENING] + LineTexts(lines))) == Some(Expected(lines))
            <==> BACKSLASH !in Expected(lines)
  {
    var body := Body(LineTexts(lines));
    JoinIsBody(OPENING, LineTexts(lines));
    SplicePair(body);
    forall i | 0 <= i < |lines| ensures Unbroken(lines[i]) {
    }
    SpliceBody(lines, "");
    assert body + "" == body;
    assert Encode(Expected(lines)) + "" == Encode(Expected(lines));
    DecodeIff(Expected(lines));
  }

  lemma {:induction false} ExpectedFirst(line: string, rest: seq<string>)
    ensures BACKSLASH in Expected([line] + rest) <==> BACKSLASH in line || BACKSLASH in Expected(rest)
  {
    assert ([line] + rest)[1..] == rest;
    assert Expected([line] + rest) == " " + line + [NL] + Expected(rest);
  }

  lemma {:induction false} InConcat(a: string, b: string, c: string)
    ensures BACKSLASH in a + b + c <==> BACKSLASH in a || BACKSLASH in b || BACKSLASH in c
  {
    assert BACKSLASH in a + b <==> BACKSLASH in a || BACKSLASH in b;
  }

  /** Where the rest of the text starts after a first line of n characters. */
  function NextLine(s: string, n: nat): (k: nat)
    requires n < |s| && Break(s[n])
    ensures n < k <= |s| && forall i | n <= i < k :: Break(s[i])
  {
    if s[n] == '\r' && n + 1 < |s| && s[n + 1] == NL then n + 2 else n + 1
  }

  lemma {:induction false} SplitFirst(s: string)
    requires s != ""
    ensures var n := LineLength(s);
            SplitLines(s) == if n == |s| then [s] + [] else [s[..n]] + SplitLines(s[NextLine(s, n)..])
  {
    assert [s] + [] == [s];
  }

  lemma {:induction false} BackslashParts(s: string, n: nat, k: nat)
    requires n <= k <= |s| && forall i | n <= i < k :: Break(s[i])
    ensures BACKSLASH in s <==> BACKSLASH in s[..n] || BACKSLASH in s[k..]
  {
    assert !Break(BACKSLASH);
    assert BACKSLASH !in s[n..k];
    assert s == s[..n] + s[n..k] + s[k..];
    InConcat(s[..n], s[n..k], s[k..]);
  }

  /** Splitting into lines drops line boundaries only. */
  lemma {:induction false} BackslashSurvives(s: string)
    ensures BACKSLASH in Expected(SplitLines(s)) <==> BACKSLASH in s
    decreases |s|
  {
    if s != "" {
      hide SplitLines, Expected, Break, LineLength, NextLine;
      SplitFirst(s);
      var n := LineLength(s);
      if n == |s| {
        ExpectedFirst(s, []);
        assert BACKSLASH !in Expected([]) by { NothingExpected(); }
      } else {
        var k := NextLine(s, n);
        BackslashParts(s, n, k);
        ExpectedFirst(s[..n], SplitLines(s[k..]));
        BackslashSurvives(s[k..]);
      }
    }
  }

  lemma {:induction false} NothingExpected()
    ensures Expected([]) == ""
  {
  }

  // ---------------------------------------------------------------- the template's comment

  // Where a comment whose text is t ends: the first "*/", section 6.4.9.
  function CommentEnd(t: string): (n: nat)
    ensures n <= |t|
  {
    if |t| < 2 then |t| else if t[0] == '*' && t[1] == '/' then 0 else 1 + CommentEnd(t[1..])
  }

  predicate Closes(t: string)
  {
    CommentEnd(t) < |t|
  }

  lemma {:induction false} CommentAppend(t: string, u: string)
    requires u == "" || u[0] != '/'
    ensures CommentEnd(t + u) == if Closes(t) then CommentEnd(t) else |t| + CommentEnd(u)
    decreases |t|
  {
    if t == "" {
      assert t + u == u;
    } else {
      assert (t + u)[1..] == t[1..] + u;
      CommentAppend(t[1..], u);
      if |t| == 1 && u != "" {
        assert (t + u)[1] == u[0];
      }
    }
  }

  lemma {:induction false} ClosesStep(c: char, t: string)
    requires c != '*' || t == "" || t[0] != '/'
    ensures Closes([c] + t) <==> Closes(t)
  {
    assert ([c] + t)[1..] == t;
  }

  lemma {:induction false} EncodeFirst(u: string)
    requires u != ""
    ensures u == [u[0]] + u[1..]
    ensures if |EncodeChar(u[0])| == 2 then
              Encode(u) == [BACKSLASH] + ([EncodeChar(u[0])[1]] + Encode(u[1..])) && u[0] != '*' && EncodeChar(u[0])[1] != '*'
            else EncodeChar(u[0]) == [u[0]] && Encode(u) == [u[0]] + Encode(u[1..])
    ensures u[0] == '/' ==> Encode(u)[0] == '/'
    ensures Encode(u) != "" && (Encode(u)[0] == '/' ==> u[0] == '/')
  {
  }

  lemma {:induction false} EncodeCloses(u: string)
    ensures Closes(Encode(u)) <==> Closes(u)
    decreases |u|
  {
    if u != "" {
      var c, v := u[0], u[1..];
      EncodeFirst(u);
      if v == "" {
        assert Encode(v) == "";
      } else {
        EncodeFirst(v);
      }
      EncodeCloses(v);
      if |EncodeChar(c)| == 2 {
        var e := EncodeChar(c)[1];
        hide Closes, Encode, EncodeChar;
        ClosesStep(e, Encode(v));
        ClosesStep(BACKSLASH, [e] + Encode(v));
        ClosesStep(c, v);
      } else if c != '*' || v == "" || v[0] != '/' {
        hide Closes, Encode, EncodeChar;
        ClosesStep(c, v);
        ClosesStep(c, Encode(v));
      }
    }
  }

  lemma {:induction false} ExpectedCloses(line: string, rest: seq<string>)
    ensures Closes(Expected([line] + rest)) <==> Closes(line) || Closes(Expected(rest))
  {
    var tail := [NL] + Expected(rest);
    assert ([line] + rest)[1..] == rest;
    assert Expected([line] + rest) == " " + (line + tail);
    assert (" " + (line + tail))[1..] == line + tail && tail[1..] == Expected(rest);
    CommentAppend(line, tail);
  }

  lemma {:induction false} BreakCloses(s: string, n: nat, k: nat)
    requires n <= k <= |s| && forall i | n <= i < k :: Break(s[i])
    ensures Closes(s[n..]) <==> Closes(s[k..])
    decreases k - n
  {
    if n < k {
      BreakCloses(s, n + 1, k);
      assert s[n..] == [s[n]] + s[n + 1..];
      assert Break(s[n]);
      ClosesStep(s[n], s[n + 1..]);
    }
  }

  lemma {:induction false} ClosesParts(s: string, n: nat)
    requires n < |s| && s[n] != '/'
    ensures Closes(s) <==> Closes(s[..n]) || Closes(s[n..])
  {
    hide CommentEnd;
    assert s == s[..n] + s[n..] && s[n..][0] == s[n];
    CommentAppend(s[..n], s[n..]);
  }

  // Splitting into lines keeps every "*/" of the script and makes none.
  lemma {:induction false} ClosesSurvives(s: string)
    ensures Closes(Expected(SplitLines(s))) <==> Closes(s)
    decreases |s|
  {
    if s == "" {
      NothingExpected();
    } else {
      SplitFirst(s);
      var n := LineLength(s);
      if n == |s| {
        ExpectedCloses(s, []);
      } else {
        assert !Break('/');
        hide SplitLines, Expected, Break, LineLength, NextLine, CommentEnd;
        var k := NextLine(s, n);
        ClosesSurvives(s[k..]);
        ExpectedCloses(s[..n], SplitLines(s[k..]));
        BreakCloses(s, n, k);
        ClosesParts(s, n);
      }
    }
  }

  // A comment that quotes the generated text, as the one at the top of the template does, ends
  // where it is meant to if and only if the script has no "*/".
  lemma {:induction false} CommentIff(before: string, script: string, after: string)
    requires BACKSLASH !in before && !Closes(before)
    requires BACKSLASH !in after && after != "" && after[0] != NL && after[0] != '/'
    ensures var text := Join(SEPARATOR, [OPENING] + LineTexts(SplitLines(script)));
            CommentEnd(Splice(before + text + after))
              == |before| + |Encode(Expected(SplitLines(script)))| + CommentEnd(after)
            <==> !Closes(script)
  {
    var lines := SplitLines(script);
    var body, middle := Body(LineTexts(lines)), Encode(Expected(lines));
    forall i | 0 <= i < |lines| ensures Unbroken(lines[i]) {
    }
    JoinIsBody(OPENING, LineTexts(lines));
    SpliceBody(lines, after);
    SplicePair(body + after);
    SplicePlain(before, OPENING + (body + after));
    Associate(OPENING, body, after);
    Associate(before, OPENING + body, after);
    SplicePlain(after, "");
    assert after + "" == after;
    EncodeCloses(Expected(lines));
    ClosesSurvives(script);
    assert middle == "" || middle[0] == ' ';
    hide CommentEnd, Splice, Encode, Expected, SplitLines, Body, LineTexts;
    CommentAppend(middle, after);
    CommentAppend(before, middle + after);
  }

  lemma {:induction false} SplicePlain(plain: string, rest: string)
    requires BACKSLASH !in plain
    ensures Splice(plain + rest) == plain + Splice(rest)
  {
    if plain == "" {
      assert plain + rest == rest;
    } else {
      assert (plain + rest)[1..] == plain[1..] + rest;
      SplicePlain(plain[1..], rest);
    }
  }
}
