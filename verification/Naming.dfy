/** scripts/luaz_nanopb_custom_naming.py: the two regular-expression passes that turn protobuf
    names into snake case, over ASCII words. */
module Naming {
  import opened Wrappers

  predicate Upper(c: char) { 'A' <= c <= 'Z' }
  predicate Lower(c: char) { 'a' <= c <= 'z' }
  predicate LowerOrDigit(c: char) { Lower(c) || '0' <= c <= '9' }

  // ---------------------------------------------------------------- the regex engine

  /** [A-Z]+ taken greedily: the length of the leading run of capitals. */
  function UpperRun(s: string): (n: nat)
    ensures n <= |s| && (n < |s| ==> !Upper(s[n]))
    ensures forall k | 0 <= k < n :: Upper(s[k])
  {
    if s == "" || !Upper(s[0]) then 0 else 1 + UpperRun(s[1..])
  }

  /** Giving back one capital after the other until [A-Z][a-z] follows; 0 when it never does. */
  function Backtrack(s: string, n: nat): (k: nat)
    requires n <= |s|
    ensures k <= n
    ensures k > 0 ==> k + 1 < |s| && Upper(s[k]) && Lower(s[k + 1])
    ensures k < n ==> forall j | k < j <= n :: !(j + 1 < |s| && Upper(s[j]) && Lower(s[j + 1]))
  {
    if n == 0 then 0
    else if n + 1 < |s| && Upper(s[n]) && Lower(s[n + 1]) then n
    else Backtrack(s, n - 1)
  }

  /** re.sub(r"([A-Z]+)([A-Z][a-z])", r"\1_\2", s) */
  function Pass1(s: string): string
    decreases |s|
  {
    if s == "" then ""
    else
      var k := Backtrack(s, UpperRun(s));
      if k == 0 then [s[0]] + Pass1(s[1..])
      else s[..k] + "_" + s[k..k + 2] + Pass1(s[k + 2..])
  }

  /** re.sub(r"([a-z\d])([A-Z])", r"\1_\2", s) */
  function Pass2(s: string): string
    decreases |s|
  {
    if |s| < 2 then s
    else if LowerOrDigit(s[0]) && Upper(s[1]) then [s[0], '_', s[1]] + Pass2(s[2..])
    else [s[0]] + Pass2(s[1..])
  }

  function Replace(s: string): string
  {
    if s == "" then "" else [if s[0] == '-' then '_' else s[0]] + Replace(s[1..])
  }

  function ToLower(c: char): char
  {
    if Upper(c) then (c as int + 32) as char else c
  }

  function LowerCase(s: string): string
  {
    if s == "" then "" else [ToLower(s[0])] + LowerCase(s[1..])
  }

  function Underscore(word: string): string
  {
    LowerCase(Replace(Pass2(Pass1(word))))
  }

  // ---------------------------------------------------------------- the local rule

  /** An underscore goes before a capital that follows a lower-case letter or a digit, or that
      follows a capital and is followed by a lower-case letter. */
  predicate Break(s: string, i: nat)
    requires i < |s|
  {
    i > 0 && Upper(s[i]) && (LowerOrDigit(s[i - 1]) || (Upper(s[i - 1]) && i + 1 < |s| && Lower(s[i + 1])))
  }

  function SnakeChar(c: char): char
  {
    if c == '-' then '_' else ToLower(c)
  }

  /** The word from position i on, decided character by character. */
  function Snake(s: string, i: nat): string
    requires i <= |s|
    decreases |s| - i
  {
    if i == |s| then "" else (if Break(s, i) then "_" else "") + [SnakeChar(s[i])] + Snake(s, i + 1)
  }

  // ---------------------------------------------------------------- each pass is local

  predicate Break1(p: Option<char>, s: string)
  {
    p.Some? && Upper(p.value) && |s| >= 2 && Upper(s[0]) && Lower(s[1])
  }

  predicate Break2(p: Option<char>, s: string)
  {
    p.Some? && LowerOrDigit(p.value) && |s| >= 1 && Upper(s[0])
  }

  /** The first pass as a scan that only looks at the previous character p and the next two. */
  function Insert1(p: Option<char>, s: string): string
    decreases |s|
  {
    if s == "" then ""
    else
      var t := [s[0]] + Insert1(Some(s[0]), s[1..]);
      if Break1(p, s) then ['_'] + t else t
  }

  function Insert2(p: Option<char>, s: string): string
    decreases |s|
  {
    if s == "" then ""
    else
      var t := [s[0]] + Insert2(Some(s[0]), s[1..]);
      if Break2(p, s) then ['_'] + t else t
  }

  lemma {:induction false} NoMatchNoBreak(s: string)
    requires s != "" && Backtrack(s, UpperRun(s)) == 0
    ensures !Break1(Some(s[0]), s[1..])
  {
  }

  /** Inside a run of capitals the scan copies. */
  lemma {:induction false} InsertRun(p: Option<char>, s: string, k: nat)
    requires 1 <= k && k + 1 < |s| && forall j | 0 <= j <= k :: Upper(s[j])
    ensures Insert1(p, s) == s[..k] + Insert1(Some(s[k - 1]), s[k..])
    decreases k
  {
    assert !Lower(s[1]);
    if k == 1 {
      assert s[..1] == [s[0]];
    } else {
      InsertRun(Some(s[0]), s[1..], k - 1);
      assert s[1..][k - 1..] == s[k..];
      assert s[..k] == [s[0]] + s[1..][..k - 1];
    }
  }

  /** A match of the first pattern, k capitals, a capital and a lower-case letter, is scanned
      with one underscore. */
  lemma {:induction false} InsertMatch(p: Option<char>, s: string, k: nat)
    requires 1 <= k && k + 1 < |s| && Lower(s[k + 1]) && forall j | 0 <= j <= k :: Upper(s[j])
    requires !Break1(p, s)
    ensures Insert1(p, s) == s[..k] + "_" + s[k..k + 2] + Insert1(Some(s[k + 1]), s[k + 2..])
  {
    InsertRun(p, s, k);
    var t := s[k..];
    assert t[0] == s[k] && t[1..][0] == s[k + 1] && t[1..][1..] == s[k + 2..];
    assert Insert1(Some(t[0]), t[1..]) == [s[k + 1]] + Insert1(Some(s[k + 1]), s[k + 2..]);
    assert s[k..k + 2] == [s[k]] + [s[k + 1]];
  }

  /** What the regex engine does at the start of s. */
  lemma {:induction false} Pass1Step(s: string) returns (k: nat)
    requires s != ""
    ensures k == 0 ==> Pass1(s) == [s[0]] + Pass1(s[1..]) && !Break1(Some(s[0]), s[1..])
    ensures k > 0 ==> k + 1 < |s| && Lower(s[k + 1]) && (forall j | 0 <= j <= k :: Upper(s[j]))
                      && Pass1(s) == s[..k] + "_" + s[k..k + 2] + Pass1(s[k + 2..])
  {
    k := Backtrack(s, UpperRun(s));
    if k == 0 {
      NoMatchNoBreak(s);
    }
  }

  lemma {:induction false} NoBreakStep(p: Option<char>, s: string)
    requires s != "" && !Break1(p, s)
    ensures Insert1(p, s) == [s[0]] + Insert1(Some(s[0]), s[1..])
  {
  }

  /** The greedy first pass inserts an underscore exactly where the scan does. */
  lemma {:induction false} Pass1Local(p: Option<char>, s: string)
    requires !Break1(p, s)
    ensures Pass1(s) == Insert1(p, s)
    decreases |s|
  {
    if s != "" {
      hide Pass1, Insert1;
      var k := Pass1Step(s);
      if k == 0 {
        NoBreakStep(p, s);
        Pass1Local(Some(s[0]), s[1..]);
      } else {
        InsertMatch(p, s, k);
        Pass1Local(Some(s[k + 1]), s[k + 2..]);
      }
    }
  }

  lemma {:induction false} Pass2Local(p: Option<char>, s: string)
    requires !Break2(p, s)
    ensures Pass2(s) == Insert2(p, s)
    decreases |s|
  {
    if |s| >= 2 {
      if LowerOrDigit(s[0]) && Upper(s[1]) {
        Pass2Local(Some(s[1]), s[2..]);
        assert s[1..][1..] == s[2..];
        assert Insert2(Some(s[0]), s[1..]) == "_" + [s[1]] + Insert2(Some(s[1]), s[2..]);
      } else {
        Pass2Local(Some(s[0]), s[1..]);
      }
    } else if |s| == 1 {
      assert s == [s[0]];
    }
  }

  // ---------------------------------------------------------------- the passes together

  function InsertBoth(p: Option<char>, s: string): string
    decreases |s|
  {
    if s == "" then ""
    else
      var t := [s[0]] + InsertBoth(Some(s[0]), s[1..]);
      if Break1(p, s) || Break2(p, s) then ['_'] + t else t
  }

  lemma {:induction false} Insert2Step(p: Option<char>, c: char, rest: string)
    ensures var t := [c] + Insert2(Some(c), rest);
            Insert2(p, [c] + rest) == if Break2(p, [c] + rest) then ['_'] + t else t
  {
    assert ([c] + rest)[1..] == rest;
  }

  /** The second pass copies an underscore of the first one and adds none beside it. */
  lemma {:induction false} Insert2Broken(p: Option<char>, c: char, rest: string)
    ensures Insert2(p, ['_'] + ([c] + rest)) == ['_'] + ([c] + Insert2(Some(c), rest))
  {
    assert !Break2(p, ['_'] + ([c] + rest)) && !Break2(Some('_'), [c] + rest);
    hide Insert2, Break2;
    Insert2Step(p, '_', [c] + rest);
    Insert2Step(Some('_'), c, rest);
  }

  lemma {:induction false} InsertFirst(p: Option<char>, s: string)
    requires s != ""
    ensures var t := [s[0]] + Insert1(Some(s[0]), s[1..]);
            Insert1(p, s) == (if Break1(p, s) then ['_'] + t else t) && (Break2(p, t) <==> Break2(p, s))
    ensures var t := [s[0]] + InsertBoth(Some(s[0]), s[1..]);
            InsertBoth(p, s) == if Break1(p, s) || Break2(p, s) then ['_'] + t else t
  {
  }

  lemma {:induction false} InsertTwice(p: Option<char>, s: string)
    ensures Insert2(p, Insert1(p, s)) == InsertBoth(p, s)
    decreases |s|
  {
    if s != "" {
      hide Insert1, Insert2, InsertBoth, Break1, Break2;
      var c, rest := s[0], Insert1(Some(s[0]), s[1..]);
      InsertFirst(p, s);
      InsertTwice(Some(c), s[1..]);
      if Break1(p, s) {
        Insert2Broken(p, c, rest);
      } else {
        Insert2Step(p, c, rest);
      }
    }
  }

  lemma {:induction false} MapCons(c: char, t: string)
    ensures LowerCase(Replace([c] + t)) == [SnakeChar(c)] + LowerCase(Replace(t))
  {
    assert ([c] + t)[1..] == t;
    assert Replace([c] + t)[1..] == Replace(t);
  }

  lemma {:induction false} BothAt(s: string, i: nat)
    requires i < |s|
    ensures var t := [s[i]] + InsertBoth(Some(s[i]), s[i + 1..]);
            InsertBoth(if i == 0 then None else Some(s[i - 1]), s[i..]) == if Break(s, i) then ['_'] + t else t
  {
    assert s[i..][0] == s[i] && s[i..][1..] == s[i + 1..];
    assert i + 1 < |s| ==> s[i..][1] == s[i + 1];
  }

  lemma {:induction false} SnakeAt(s: string, i: nat)
    requires i < |s|
    ensures var t := [SnakeChar(s[i])] + Snake(s, i + 1);
            Snake(s, i) == if Break(s, i) then [SnakeChar('_')] + t else t
  {
  }

  lemma {:induction false} BothIsSnake(s: string, i: nat)
    requires i <= |s|
    ensures LowerCase(Replace(InsertBoth(if i == 0 then None else Some(s[i - 1]), s[i..]))) == Snake(s, i)
    decreases |s| - i
  {
    if i < |s| {
      var rest := InsertBoth(Some(s[i]), s[i + 1..]);
      BothAt(s, i);
      SnakeAt(s, i);
      hide LowerCase, Replace, InsertBoth, Snake, Break;
      BothIsSnake(s, i + 1);
      MapCons(s[i], rest);
      MapCons('_', [s[i]] + rest);
    }
  }

  /** The chain of greedy substitutions is the local rule. */
  lemma {:induction false} UnderscoreIsLocal(word: string)
    ensures Underscore(word) == Snake(word, 0)
  {
    Pass1Local(None, word);
    Pass2Local(None, Pass1(word));
    InsertTwice(None, word);
    BothIsSnake(word, 0);
    assert word[0..] == word;
  }

  predicate Plain(s: string)
  {
    forall k | 0 <= k < |s| :: !Upper(s[k]) && s[k] != '-'
  }

  lemma {:induction false} SnakePlain(s: string, i: nat)
    requires i <= |s|
    ensures Plain(Snake(s, i))
    decreases |s| - i
  {
    if i < |s| {
      SnakePlain(s, i + 1);
      assert !Upper(SnakeChar(s[i])) && SnakeChar(s[i]) != '-';
    }
  }

  lemma {:induction false} SnakeFix(s: string, i: nat)
    requires i <= |s| && Plain(s)
    ensures Snake(s, i) == s[i..]
    decreases |s| - i
  {
    if i < |s| {
      SnakeFix(s, i + 1);
      assert s[i..] == [s[i]] + s[i + 1..];
    }
  }

  /** A converted name is a fixed point, and every name without capitals and hyphens is one. */
  lemma {:induction false} UnderscoreIdempotent(word: string)
    ensures Underscore(Underscore(word)) == Underscore(word)
    ensures Underscore(word) == word <==> Plain(word)
  {
    UnderscoreIsLocal(word);
    UnderscoreIsLocal(Underscore(word));
    SnakePlain(word, 0);
    SnakeFix(Underscore(word), 0);
    if Plain(word) {
      SnakeFix(word, 0);
    }
  }

  // ---------------------------------------------------------------- the letters themselves

  const CAPITALS := "ABCDEFGHIJKLMNOPQRSTUVWXYZ"
  const SMALL := "abcdefghijklmnopqrstuvwxyz"
  const FIGURES := "0123456789"

  /** A capital and the small letter at its place in the alphabet, or twice the same other
      character. */
  predicate Lowered(c: char, d: char)
  {
    (c !in CAPITALS ==> d == c) && forall k | 0 <= k < 26 && CAPITALS[k] == c :: SMALL[k] == d
  }

  lemma {:induction false} Capitals(c: char)
    ensures c in CAPITALS <==> Upper(c)
    ensures forall k | 0 <= k < 26 && CAPITALS[k] == c :: k == c as int - 65
  {
    assert forall k | 0 <= k < 26 :: CAPITALS[k] as int == 65 + k;
    if Upper(c) {
      assert CAPITALS[c as int - 65] == c;
    }
  }

  lemma {:induction false} SmallLetters(c: char)
    ensures c in SMALL <==> Lower(c)
    ensures Lower(c) ==> SMALL[c as int - 97] == c
  {
    assert forall k | 0 <= k < 26 :: SMALL[k] as int == 97 + k;
    if Lower(c) {
      assert SMALL[c as int - 97] == c;
    }
  }

  lemma {:induction false} Figures(c: char)
    ensures c in FIGURES <==> '0' <= c <= '9'
  {
    assert forall k | 0 <= k < 10 :: FIGURES[k] as int == 48 + k;
    if '0' <= c <= '9' {
      assert FIGURES[c as int - 48] == c;
    }
  }

  /** The ranges are the letters and figures. */
  lemma {:induction false} Alphabet(c: char)
    ensures c in CAPITALS <==> Upper(c)
    ensures c in SMALL <==> Lower(c)
    ensures c in SMALL || c in FIGURES <==> LowerOrDigit(c)
    ensures Lowered(c, ToLower(c))
  {
    Capitals(c);
    SmallLetters(c);
    Figures(c);
    SmallLetters(ToLower(c));
  }

  /** The word without underscores and hyphens. */
  function Letters(s: string): string
  {
    if s == "" then "" else (if s[0] == '_' || s[0] == '-' then "" else [s[0]]) + Letters(s[1..])
  }

  predicate AllLowered(s: string, t: string)
  {
    |s| == |t| && forall k | 0 <= k < |s| :: Lowered(s[k], t[k])
  }

  lemma {:induction false} LettersFirst(c: char, t: string)
    ensures Letters([c] + t) == if c == '_' || c == '-' then Letters(t) else [c] + Letters(t)
  {
    assert ([c] + t)[1..] == t;
  }

  lemma {:induction false} AllLoweredMore(c: char, d: char, s: string, t: string)
    requires Lowered(c, d) && AllLowered(s, t)
    ensures AllLowered([c] + s, [d] + t)
  {
    hide Lowered;
  }

  lemma {:induction false} SnakeLetter(c: char)
    ensures SnakeChar(c) == '_' <==> c == '_' || c == '-'
    ensures SnakeChar(c) != '-' && (SnakeChar(c) != '_' ==> Lowered(c, SnakeChar(c)))
  {
    hide Lowered;
    Alphabet(c);
  }

  lemma {:induction false} LettersEnd(s: string)
    ensures s[|s|..] == "" && AllLowered(Letters(s[|s|..]), Letters(Snake(s, |s|)))
  {
  }

  lemma {:induction false} LettersSnake(s: string, i: nat)
    requires i <= |s|
    ensures AllLowered(Letters(s[i..]), Letters(Snake(s, i)))
    decreases |s| - i
  {
    hide Letters, Snake, Lowered, AllLowered, SnakeChar, Break;
    if i == |s| {
      LettersEnd(s);
    } else {
      var c, d, rest := s[i], SnakeChar(s[i]), Snake(s, i + 1);
      SnakeAt(s, i);
      SnakeLetter(c);
      SnakeLetter('_');
      LettersSnake(s, i + 1);
      assert s[i..] == [c] + s[i + 1..];
      LettersFirst(c, s[i + 1..]);
      LettersFirst(d, rest);
      LettersFirst('_', [d] + rest);
      if d != '_' {
        AllLoweredMore(c, d, Letters(s[i + 1..]), Letters(rest));
      }
    }
  }

  /** Apart from underscores and hyphens a name keeps its characters, in order, each capital as
      the small letter at its place in the alphabet. */
  lemma {:induction false} UnderscoreLetters(word: string)
    ensures AllLowered(Letters(word), Letters(Underscore(word)))
  {
    UnderscoreIsLocal(word);
    LettersSnake(word, 0);
    assert word[0..] == word;
  }

  lemma {:induction false} SnakeCharOne(c: char, upper: char, lower: char)
    requires c == upper || c == lower
    requires Upper(upper) && Lower(lower) && ToLower(upper) == lower
    ensures SnakeChar(c) == lower && SnakeChar('_') == '_'
  {
  }

  lemma {:induction false} SnakeOne(s: string, i: nat, upper: char, lower: char, t: string)
    requires i < |s| && Snake(s, i + 1) == t
    requires s[i] == upper || s[i] == lower
    requires Upper(upper) && Lower(lower) && ToLower(upper) == lower
    ensures !Break(s, i) ==> Snake(s, i) == [lower] + t
    ensures Break(s, i) ==> Snake(s, i) == ['_', lower] + t
  {
    hide Snake, Break, SnakeChar;
    SnakeAt(s, i);
    SnakeCharOne(s[i], upper, lower);
    assert ['_'] + ([lower] + t) == ['_', lower] + t;
  }

  /** The message name of the sample, and a name that needs both passes. */
  lemma {:induction false} SampleNames()
    ensures Underscore("MsgAccData") == "msg_acc_data"
    ensures Underscore("IMUId") == "imu_id"
  {
    UnderscoreIsLocal("MsgAccData");
    UnderscoreIsLocal("IMUId");
    hide Snake, Underscore;
    MsgAccData("MsgAccData");
    ImuId("IMUId");
  }

  lemma {:induction false} AccData(s: string)
    requires s == "MsgAccData"
    ensures Snake(s, 3) == "_acc_data"
  {
    assert Snake(s, 10) == "";
    hide Snake;
    SnakeOne(s, 9, 'A', 'a', "");
    assert ['a'] + "" == "a";
    SnakeOne(s, 8, 'T', 't', "a");
    assert ['t'] + "a" == "ta";
    SnakeOne(s, 7, 'A', 'a', "ta");
    assert ['a'] + "ta" == "ata";
    SnakeOne(s, 6, 'D', 'd', "ata");
    assert ['_', 'd'] + "ata" == "_data";
    SnakeOne(s, 5, 'C', 'c', "_data");
    assert ['c'] + "_data" == "c_data";
    SnakeOne(s, 4, 'C', 'c', "c_data");
    assert ['c'] + "c_data" == "cc_data";
    SnakeOne(s, 3, 'A', 'a', "cc_data");
    assert ['_', 'a'] + "cc_data" == "_acc_data";
  }

  lemma {:induction false} MsgAccData(s: string)
    requires s == "MsgAccData"
    ensures Snake(s, 0) == "msg_acc_data"
  {
    AccData(s);
    hide Snake;
    SnakeOne(s, 2, 'G', 'g', "_acc_data");
    assert ['g'] + "_acc_data" == "g_acc_data";
    SnakeOne(s, 1, 'S', 's', "g_acc_data");
    assert ['s'] + "g_acc_data" == "sg_acc_data";
    SnakeOne(s, 0, 'M', 'm', "sg_acc_data");
    assert ['m'] + "sg_acc_data" == "msg_acc_data";
  }

  lemma {:induction false} ImuId(s: string)
    requires s == "IMUId"
    ensures Snake(s, 0) == "imu_id"
  {
    assert Snake(s, 5) == "";
    hide Snake;
    SnakeOne(s, 4, 'D', 'd', "");
    assert ['d'] + "" == "d";
    SnakeOne(s, 3, 'I', 'i', "d");
    assert ['_', 'i'] + "d" == "_id";
    SnakeOne(s, 2, 'U', 'u', "_id");
    assert ['u'] + "_id" == "u_id";
    SnakeOne(s, 1, 'M', 'm', "u_id");
    assert ['m'] + "u_id" == "mu_id";
    SnakeOne(s, 0, 'I', 'i', "mu_id");
    assert ['i'] + "mu_id" == "imu_id";
  }
}
