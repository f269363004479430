/** The lua_fs shell commands of src/luaz_fs_shell.c that take a script from the keyboard and
    print one back. */
module FsShell {
  import opened Bytes
  import opened Lens

  const EOT: Byte := 0x04
  const BS: Byte := 0x08
  const DEL: Byte := 0x7F
  const NL: Byte := 10
  const CR: Byte := 13
  const DOT: Byte := 46

  predicate Eraser(c: Byte) { c == BS || c == DEL }
  predicate Terminator(c: Byte) { c == EOT || c == NL || c == CR }

  // ---------------------------------------------------------------- what a line is

  /** The text a stream of keys leaves on the line: erasers pop, other keys push. */
  function Edit(keys: seq<Byte>): (t: seq<Byte>)
    ensures |t| <= |keys|
  {
    if keys == [] then []
    else Press(Edit(keys[..|keys| - 1]), keys[|keys| - 1])
  }

  function Press(t: seq<Byte>, c: Byte): (r: seq<Byte>)
    ensures |r| <= |t| + 1
  {
    if !Eraser(c) then t + [c] else if t == [] then [] else t[..|t| - 1]
  }

  /** Starved: the keys ran out before the line was complete. */
  datatype Line = Starved | Line(text: seq<Byte>, next: nat, eof: bool)

  /** A line of at most cap characters read from position p on, text being on it already. */
  function Scan(keys: seq<Byte>, p: nat, text: seq<Byte>, cap: nat): (r: Line)
    requires p <= |keys| && |text| <= cap
    ensures r.Line? ==> p <= r.next <= |keys| && |r.text| <= cap
    ensures r.Line? && r.next == p ==> |text| == cap
    decreases |keys| - p
  {
    if |text| == cap then Line(text, p, false)
    else if p == |keys| then Starved
    else if Eraser(keys[p]) then Scan(keys, p + 1, Press(text, keys[p]), cap)
    else if Terminator(keys[p]) then Line(text, p + 1, keys[p] == EOT)
    else Scan(keys, p + 1, Press(text, keys[p]), cap)
  }

  lemma {:induction false} ScanStep(keys: seq<Byte>, p: nat, text: seq<Byte>, cap: nat)
    requires p <= |keys| && |text| <= cap
    ensures var r := Scan(keys, p, text, cap);
            if |text| == cap then r == Line(text, p, false)
            else if p == |keys| then r == Starved
            else if Terminator(keys[p]) then r == Line(text, p + 1, keys[p] == EOT)
            else r == Scan(keys, p + 1, Press(text, keys[p]), cap)
  {
  }

  lemma {:induction false} EditNext(keys: seq<Byte>, b: nat, p: nat)
    requires b <= p < |keys|
    ensures Edit(keys[b..p + 1]) == Press(Edit(keys[b..p]), keys[p])
  {
    hide Press;
    assert keys[b..p + 1][..p - b] == keys[b..p];
  }

  /** A finished line is the edit of the keys up to its end; its end is the first terminator
      or the moment the line is full. */
  lemma {:induction false} ScanIsEdit(keys: seq<Byte>, b: nat, p: nat, cap: nat) returns (q: nat)
    requires b <= p <= |keys| && |Edit(keys[b..p])| <= cap
    requires Scan(keys, p, Edit(keys[b..p]), cap).Line?
    ensures p <= q <= |keys| && forall k | p <= k < q :: !Terminator(keys[k])
    ensures var r := Scan(keys, p, Edit(keys[b..p]), cap);
            && r.text == Edit(keys[b..q])
            && (if |r.text| == cap then r.next == q && !r.eof
                else q < |keys| && Terminator(keys[q]) && r.next == q + 1 && (r.eof <==> keys[q] == EOT))
    decreases |keys| - p
  {
    hide Edit, Press;
    var text := Edit(keys[b..p]);
    if |text| == cap || Terminator(keys[p]) {
      q := p;
    } else {
      EditNext(keys, b, p);
      q := ScanIsEdit(keys, b, p + 1, cap);
    }
  }

  // ---------------------------------------------------------------- what each key does

  /** Typing adds to the line, backspace and delete take the last character away again, and do
      nothing at its start. */
  lemma {:induction false} EditKey(a: seq<Byte>, c: Byte)
    ensures c != 0x08 && c != 0x7F ==> Edit(a + [c]) == Edit(a) + [c]
    ensures (c == 0x08 || c == 0x7F) && Edit(a) == [] ==> Edit(a + [c]) == []
    ensures (c == 0x08 || c == 0x7F) && Edit(a) != [] ==> Edit(a + [c]) == Edit(a)[..|Edit(a)| - 1]
  {
    assert (a + [c])[..|a|] == a;
  }

  /** The keys after two starts that leave the same line leave the same line. */
  lemma {:induction false} EditAppend(a: seq<Byte>, a': seq<Byte>, b: seq<Byte>)
    requires Edit(a) == Edit(a')
    ensures Edit(a + b) == Edit(a' + b)
    decreases |b|
  {
    if b == [] {
      assert a + b == a && a' + b == a';
    } else {
      var n := |b| - 1;
      EditAppend(a, a', b[..n]);
      EditLast(a, b);
      EditLast(a', b);
    }
  }

  lemma {:induction false} EditLast(a: seq<Byte>, b: seq<Byte>)
    requires b != []
    ensures Edit(a + b) == Press(Edit(a + b[..|b| - 1]), b[|b| - 1])
  {
    hide Press;
    assert (a + b)[..|a + b| - 1] == a + b[..|b| - 1];
  }

  /** A character and an eraser right after it leave no trace, and neither does an eraser on an
      empty line. */
  lemma {:induction false} EditErase(a: seq<Byte>, c: Byte, e: Byte, b: seq<Byte>)
    requires c != 0x08 && c != 0x7F && (e == 0x08 || e == 0x7F)
    ensures Edit(a + [c, e] + b) == Edit(a + b)
    ensures Edit([e] + b) == Edit(b)
  {
    hide Edit, Press;
    EditKey(a, c);
    EditKey(a + [c], e);
    assert a + [c] + [e] == a + [c, e];
    EditAppend(a + [c, e], a, b);
    EditKey([], e);
    EditStart();
    assert [] + [e] == [e] && [] + b == b;
    EditAppend([e], [], b);
  }

  lemma {:induction false} EditStart()
    ensures Edit([]) == []
  {
  }

  /** What the next key does to an open line. */
  lemma {:induction false} ScanKey(keys: seq<Byte>, p: nat, text: seq<Byte>, cap: nat)
    requires p < |keys| && |text| < cap
    ensures keys[p] == 0x04 ==> Scan(keys, p, text, cap) == Line(text, p + 1, true)
    ensures keys[p] == 10 || keys[p] == 13 ==> Scan(keys, p, text, cap) == Line(text, p + 1, false)
    ensures keys[p] == 0x08 || keys[p] == 0x7F ==>
              Scan(keys, p, text, cap) == Scan(keys, p + 1, if text == [] then [] else text[..|text| - 1], cap)
    ensures keys[p] !in {0x04, 10, 13, 0x08, 0x7F} ==> Scan(keys, p, text, cap) == Scan(keys, p + 1, text + [keys[p]], cap)
  {
  }

  /** Reading the keys a neither ends the line nor fills it. */
  predicate Open(a: seq<Byte>, cap: nat)
  {
    (forall k | 0 <= k < |a| :: a[k] !in {0x04, 10, 13}) && (forall k | 0 <= k <= |a| :: |Edit(a[..k])| < cap)
  }

  lemma {:induction false} OpenAt(a: seq<Byte>, k: nat, cap: nat)
    requires Open(a, cap) && k <= |a|
    ensures |Edit(a[..k])| < cap
    ensures k < |a| ==> !Terminator(a[k]) && Edit(a[..k + 1]) == Press(Edit(a[..k]), a[k])
  {
    hide Edit, Press;
    if k < |a| {
      EditNext(a, 0, k);
      assert a[0..k] == a[..k] && a[0..k + 1] == a[..k + 1];
    }
  }

  lemma {:induction false} ScanOpen(keys: seq<Byte>, p: nat, a: seq<Byte>, k: nat, cap: nat)
    requires Open(a, cap) && k <= |a| && p + |a| <= |keys| && keys[p..p + |a|] == a
    ensures |Edit(a[..k])| < cap && Scan(keys, p, [], cap) == Scan(keys, p + k, Edit(a[..k]), cap)
    decreases k
  {
    hide Scan, Edit, Press, Open;
    OpenAt(a, k, cap);
    if k == 0 {
      EditStart();
      assert a[..0] == [];
    } else {
      OpenAt(a, k - 1, cap);
      ScanOpen(keys, p, a, k - 1, cap);
      assert keys[p + k - 1] == keys[p..p + |a|][k - 1];
      ScanStep(keys, p + k - 1, Edit(a[..k - 1]), cap);
    }
  }

  /** Two outcomes that differ in the number of keys read only: by d. */
  predicate Alike(r: Line, p: nat, r': Line, p': nat, d: int)
  {
    if r.Starved? then r'.Starved?
    else r'.Line? && r.text == r'.text && r.eof == r'.eof && r'.next - p' == r.next - p + d
  }

  /** A line is decided by the keys still to come. */
  lemma {:induction false} ScanSame(keys: seq<Byte>, p: nat, keys': seq<Byte>, p': nat, text: seq<Byte>, cap: nat)
    requires p <= |keys| && p' <= |keys'| && |text| <= cap && keys[p..] == keys'[p'..]
    ensures Alike(Scan(keys, p, text, cap), p, Scan(keys', p', text, cap), p', 0)
    decreases |keys| - p
  {
    hide Scan, Press;
    assert |keys| - p == |keys[p..]| == |keys'| - p';
    ScanStep(keys, p, text, cap);
    ScanStep(keys', p', text, cap);
    if |text| < cap && p < |keys| {
      assert keys[p] == keys[p..][0] == keys'[p'..][0] == keys'[p'];
      assert keys[p + 1..] == keys[p..][1..] && keys'[p' + 1..] == keys'[p'..][1..];
      if !Terminator(keys[p]) {
        PressRoom(text, keys[p], cap);
        ScanSame(keys, p + 1, keys', p' + 1, Press(text, keys[p]), cap);
      }
    }
  }

  lemma {:induction false} PressRoom(text: seq<Byte>, c: Byte, cap: nat)
    requires |text| < cap
    ensures |Press(text, c)| <= cap
  {
  }

  /** With room on the line, typing a character and erasing it at once reads the same line. */
  lemma {:induction false} ScanErase(keys: seq<Byte>, p: nat, keys': seq<Byte>, p': nat, a: seq<Byte>, c: Byte, e: Byte,
                                     b: seq<Byte>, cap: nat)
    requires p <= |keys| && p' <= |keys'| && keys[p..] == a + b && keys'[p'..] == a + [c, e] + b
    requires Open(a, cap) && |Edit(a)| + 1 < cap
    requires c !in {0x04, 10, 13, 0x08, 0x7F} && (e == 0x08 || e == 0x7F)
    ensures Alike(Scan(keys, p, [], cap), p, Scan(keys', p', [], cap), p', 2)
    ensures var r, r' := Scan(keys, p, [], cap), Scan(keys', p', [], cap);
            r.Line? ==> r.next <= |keys| && r'.next <= |keys'| && keys[r.next..] == keys'[r'.next..]
  {
    hide Scan, Edit, Open, Press;
    var q, q', text := p + |a|, p' + |a|, Edit(a);
    Cut(keys, p, a, [], b);
    Cut(keys', p', a, [c, e], b);
    ScanOpen(keys, p, a, |a|, cap);
    ScanOpen(keys', p', a, |a|, cap);
    ScanErased(keys', q', text, cap);
    ScanSame(keys, q, keys', q' + 2, text, cap);
    var r := Scan(keys, q, text, cap);
    if r.Line? {
      SameRest(keys, q, keys', q' + 2, r.next - q);
    }
  }

  lemma {:induction false} Cut(keys: seq<Byte>, p: nat, a: seq<Byte>, x: seq<Byte>, b: seq<Byte>)
    requires p <= |keys| && (keys[p..] == a + x + b || (x == [] && keys[p..] == a + b))
    ensures p + |a| + |x| + |b| == |keys| && keys[p..p + |a|] == a && keys[p + |a| + |x|..] == b
    ensures forall k | 0 <= k < |x| :: keys[p + |a| + k] == x[k]
    ensures a[..|a|] == a
  {
    assert x == [] ==> a + x + b == a + b;
    var n, m := |a|, |a| + |x|;
    var rest := a + x + b;
    assert |keys| - p == |keys[p..]| == |rest|;
    assert keys[p..p + n] == keys[p..][..n] == rest[..n] == a;
    assert keys[p + m..] == keys[p..][m..] == rest[m..] == b;
    forall k | 0 <= k < |x| ensures keys[p + n + k] == x[k] {
      assert keys[p + n + k] == keys[p..][n + k] == rest[n + k];
    }
  }

  /** A character and an eraser, with room on the line. */
  lemma {:induction false} ScanErased(keys: seq<Byte>, p: nat, text: seq<Byte>, cap: nat)
    requires p + 1 < |keys| && |text| + 1 < cap
    requires keys[p] !in {0x04, 10, 13, 0x08, 0x7F} && (keys[p + 1] == 0x08 || keys[p + 1] == 0x7F)
    ensures Scan(keys, p, text, cap) == Scan(keys, p + 2, text, cap)
  {
    hide Scan;
    ScanKey(keys, p, text, cap);
    ScanKey(keys, p + 1, text + [keys[p]], cap);
    assert (text + [keys[p]])[..|text + [keys[p]]| - 1] == text;
  }

  lemma {:induction false} SameRest(keys: seq<Byte>, p: nat, keys': seq<Byte>, p': nat, d: nat)
    requires p + d <= |keys| && p' <= |keys'| && keys[p..] == keys'[p'..]
    ensures p' + d <= |keys'| && keys[p + d..] == keys'[p' + d..]
  {
    assert |keys[p..]| == |keys'[p'..]|;
    assert keys[p + d..] == keys[p..][d..] && keys'[p' + d..] == keys'[p'..][d..];
  }

  // ---------------------------------------------------------------- the line editor

  /** The shell transport: the keys typed, and how many have been read. */
  class Transport {
    const keys: seq<Byte>
    var pos: nat

    constructor (keys: seq<Byte>)
      ensures this.keys == keys && pos == 0
    {
      this.keys, pos := keys, 0;
    }

    /** lua_fs_shell_readline. waiting stands for blocking on an exhausted key stream. */
    method ReadLine(buf: array<Byte>) returns (n: nat, eof: bool, waiting: bool)
      requires buf.Length >= 1 && pos <= |keys|
      modifies this, buf
      ensures pos <= |keys|
      ensures match Scan(keys, old(pos), [], buf.Length - 1)
              case Starved => waiting && pos == |keys|
              case Line(text, next, e) => !waiting && pos == next && eof == e && n == |text| < buf.Length
                                          && buf[..] == text + Fill(0, buf.Length - n)
    {
      hide Scan;
      var len := buf.Length;
      forall k | 0 <= k < len {
        buf[k] := 0;
      }
      eof, waiting := false, false;
      ghost var text: seq<Byte> := [];
      var i := 0;
      while i < len - 1
        invariant pos <= |keys| && i == |text| <= len - 1 && !eof && !waiting
        invariant Scan(keys, pos, text, len - 1) == Scan(keys, old(pos), [], len - 1)
        invariant forall k | 0 <= k < len :: buf[k] == if k < i then text[k] else 0
        decreases |keys| - pos
      {
        ScanStep(keys, pos, text, len - 1);
        if pos == |keys| {
          return i, false, true;
        }
        var c := keys[pos];
        pos := pos + 1;
        if c == BS || c == DEL {
          text := Press(text, c);
          if i > 0 {
            i := i - 1;
            buf[i] := 0;
          }
          continue;
        }
        if c == EOT {
          assert buf[..] == text + Fill(0, len - i);
          return i, true, false;
        }
        if c == NL || c == CR {
          assert buf[..] == text + Fill(0, len - i);
          return i, false, false;
        }
        text := Press(text, c);
        buf[i] := c;
        i := i + 1;
      }
      ScanStep(keys, pos, text, len - 1);
      assert buf[..] == text + Fill(0, len - i);
      n := len - 1;
    }
  }

  /** ReadLine on two key streams, one of which has a character typed and erased at once while
      the line has room for it: the same buffer, the same outcome, the same keys left. */
  method ReadErased(sh: Transport, sh': Transport, buf: array<Byte>, buf': array<Byte>,
                    a: seq<Byte>, c: Byte, e: Byte, b: seq<Byte>)
    returns (n: nat, eof: bool, waiting: bool, n': nat, eof': bool, waiting': bool)
    requires sh != sh' && buf != buf' && buf.Length == buf'.Length >= 1
    requires sh.pos <= |sh.keys| && sh'.pos <= |sh'.keys|
    requires sh.keys[sh.pos..] == a + b && sh'.keys[sh'.pos..] == a + [c, e] + b
    requires Open(a, buf.Length - 1) && |Edit(a)| + 1 < buf.Length - 1
    requires c !in {0x04, 10, 13, 0x08, 0x7F} && (e == 0x08 || e == 0x7F)
    modifies sh, sh', buf, buf'
    ensures waiting == waiting' && sh.pos <= |sh.keys| && sh'.pos <= |sh'.keys|
    ensures sh.keys[sh.pos..] == sh'.keys[sh'.pos..]
    ensures !waiting ==> n == n' && eof == eof' && buf[..] == buf'[..]
  {
    hide Scan, Open, Edit;
    ScanErase(sh.keys, sh.pos, sh'.keys, sh'.pos, a, c, e, b, buf.Length - 1);
    n, eof, waiting := sh.ReadLine(buf);
    n', eof', waiting' := sh'.ReadLine(buf');
  }

  // ---------------------------------------------------------------- lua_fs write

  /** An open file; complete says that no write so far fell short. */
  class File {
    var content: seq<Byte>
    var present: bool
    ghost var complete: bool

    constructor ()
      ensures content == [] && present && complete
    {
      content, present, complete := [], true, true;
    }

    /** fs_write: appends as much as the file system takes. */
    method Write(data: seq<Byte>)
      modifies this
      ensures present == old(present)
      ensures complete ==> old(complete) && content == old(content) + data
    {
      if * {
        content := content + data;
      } else {
        complete := false;
      }
    }

    /** fs_unlink. */
    method Unlink()
      modifies this
      ensures !present
    {
      present := false;
    }
  }

  datatype Transcript = Unfinished | Cancelled | Written(file: seq<Byte>)

  /** What typing the keys from position p on makes of a file that holds acc so far. */
  function WriteSpec(keys: seq<Byte>, p: nat, cap: nat, acc: seq<Byte>): Transcript
    requires p <= |keys| && cap >= 1
    decreases |keys| - p
  {
    match Scan(keys, p, [], cap)
    case Starved => Unfinished
    case Line(text, next, eof) =>
      if eof then Cancelled
      else if text == [DOT] then Written(acc)
      else WriteSpec(keys, next, cap, acc + text + [NL])
  }

  lemma {:induction false} WriteUnfold(keys: seq<Byte>, p: nat, cap: nat, acc: seq<Byte>)
    requires p <= |keys| && cap >= 1
    ensures WriteSpec(keys, p, cap, acc) ==
            match Scan(keys, p, [], cap)
            case Starved => Unfinished
            case Line(text, next, eof) =>
              if eof then Cancelled
              else if text == [DOT] then Written(acc)
              else WriteSpec(keys, next, cap, acc + text + [NL])
  {
  }

  /** The loop of cmd_write on a file that has been opened and truncated. Results of fs_write
      are ignored, so the file is as specified only if every write was complete. */
  method CmdWrite(sh: Transport, file: File) returns (outcome: Transcript)
    requires sh.pos <= |sh.keys| && file.content == [] && file.present && file.complete
    modifies sh, file
    ensures outcome.Unfinished? <==> WriteSpec(sh.keys, old(sh.pos), 255, []).Unfinished?
    ensures outcome.Cancelled? <==> WriteSpec(sh.keys, old(sh.pos), 255, []).Cancelled?
    ensures outcome.Cancelled? ==> !file.present
    ensures outcome.Written? ==> file.present && outcome.file == file.content
    ensures outcome.Written? && file.complete ==> outcome == WriteSpec(sh.keys, old(sh.pos), 255, [])
  {
    hide Scan, WriteSpec;
    var line := new Byte[256];
    ghost var acc: seq<Byte> := [];
    while true
      invariant sh.pos <= |sh.keys| && file.present
      invariant WriteSpec(sh.keys, sh.pos, 255, acc) == WriteSpec(sh.keys, old(sh.pos), 255, [])
      invariant file.complete ==> file.content == acc
      decreases |sh.keys| - sh.pos
    {
      ghost var spec := Scan(sh.keys, sh.pos, [], 255);
      WriteUnfold(sh.keys, sh.pos, 255, acc);
      var n, eof, waiting := sh.ReadLine(line);
      if waiting {
        return Unfinished;
      }
      assert line[..n] == spec.text;
      if eof {
        file.Unlink();
        return Cancelled;
      }
      if n == 1 && line[0] == DOT {
        assert spec.text == [line[0]];
        return Written(file.content);
      }
      assert spec.text != [DOT];
      if n > 0 {
        file.Write(line[..n]);
      }
      file.Write([NL]);
      acc := acc + spec.text + [NL];
    }
  }

  // ---------------------------------------------------------------- typing a script in

  /** A line that can be typed as it is. */
  predicate Typable(l: seq<Byte>, cap: nat)
  {
    |l| < cap && forall k | 0 <= k < |l| :: !Eraser(l[k]) && !Terminator(l[k])
  }

  predicate Plain(keys: seq<Byte>)
  {
    forall k | 0 <= k < |keys| :: !Eraser(keys[k])
  }

  lemma {:induction false} PlainLast(keys: seq<Byte>)
    requires keys != []
    ensures Plain(keys) <==> Plain(keys[..|keys| - 1]) && !Eraser(keys[|keys| - 1])
  {
    var init := keys[..|keys| - 1];
    if Plain(init) && !Eraser(keys[|keys| - 1]) {
      assert forall k | 0 <= k < |init| :: keys[k] == init[k];
    }
  }

  /** Every key of a stream stays on the line exactly when none of them erases. */
  lemma {:induction false} EditKeeps(keys: seq<Byte>)
    ensures |Edit(keys)| == |keys| <==> Plain(keys)
    ensures Plain(keys) ==> Edit(keys) == keys
    decreases |keys|
  {
    if keys != [] {
      var n := |keys| - 1;
      PlainLast(keys);
      assert Edit(keys) == Press(Edit(keys[..n]), keys[n]);
      assert keys == keys[..n] + [keys[n]];
      hide Edit, Plain;
      EditKeeps(keys[..n]);
    }
  }

  lemma {:induction false} ScanTyped(keys: seq<Byte>, p: nat, k: nat, l: seq<Byte>, cap: nat)
    requires Typable(l, cap) && k <= |l| && p + |l| < |keys| && keys[p..p + |l|] == l && keys[p + |l|] == NL
    ensures Scan(keys, p + k, l[..k], cap) == Line(l, p + |l| + 1, false)
    decreases |l| - k
  {
    hide Scan;
    ScanStep(keys, p + k, l[..k], cap);
    if k < |l| {
      assert keys[p..p + |l|][k] == keys[p + k];
      ScanTyped(keys, p, k + 1, l, cap);
      assert l[..k + 1] == l[..k] + [l[k]];
    } else {
      assert l[..k] == l;
    }
  }

  /** Typing a line and the newline key yields exactly that line if and only if it is shorter
      than the buffer allows and holds no erasing or terminating character. */
  lemma {:induction false} TypedLineIff(l: seq<Byte>, rest: seq<Byte>, cap: nat)
    requires cap >= 1
    ensures Scan(l + [NL] + rest, 0, [], cap) == Line(l, |l| + 1, false) <==> Typable(l, cap)
  {
    hide Scan, Edit;
    var keys := l + [NL] + rest;
    assert keys[|l|] == NL && keys[0..|l|] == l && l[..0] == [] && keys[0..0] == [];
    if Typable(l, cap) {
      ScanTyped(keys, 0, 0, l, cap);
    }
    if Scan(keys, 0, [], cap) == Line(l, |l| + 1, false) {
      assert Edit([]) == [];
      var q := ScanIsEdit(keys, 0, 0, cap);
      assert q == |l|;
      EditKeeps(l);
      assert forall k | 0 <= k < |l| :: l[k] == keys[k];
    }
  }

  function Flatten(lines: seq<seq<Byte>>): seq<Byte>
  {
    if lines == [] then [] else lines[0] + [NL] + Flatten(lines[1..])
  }

  lemma {:induction false} FirstTyped(keys: seq<Byte>, p: nat, l: seq<Byte>, tail: seq<Byte>, cap: nat)
    requires p <= |keys| && Typable(l, cap)
    requires keys[p..] == l + ([NL] + tail)
    ensures p + |l| < |keys| && keys[p + |l| + 1..] == tail
    ensures Scan(keys, p, [], cap) == Line(l, p + |l| + 1, false)
  {
    hide Typable, Scan;
    var next := p + |l| + 1;
    assert keys[p..] == l + [NL] + tail;
    assert |keys[p..]| == |l| + 1 + |tail|;
    assert keys[p..p + |l|] == keys[p..][..|l|] == l;
    assert keys[p + |l|] == keys[p..][|l|] == NL;
    assert keys[next..] == keys[p..][|l| + 1..] == tail;
    assert l[..0] == [];
    ScanTyped(keys, p, 0, l, cap);
  }

  lemma {:induction false} WriteStep(keys: seq<Byte>, p: nat, cap: nat, acc: seq<Byte>, l: seq<Byte>, next: nat)
    requires p <= |keys| && cap >= 1 && Scan(keys, p, [], cap) == Line(l, next, false)
    ensures WriteSpec(keys, p, cap, acc) ==
            if l == [DOT] then Written(acc) else WriteSpec(keys, next, cap, acc + l + [NL])
  {
  }

  lemma {:induction false} FlattenFirst(lines: seq<seq<Byte>>, acc: seq<Byte>)
    requires lines != []
    ensures Flatten(lines) == lines[0] + [NL] + Flatten(lines[1..])
    ensures acc + Flatten(lines) == acc + lines[0] + [NL] + Flatten(lines[1..])
    ensures Flatten(lines) + [DOT, NL] == lines[0] + ([NL] + (Flatten(lines[1..]) + [DOT, NL]))
  {
  }

  lemma {:induction false} TypedScriptFrom(keys: seq<Byte>, p: nat, lines: seq<seq<Byte>>, cap: nat, acc: seq<Byte>)
    requires cap >= 2 && p <= |keys| && keys[p..] == Flatten(lines) + [DOT, NL]
    requires forall k | 0 <= k < |lines| :: Typable(lines[k], cap) && lines[k] != [DOT]
    ensures WriteSpec(keys, p, cap, acc) == Written(acc + Flatten(lines))
    decreases |lines|
  {
    if lines == [] {
      assert keys[p..] == [DOT] + ([NL] + []);
      assert Typable([DOT], cap) && acc + Flatten(lines) == acc;
      hide Typable, Scan, Flatten, WriteSpec;
      FirstTyped(keys, p, [DOT], [], cap);
      WriteStep(keys, p, cap, acc, [DOT], p + 2);
    } else {
      hide Typable, Scan, Flatten, WriteSpec;
      var l, more := lines[0], lines[1..];
      FlattenFirst(lines, acc);
      FirstTyped(keys, p, l, Flatten(more) + [DOT, NL], cap);
      WriteStep(keys, p, cap, acc, l, p + |l| + 1);
      TypedScriptFrom(keys, p + |l| + 1, more, cap, acc + l + [NL]);
    }
  }

  /** A script of typable lines, none of them a lone dot, typed line by line and closed with a
      lone dot, ends up in the file verbatim. */
  lemma {:induction false} TypedScript(lines: seq<seq<Byte>>)
    requires forall k | 0 <= k < |lines| :: Typable(lines[k], 255) && lines[k] != [DOT]
    ensures WriteSpec(Flatten(lines) + [DOT, NL], 0, 255, []) == Written(Flatten(lines))
  {
    var keys := Flatten(lines) + [DOT, NL];
    assert keys[0..] == keys;
    TypedScriptFrom(keys, 0, lines, 255, []);
    assert [] + Flatten(lines) == Flatten(lines);
  }

  // ---------------------------------------------------------------- which scripts can be typed

  /** A key that is neither erased nor ends the input: text or a newline. */
  predicate Textual(c: Byte)
  {
    !Eraser(c) && (Terminator(c) ==> c == NL)
  }

  lemma {:induction false} EditClean(keys: seq<Byte>)
    ensures forall k | 0 <= k < |Edit(keys)| :: !Eraser(Edit(keys)[k]) && Edit(keys)[k] in keys
    decreases |keys|
  {
    if keys != [] {
      EditClean(keys[..|keys| - 1]);
    }
  }

  lemma {:induction false} ScanClean(keys: seq<Byte>, p: nat, cap: nat)
    requires p <= |keys| && Scan(keys, p, [], cap).Line?
    ensures forall k | 0 <= k < |Scan(keys, p, [], cap).text| ::
              !Eraser(Scan(keys, p, [], cap).text[k]) && !Terminator(Scan(keys, p, [], cap).text[k])
  {
    hide Scan, Edit;
    assert keys[p..p] == [] && Edit([]) == [];
    var q := ScanIsEdit(keys, p, p, cap);
    EditClean(keys[p..q]);
    forall k | p <= k < q ensures keys[p..q][k - p] == keys[k] && !Terminator(keys[k]) {
    }
  }

  /** What is written extends what was there, by text and newlines only. */
  lemma {:induction false} WrittenTextual(keys: seq<Byte>, p: nat, cap: nat, acc: seq<Byte>)
    requires p <= |keys| && cap >= 1 && WriteSpec(keys, p, cap, acc).Written?
    ensures var file := WriteSpec(keys, p, cap, acc).file;
            acc <= file && forall k | |acc| <= k < |file| :: Textual(file[k])
    decreases |keys| - p
  {
    var line := Scan(keys, p, [], cap);
    hide Scan;
    ScanClean(keys, p, cap);
    if line.text != [DOT] {
      WrittenTextual(keys, line.next, cap, acc + line.text + [NL]);
      assert acc <= acc + line.text + [NL];
    }
  }

  function Newlines(s: seq<Byte>): (n: nat)
    ensures n <= |s|
  {
    if s == [] then 0 else (if s[0] == NL then 1 else 0) + Newlines(s[1..])
  }

  lemma {:induction false} NewlinesAppend(s: seq<Byte>, t: seq<Byte>)
    ensures Newlines(s + t) == Newlines(s) + Newlines(t)
  {
    if s == [] {
      assert s + t == t;
    } else {
      NewlinesAppend(s[1..], t);
      assert (s + t)[1..] == s[1..] + t;
    }
  }

  lemma {:induction false} NewlinesNone(s: seq<Byte>)
    requires NL !in s
    ensures Newlines(s) == 0
  {
    if s != [] {
      NewlinesNone(s[1..]);
    }
  }

  /** A line read from text only is the next piece of it, ended by its newline or by being full. */
  lemma {:induction false} TextLine(keys: seq<Byte>, p: nat, cap: nat)
    requires p <= |keys| && cap >= 1 && (forall k | p <= k < |keys| :: Textual(keys[k])) && Scan(keys, p, [], cap).Line?
    ensures var r := Scan(keys, p, [], cap);
            var q := p + |r.text|;
            && !r.eof && q <= |keys| && r.text == keys[p..q] && NL !in r.text
            && (if |r.text| == cap then r.next == q else q < |keys| && keys[q] == NL && r.next == q + 1)
  {
    hide Scan, Edit;
    assert keys[p..p] == [] && Edit([]) == [];
    var q := ScanIsEdit(keys, p, p, cap);
    var s := keys[p..q];
    forall k | 0 <= k < |s| ensures !Eraser(s[k]) && s[k] != NL {
      assert s[k] == keys[p + k];
    }
    EditKeeps(s);
  }

  lemma {:induction false} TextPiece(keys: seq<Byte>, p: nat, cap: nat)
    requires p <= |keys| && cap >= 2 && (forall k | p <= k < |keys| :: Textual(keys[k])) && Scan(keys, p, [], cap).Line?
    ensures var r := Scan(keys, p, [], cap);
            && !r.eof && p < r.next <= |keys| && NL !in r.text
            && (keys[p..r.next] == r.text || keys[p..r.next] == r.text + [NL])
            && (r.text == [DOT] ==> p + 1 < |keys| && keys[p] == DOT && keys[p + 1] == NL)
  {
    hide Scan, Textual;
    TextLine(keys, p, cap);
    var r := Scan(keys, p, [], cap);
    if r.text == [DOT] {
      assert keys[p] == keys[p..p + 1][0];
    }
  }

  /** Typed text is written up to the dot that ends it: with every other character, and with at
      least its newlines. */
  lemma {:induction false} WrittenCounts(keys: seq<Byte>, p: nat, cap: nat, acc: seq<Byte>) returns (q: nat)
    requires p <= |keys| && cap >= 2 && (forall k | p <= k < |keys| :: Textual(keys[k]))
    requires WriteSpec(keys, p, cap, acc).Written?
    ensures p <= q && q + 1 < |keys| && keys[q] == DOT && keys[q + 1] == NL
    ensures var file := WriteSpec(keys, p, cap, acc).file;
            && Newlines(file) >= Newlines(acc) + Newlines(keys[p..q])
            && |file| - Newlines(file) == |acc| - Newlines(acc) + (q - p) - Newlines(keys[p..q])
    decreases |keys| - p
  {
    var line := Scan(keys, p, [], cap);
    assert line.Line?;
    hide Scan, WriteSpec, Newlines, Textual;
    TextPiece(keys, p, cap);
    WriteStep(keys, p, cap, acc, line.text, line.next);
    if line.text == [DOT] {
      q := p;
      assert keys[p..q] == [] && Newlines([]) == 0;
    } else {
      var acc', next := acc + line.text + [NL], line.next;
      q := WrittenCounts(keys, next, cap, acc');
      var file := WriteSpec(keys, p, cap, acc).file;
      PieceCounts(keys, p, next, q, acc, line.text, |file|, Newlines(file));
    }
  }

  lemma {:induction false} LineCounts(acc: seq<Byte>, text: seq<Byte>)
    requires NL !in text
    ensures Newlines(acc + text + [NL]) == Newlines(acc) + 1
    ensures Newlines(text) == 0 && Newlines(text + [NL]) == 1
  {
    assert Newlines([NL]) == 1 by { assert [NL][1..] == []; }
    hide Newlines;
    NewlinesAppend(acc + text, [NL]);
    NewlinesAppend(acc, text);
    NewlinesAppend(text, [NL]);
    NewlinesNone(text);
  }

  /** The counts of a file of the given size, seen from before a line instead of after it. */
  lemma {:induction false} PieceCounts(keys: seq<Byte>, p: nat, next: nat, q: nat, acc: seq<Byte>, text: seq<Byte>,
                                       size: nat, lines: nat)
    requires p <= next <= q <= |keys| && NL !in text
    requires keys[p..next] == text || keys[p..next] == text + [NL]
    requires lines >= Newlines(acc + text + [NL]) + Newlines(keys[next..q])
    requires size - lines == |acc + text + [NL]| - Newlines(acc + text + [NL]) + (q - next) - Newlines(keys[next..q])
    ensures lines >= Newlines(acc) + Newlines(keys[p..q])
    ensures size - lines == |acc| - Newlines(acc) + (q - p) - Newlines(keys[p..q])
  {
    hide Newlines;
    LineCounts(acc, text);
    assert keys[p..q] == keys[p..next] + keys[next..q];
    NewlinesAppend(keys[p..next], keys[next..q]);
  }

  /** A line that can be typed but for its length. */
  predicate Smooth(l: seq<Byte>)
  {
    forall k | 0 <= k < |l| :: !Eraser(l[k]) && !Terminator(l[k])
  }

  lemma {:induction false} ScanFull(keys: seq<Byte>, p: nat, k: nat, l: seq<Byte>, cap: nat)
    requires Smooth(l) && k <= cap <= |l| && p + |l| <= |keys| && keys[p..p + |l|] == l
    ensures Scan(keys, p + k, l[..k], cap) == Line(l[..cap], p + cap, false)
    decreases cap - k
  {
    hide Scan;
    ScanStep(keys, p + k, l[..k], cap);
    if k < cap {
      assert keys[p..p + |l|][k] == keys[p + k];
      ScanFull(keys, p, k + 1, l, cap);
      assert l[..k + 1] == l[..k] + [l[k]];
    }
  }

  lemma {:induction false} TwoNewlines(s: seq<Byte>)
    ensures s + [NL] + [] + [NL] == s + [NL, NL]
  {
  }

  /** A line that is exactly full ends before its newline key, which then ends an empty line. */
  lemma {:induction false} FullLine(keys: seq<Byte>, p: nat, cap: nat, acc: seq<Byte>, l: seq<Byte>)
    requires cap >= 2 && Smooth(l) && |l| == cap && p + cap < |keys| && keys[p..p + cap] == l && keys[p + cap] == NL
    ensures WriteSpec(keys, p, cap, acc) == WriteSpec(keys, p + cap + 1, cap, acc + l + [NL, NL])
  {
    hide Scan, WriteSpec, Smooth;
    assert l[..0] == [] && l[..cap] == l;
    ScanFull(keys, p, 0, l, cap);
    ScanStep(keys, p + cap, [], cap);
    WriteStep(keys, p, cap, acc, l, p + cap);
    WriteStep(keys, p + cap, cap, acc + l + [NL], [], p + cap + 1);
    TwoNewlines(acc + l);
  }

  lemma {:induction false} LongLine(keys: seq<Byte>, p: nat, cap: nat, acc: seq<Byte>, l: seq<Byte>)
    requires cap >= 2 && Smooth(l) && |l| > cap && p + |l| <= |keys| && keys[p..p + |l|] == l
    ensures WriteSpec(keys, p, cap, acc) == WriteSpec(keys, p + cap, cap, acc + l[..cap] + [NL])
  {
    assert l[..0] == [];
    ScanFull(keys, p, 0, l, cap);
    hide Scan, WriteSpec;
    WriteStep(keys, p, cap, acc, l[..cap], p + cap);
  }

  function Ink(s: seq<Byte>): nat
  {
    |s| - Newlines(s)
  }

  lemma {:induction false} InkSplit(s: seq<Byte>, k: nat)
    requires k < |s| && s[k] == DOT
    ensures Ink(s) > Ink(s[..k])
  {
    assert s == s[..k] + s[k..];
    NewlinesAppend(s[..k], s[k..]);
    assert Newlines(s[k..]) == Newlines(s[k..][1..]);
  }

  /** After an exactly full line the file has a newline too many, whatever follows. */
  lemma {:induction false} FullLineShows(keys: seq<Byte>, p: nat, cap: nat, acc: seq<Byte>, rest: seq<Byte>)
    requires cap >= 2 && p <= |keys| && keys[p..] == rest + [DOT, NL] && forall k | p <= k < |keys| :: Textual(keys[k])
    ensures WriteSpec(keys, p, cap, acc + [NL, NL]) != Written(acc + [NL] + rest)
  {
    if WriteSpec(keys, p, cap, acc + [NL, NL]) == Written(acc + [NL] + rest) {
      var q := WrittenCounts(keys, p, cap, acc + [NL, NL]);
      var seen := keys[p..q];
      assert seen == keys[p..][..q - p] && keys[q] == keys[p..][q - p];
      assert |keys[p..]| == |rest| + 2;
      assert |seen| == |rest| ==> seen == rest;
      hide WriteSpec, Newlines;
      FileCounts(acc, rest);
      if |seen| < |rest| {
        assert rest[..|seen|] == seen && rest[|seen|] == DOT;
        InkSplit(rest, |seen|);
      }
    }
  }

  lemma {:induction false} FileCounts(acc: seq<Byte>, rest: seq<Byte>)
    ensures Newlines(acc + [NL, NL]) == Newlines(acc) + 2
    ensures Newlines(acc + [NL] + rest) == Newlines(acc) + 1 + Newlines(rest)
  {
    assert [NL][1..] == [] && [NL, NL][1..] == [NL];
    NewlinesAppend(acc, [NL, NL]);
    NewlinesAppend(acc, [NL]);
    NewlinesAppend(acc + [NL], rest);
  }

  /** A lone dot or a line that fills the buffer cannot be typed. */
  lemma {:induction false} BadLine(keys: seq<Byte>, p: nat, lines: seq<seq<Byte>>, cap: nat, acc: seq<Byte>)
    requires cap >= 2 && p <= |keys| && lines != [] && keys[p..] == Flatten(lines) + [DOT, NL]
    requires (forall k | p <= k < |keys| :: Textual(keys[k])) && Smooth(lines[0])
    requires lines[0] == [DOT] || |lines[0]| >= cap
    ensures WriteSpec(keys, p, cap, acc) != Written(acc + Flatten(lines))
  {
    hide Scan, WriteSpec, Flatten;
    var l, rest := lines[0], Flatten(lines[1..]);
    FlattenFirst(lines, acc);
    assert |keys[p..]| == |l| + 1 + |rest| + 2;
    assert keys[p..p + |l|] == keys[p..][..|l|] == l && keys[p + |l|] == keys[p..][|l|] == NL;
    if l == [DOT] {
      FirstTyped(keys, p, l, rest + [DOT, NL], cap);
      WriteStep(keys, p, cap, acc, l, p + |l| + 1);
    } else if |l| > cap {
      LongLine(keys, p, cap, acc, l);
      var start := acc + l[..cap] + [NL];
      if WriteSpec(keys, p, cap, acc).Written? {
        WrittenTextual(keys, p + cap, cap, start);
        assert start[|acc| + cap] == NL;
        assert (acc + Flatten(lines))[|acc| + cap] == l[cap];
      }
    } else {
      FullLine(keys, p, cap, acc, l);
      var next := p + cap + 1;
      assert keys[next..] == keys[p..][cap + 1..] == rest + [DOT, NL];
      FullLineShows(keys, next, cap, acc + l, rest);
    }
  }

  lemma {:induction false} TypedScriptOnly(keys: seq<Byte>, p: nat, lines: seq<seq<Byte>>, cap: nat, acc: seq<Byte>)
    requires cap >= 2 && p <= |keys| && keys[p..] == Flatten(lines) + [DOT, NL]
    requires (forall k | p <= k < |keys| :: Textual(keys[k])) && forall k | 0 <= k < |lines| :: Smooth(lines[k])
    requires WriteSpec(keys, p, cap, acc) == Written(acc + Flatten(lines))
    ensures forall k | 0 <= k < |lines| :: Typable(lines[k], cap) && lines[k] != [DOT]
    decreases |lines|
  {
    if lines != [] {
      var l, more := lines[0], lines[1..];
      if l == [DOT] || |l| >= cap {
        BadLine(keys, p, lines, cap, acc);
      } else {
        hide Scan, Flatten, WriteSpec;
        FlattenFirst(lines, acc);
        FirstTyped(keys, p, l, Flatten(more) + [DOT, NL], cap);
        WriteStep(keys, p, cap, acc, l, p + |l| + 1);
        TypedScriptOnly(keys, p + |l| + 1, more, cap, acc + l + [NL]);
        forall k | 0 <= k < |lines| ensures Typable(lines[k], cap) && lines[k] != [DOT] {
          assert k > 0 ==> lines[k] == more[k - 1];
        }
      }
    }
  }

  lemma {:induction false} FlattenHas(lines: seq<seq<Byte>>, i: nat, c: Byte)
    requires i < |lines| && c in lines[i]
    ensures c in Flatten(lines)
  {
    if i > 0 {
      FlattenHas(lines[1..], i - 1, c);
    }
  }

  /** A script, typed line by line and closed with a lone dot, is in the file verbatim if and
      only if every line is shorter than 255 characters, has no erasing or terminating key and
      is no lone dot. */
  lemma {:induction false} TypedScriptIff(lines: seq<seq<Byte>>)
    requires forall k | 0 <= k < |lines| :: NL !in lines[k]
    ensures WriteSpec(Flatten(lines) + [DOT, NL], 0, 255, []) == Written(Flatten(lines))
            <==> forall k | 0 <= k < |lines| :: Typable(lines[k], 255) && lines[k] != [DOT]
  {
    var text := Flatten(lines);
    var keys := text + [DOT, NL];
    if forall k | 0 <= k < |lines| :: Typable(lines[k], 255) && lines[k] != [DOT] {
      TypedScript(lines);
    }
    if WriteSpec(keys, 0, 255, []) == Written(text) {
      hide WriteSpec, Scan, Flatten;
      WrittenTextual(keys, 0, 255, []);
      forall k | 0 <= k < |lines| ensures Smooth(lines[k]) {
        forall j | 0 <= j < |lines[k]| ensures !Eraser(lines[k][j]) && !Terminator(lines[k][j]) {
          FlattenHas(lines, k, lines[k][j]);
          var i :| 0 <= i < |text| && text[i] == lines[k][j];
          assert Textual(text[i]);
        }
      }
      assert keys[0..] == keys && [] + text == text;
      TypedScriptOnly(keys, 0, lines, 255, []);
    }
  }

  /** A line of exactly 255 characters is followed by a blank line that nobody typed. */
  lemma {:induction false} FullLineWritten(l: seq<Byte>)
    requires Smooth(l) && |l| == 255
    ensures WriteSpec(l + [NL] + [DOT, NL], 0, 255, []) == Written(l + [NL, NL])
  {
    var keys := l + [NL] + [DOT, NL];
    assert keys[0..0 + 255] == l && keys[255] == NL;
    FullLine(keys, 0, 255, [], l);
    assert keys[256..] == Flatten([]) + [DOT, NL];
    TypedScriptFrom(keys, 256, [], 255, [] + l + [NL, NL]);
    assert [] + l + [NL, NL] + Flatten([]) == l + [NL, NL];
  }

  lemma {:induction false} LineGrows(c: Byte, d: Byte)
    ensures [] + [c] == [c] && [c] + [d] == [c, d] && [c, d][..1] == [c] && [c][..0] == []
    ensures [] + [] + [c] == [c] && [] + [c, d] + [10] == [c, d, 10] && [c, d, 10] + [] + [10] == [c, d, 10, 10]
  {
  }

  /** Keys as they come from a keyboard: `ab`, backspace, `c`, return, then `d`, delete, newline,
      then the lone dot. */
  lemma {:induction false} Keyboard()
    ensures WriteSpec([97, 98, 0x08, 99, 13, 100, 0x7F, 10, 46, 10], 0, 255, []) == Written([97, 99, 10, 10])
  {
    hide Scan, WriteSpec, Eraser, Terminator, Press;
    var keys := [97, 98, 0x08, 99, 13, 100, 0x7F, 10, 46, 10];
    LineGrows(97, 98);
    LineGrows(97, 99);
    LineGrows(100, 46);
    LineGrows(46, 46);
    ScanKey(keys, 0, [], 255);
    ScanKey(keys, 1, [97], 255);
    ScanKey(keys, 2, [97, 98], 255);
    ScanKey(keys, 3, [97], 255);
    ScanKey(keys, 4, [97, 99], 255);
    WriteUnfold(keys, 0, 255, []);
    ScanKey(keys, 5, [], 255);
    ScanKey(keys, 6, [100], 255);
    ScanKey(keys, 7, [], 255);
    WriteUnfold(keys, 5, 255, [97, 99, 10]);
    ScanKey(keys, 8, [], 255);
    ScanKey(keys, 9, [46], 255);
    WriteUnfold(keys, 8, 255, [97, 99, 10, 10]);
  }

  /** End of transmission cancels, also after a lone dot; a dot without a line end is not the end. */
  lemma {:induction false} KeyboardEnds()
    ensures WriteSpec([97, 0x04], 0, 255, []) == Cancelled
    ensures WriteSpec([46, 0x04], 0, 255, []) == Cancelled
    ensures WriteSpec([97, 10, 46], 0, 255, []) == Unfinished
  {
    hide Scan, WriteSpec, Eraser, Terminator, Press;
    var cancel, open := [97, 0x04], [97, 10, 46];
    LineGrows(97, 10);
    LineGrows(46, 46);
    ScanKey(cancel, 0, [], 255);
    ScanKey(cancel, 1, [97], 255);
    WriteUnfold(cancel, 0, 255, []);
    var dot := [46, 0x04];
    ScanKey(dot, 0, [], 255);
    ScanKey(dot, 1, [46], 255);
    WriteUnfold(dot, 0, 255, []);
    ScanKey(open, 0, [], 255);
    ScanKey(open, 1, [97], 255);
    WriteUnfold(open, 0, 255, []);
    ScanKey(open, 2, [], 255);
    ScanStep(open, 3, [46], 255);
    WriteUnfold(open, 2, 255, [] + [97] + [10]);
  }

  // ---------------------------------------------------------------- lua_fs cat

  /** Chunks of at most cap bytes, each printed with %s. */
  function Printed(file: seq<Byte>, cap: nat): seq<Byte>
    requires cap >= 1
    decreases |file|
  {
    if file == [] then []
    else
      var n := Min(cap, |file|);
      CStr(file[..n]) + Printed(file[n..], cap)
  }

  lemma {:induction false} PrintedStep(out: seq<Byte>, file: seq<Byte>, cap: nat)
    requires cap >= 1 && file != []
    ensures var n := Min(cap, |file|);
            out + Printed(file, cap) == out + CStr(file[..n]) + Printed(file[n..], cap)
  {
    hide CStr;
  }

  /** The loop of cmd_cat: the bytes it prints before the closing newline. */
  method CmdCat(file: seq<Byte>) returns (out: seq<Byte>)
    ensures out == Printed(file, 127)
    ensures out == file <==> 0 !in file
  {
    hide CStr;
    out := [];
    var rest := file;
    while true
      invariant out + Printed(rest, 127) == Printed(file, 127)
      decreases |rest|
    {
      var n := Min(127, |rest|);
      if n <= 0 {
        break;
      }
      PrintedStep(out, rest, 127);
      out := out + CStr(rest[..n]);
      rest := rest[n..];
    }
    PrintedIff(file, 127);
  }

  lemma {:induction false} CStrAll(s: seq<Byte>)
    ensures CStr(s) == s <==> 0 !in s
    ensures |CStr(s)| == |s| ==> CStr(s) == s
  {
    assert CStr(s) == s[..|CStr(s)|];
    if |CStr(s)| < |s| {
      assert s[|CStr(s)|] == 0;
    }
  }

  /** What is printed is the file if and only if the file holds no NUL byte. */
  lemma {:induction false} PrintedIff(file: seq<Byte>, cap: nat)
    requires cap >= 1
    ensures |Printed(file, cap)| <= |file|
    ensures |Printed(file, cap)| == |file| <==> 0 !in file
    ensures Printed(file, cap) == file <==> 0 !in file
    decreases |file|
  {
    if file != [] {
      var n := Min(cap, |file|);
      var a, b := file[..n], file[n..];
      PrintedIff(b, cap);
      CStrAll(a);
      assert file == a + b;
      assert 0 in file <==> 0 in a || 0 in b;
    }
  }
}
