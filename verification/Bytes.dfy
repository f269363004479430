/** Little-endian storage of integers in bytes, and C's wrap-around between widths.
    All widths are counted in bytes. */
module Bytes {
  type Byte = b: int | 0 <= b < 256

  /** The number of values a k-byte word can hold. */
  function Pow256(k: nat): (p: nat)
    ensures p >= 1
    ensures k >= 1 ==> p % 2 == 0
  {
    if k == 0 then 1 else 256 * Pow256(k - 1)
  }

  /** The low k bytes of the two's-complement form of v, least significant first. */
  function ToLE(v: int, k: nat): (s: seq<Byte>)
    ensures |s| == k
    decreases k
  {
    if k == 0 then [] else [v % 256] + ToLE(v / 256, k - 1)
  }

  function FromLE(s: seq<Byte>): (v: nat)
    ensures v < Pow256(|s|)
  {
    if s == [] then 0 else s[0] + 256 * FromLE(s[1..])
  }

  /** Two's-complement reading of an unsigned k-byte word. */
  function AsSigned(u: int, k: nat): (v: int)
  {
    if 2 * u < Pow256(k) then u else u - Pow256(k)
  }

  /** Conversion of any integer to a signed k-byte integer. */
  function WrapS(v: int, k: nat): (r: int)
    ensures 0 <= 2 * r + Pow256(k) < 2 * Pow256(k)
  {
    AsSigned(v % Pow256(k), k)
  }

  lemma {:induction false} DivModUnique(x: int, d: int, q: int, r: int)
    requires 0 <= r < d && x == d * q + r
    ensures x / d == q && x % d == r
  {
    var q', r' := x / d, x % d;
    assert d * (q - q') == r' - r;
    assert q - q' >= 1 ==> d * (q - q') >= d;
    assert q - q' <= -1 ==> d * (q - q') <= -d;
  }

  /** Division and remainder by 256 * d, one byte at a time. */
  lemma {:induction false} DivModStep(v: int, d: int)
    requires d >= 1
    ensures (v / 256) / d == v / (256 * d)
    ensures v % (256 * d) == v % 256 + 256 * ((v / 256) % d)
  {
    var q, r := v / 256, v % 256;
    var a, b := q / d, q % d;
    assert q == d * a + b;
    calc {
      v;
      256 * q + r;
      256 * (d * a + b) + r;
      256 * (d * a) + (256 * b + r);
      (256 * d) * a + (256 * b + r);
    }
    DivModUnique(v, 256 * d, a, 256 * b + r);
  }

  lemma {:induction false} FromToLE(v: int, k: nat)
    ensures FromLE(ToLE(v, k)) == v % Pow256(k)
    decreases k
  {
    if k > 0 {
      FromToLE(v / 256, k - 1);
      DivModStep(v, Pow256(k - 1));
      assert ToLE(v, k)[1..] == ToLE(v / 256, k - 1);
    }
  }

  lemma {:induction false} ToFromLE(s: seq<Byte>)
    ensures ToLE(FromLE(s), |s|) == s
  {
    if s != [] {
      ToFromLE(s[1..]);
      var v := FromLE(s);
      DivModUnique(v, 256, FromLE(s[1..]), s[0]);
    }
  }

  /** Storing in k bytes sees a value only modulo 256^k, and sees all of that. */
  lemma {:induction false} ToLEModulo(u: int, v: int, k: nat)
    ensures ToLE(u, k) == ToLE(v, k) <==> u % Pow256(k) == v % Pow256(k)
  {
    FromToLE(u, k);
    FromToLE(v, k);
    ToFromLE(ToLE(u, k));
    ToFromLE(ToLE(v, k));
  }

  lemma {:induction false} AsSignedModulo(u: int, k: nat)
    requires 0 <= u < Pow256(k)
    ensures AsSigned(u, k) % Pow256(k) == u
  {
    var p := Pow256(k);
    if 2 * u < p {
      DivModUnique(u, p, 0, u);
    } else {
      DivModUnique(u - p, p, -1, u);
    }
  }

  lemma {:induction false} WrapSModulo(v: int, k: nat)
    ensures WrapS(v, k) % Pow256(k) == v % Pow256(k)
  {
    AsSignedModulo(v % Pow256(k), k);
  }

  /** A value already in range is not changed by the conversion. */
  lemma {:induction false} WrapSFix(v: int, k: nat)
    requires 0 <= 2 * v + Pow256(k) < 2 * Pow256(k)
    ensures WrapS(v, k) == v
  {
    var p := Pow256(k);
    if v >= 0 {
      DivModUnique(v, p, 0, v);
    } else {
      DivModUnique(v, p, -1, v + p);
    }
  }

  /** Storing takes the low bytes first and the rest from the quotient. */
  lemma {:induction false} ToLESplit(v: int, a: nat, b: nat)
    ensures ToLE(v, a + b) == ToLE(v, a) + ToLE(v / Pow256(a), b)
    decreases a
  {
    if a == 0 {
      assert v / 1 == v;
    } else {
      ToLESplit(v / 256, a - 1, b);
      DivModStep(v, Pow256(a - 1));
      assert ToLE(v / 256, (a - 1) + b) == ToLE(v / 256, a + b - 1);
    }
  }

  lemma {:induction false} ToLEPrefix(v: int, k: nat, n: nat)
    requires k <= n
    ensures ToLE(v, n)[..k] == ToLE(v, k)
  {
    ToLESplit(v, k, n - k);
  }

  /** Congruent modulo a wide word implies congruent modulo a narrower one. */
  lemma {:induction false} NarrowModulo(u: int, v: int, k: nat, n: nat)
    requires k <= n && u % Pow256(n) == v % Pow256(n)
    ensures u % Pow256(k) == v % Pow256(k)
  {
    ToLEModulo(u, v, n);
    ToLEPrefix(u, k, n);
    ToLEPrefix(v, k, n);
    ToLEModulo(u, v, k);
  }

  /** The bytes above the low w repeat the sign bit of byte w - 1. */
  predicate SignExtended(s: seq<Byte>, w: nat)
    requires w >= 1
  {
    forall i | w <= i < |s| :: s[i] == if s[w - 1] >= 128 then 255 else 0
  }

  function Fill(b: Byte, n: nat): (s: seq<Byte>)
    ensures |s| == n && forall i | 0 <= i < n :: s[i] == b
  {
    if n == 0 then [] else [b] + Fill(b, n - 1)
  }

  lemma {:induction false} ToLESignFill(k: nat)
    ensures ToLE(0, k) == Fill(0, k)
    ensures ToLE(-1, k) == Fill(255, k)
  {
    if k > 0 {
      ToLESignFill(k - 1);
      assert (-1) / 256 == -1 && (-1) % 256 == 255;
    }
  }

  lemma {:induction false} TopStep(b: Byte, r: nat, p: nat)
    requires p % 2 == 0
    ensures 2 * (b + 256 * r) < 256 * p <==> 2 * r < p
  {
  }

  lemma {:induction false} FromLEStep(s: seq<Byte>)
    requires s != []
    ensures FromLE(s) == s[0] + 256 * FromLE(s[1..]) && Pow256(|s|) == 256 * Pow256(|s| - 1)
    ensures |s| == 1 ==> FromLE(s) == s[0] && Pow256(1) == 256
  {
    if |s| == 1 {
      assert s[1..] == [] && Pow256(0) == 1;
    }
  }

  lemma {:induction false} FromLETop(s: seq<Byte>)
    requires s != []
    ensures 2 * FromLE(s) < Pow256(|s|) <==> s[|s| - 1] < 128
  {
    hide FromLE, Pow256;
    FromLEStep(s);
    if |s| > 1 {
      FromLETop(s[1..]);
      TopStep(s[0], FromLE(s[1..]), Pow256(|s| - 1));
    }
  }

  /** A value that fits w signed bytes fills the bytes above them with its sign. */
  lemma {:induction false} SignedFill(r: int, w: nat, k: nat)
    requires 1 <= w <= k && 0 <= 2 * r + Pow256(w) < 2 * Pow256(w)
    ensures ToLE(r, k) == ToLE(r, w) + Fill(if ToLE(r, w)[w - 1] >= 128 then 255 else 0, k - w)
  {
    var p, low := Pow256(w), ToLE(r, w);
    FromToLE(r, w);
    FromLETop(low);
    if r >= 0 {
      DivModUnique(r, p, 0, r);
      assert low[w - 1] < 128;
    } else {
      DivModUnique(r, p, -1, r + p);
      assert low[w - 1] >= 128;
    }
    ToLESplit(r, w, k - w);
    ToLESignFill(k - w);
  }

  /** Squeezing a stored word through a w-byte signed integer and storing it back gives the
      same bytes exactly when the word is the sign extension of its low w bytes. */
  lemma {:induction false} SqueezeIff(s: seq<Byte>, v: int, w: nat)
    requires w >= 1 && v % Pow256(|s|) == FromLE(s)
    ensures ToLE(WrapS(v, w), |s|) == s <==> SignExtended(s, w)
  {
    var k, r := |s|, WrapS(v, w);
    WrapSModulo(v, w);
    assert ToLE(v, k) == s by {
      ToFromLE(s);
      DivModUnique(FromLE(s), Pow256(k), 0, FromLE(s));
      ToLEModulo(v, FromLE(s), k);
    }
    if k <= w {
      NarrowModulo(r, v, k, w);
      ToLEModulo(r, v, k);
    } else {
      ToLEModulo(r, v, w);
      ToLEPrefix(v, w, k);
      SignedFill(r, w, k);
      SignExtendedFill(s, w);
    }
  }

  lemma {:induction false} SignExtendedFill(s: seq<Byte>, w: nat)
    requires 1 <= w <= |s|
    ensures SignExtended(s, w) <==> s == s[..w] + Fill(if s[w - 1] >= 128 then 255 else 0, |s| - w)
  {
    var fill: Byte := if s[w - 1] >= 128 then 255 else 0;
    var t := s[..w] + Fill(fill, |s| - w);
    assert forall i | w <= i < |s| :: t[i] == fill;
    if s == t {
      assert forall i | w <= i < |s| :: s[i] == fill;
    }
  }

  /** The byte order, and what a conversion to a narrower signed integer does. */
  lemma {:induction false} Samples()
    ensures ToLE(0x1234, 2) == [0x34, 0x12] && FromLE([0x34, 0x12]) == 0x1234
    ensures ToLE(-2, 2) == [0xFE, 0xFF]
    ensures WrapS(0x80, 1) == -0x80 && WrapS(0x17F, 1) == 0x7F && WrapS(-0x81, 1) == 0x7F
  {
    assert ToLE(0x12, 1) == [0x12] && ToLE(-1, 1) == [0xFF];
    assert [0x34, 0x12][1..] == [0x12] && [0x12][1..] == [];
    assert Pow256(1) == 256;
  }
}
