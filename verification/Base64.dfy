/** The base64 codec of common/base64.c: an alphabet with a choice of the last two letters and of
    the pad, optional line breaks, a padded and an unpadded form, and a decoder that skips what is
    outside the alphabet. */
module Base64 {
  import opened Common

  type Sextet = x: int | 0 <= x < 64

  const IGNORE := -1
  const PAD := -2

  /** The parameters of base64_init_ex and the line separator. */
  datatype Codec = Codec(lineLength: int, separator: seq<Byte>, plus: Byte, slash: Byte, pad: Byte)

  // ----- the alphabet and its table -----------------------------------------------------------------

  function Letter(c: Codec, v: Sextet): Byte {
    if v < 26 then 65 + v else if v < 52 then 97 + (v - 26) else if v < 62 then 48 + (v - 52)
    else if v == 62 then c.plus else c.slash
  }

  /** Table 1 of RFC 4648 for '+' and '/', and its table 2 for '-' and '_'. */
  lemma LettersAreStandard(c: Codec, v: Sextet)
    ensures Letter(c, 0) == 'A' as int && Letter(c, 25) == 'Z' as int
    ensures Letter(c, 26) == 'a' as int && Letter(c, 51) == 'z' as int
    ensures Letter(c, 52) == '0' as int && Letter(c, 61) == '9' as int
    ensures v < 61 && v != 25 && v != 51 ==> Letter(c, v + 1) == Letter(c, v) + 1
    ensures Letter(c, 62) == c.plus && Letter(c, 63) == c.slash
  {
  }

  predicate Alphanumeric(x: Byte) { 48 <= x <= 57 || 65 <= x <= 90 || 97 <= x <= 122 }

  /** The two letters and the pad are different from each other and from all letters and digits. */
  predicate Proper(c: Codec) {
    && c.plus != c.slash && c.plus != c.pad && c.slash != c.pad
    && !Alphanumeric(c.plus) && !Alphanumeric(c.slash) && !Alphanumeric(c.pad)
  }

  /** charToValue: the pad first, then the letters, the later before the earlier. */
  function ValueOf(c: Codec, x: Byte): (v: int)
    ensures PAD <= v < 64
  {
    if x == c.pad then PAD else LetterValue(c, x)
  }

  function LetterValue(c: Codec, x: Byte): (v: int)
    ensures IGNORE <= v < 64 && (v >= 0 ==> Letter(c, v) == x)
  {
    if x == c.slash then 63
    else if x == c.plus then 62
    else if 48 <= x <= 57 then x - 48 + 52
    else if 97 <= x <= 122 then x - 97 + 26
    else if 65 <= x <= 90 then x - 65
    else IGNORE
  }

  /** The table undoes the alphabet iff the alphabet is proper. */
  lemma TableInvertsIff(c: Codec)
    ensures (forall v :: 0 <= v < 64 ==> ValueOf(c, Letter(c, v)) == v) <==> Proper(c)
  {
    if Proper(c) {
      forall v | 0 <= v < 64 ensures ValueOf(c, Letter(c, v)) == v {
        ProperInverts(c, v);
      }
    } else {
      var v := Misread(c);
    }
  }

  lemma ProperInverts(c: Codec, v: int)
    requires Proper(c) && 0 <= v < 64
    ensures ValueOf(c, Letter(c, v)) == v
  {
  }

  lemma AlphanumericIsLetter(c: Codec, x: Byte) returns (v: int)
    requires Alphanumeric(x)
    ensures 0 <= v < 62 && Letter(c, v) == x
  {
    v := if x <= 57 then x - 48 + 52 else if x <= 90 then x - 65 else x - 97 + 26;
  }

  /** An alphabet that is not proper has a letter the table reads as something else. */
  lemma Misread(c: Codec) returns (v: int)
    requires !Proper(c)
    ensures 0 <= v < 64 && ValueOf(c, Letter(c, v)) != v && ValueOf(c, Letter(c, v)) != IGNORE
  {
    if c.plus == c.slash || c.plus == c.pad {
      v := 62;
    } else if c.slash == c.pad {
      v := 63;
    } else if Alphanumeric(c.plus) {
      v := AlphanumericIsLetter(c, c.plus);
    } else if Alphanumeric(c.slash) {
      v := AlphanumericIsLetter(c, c.slash);
    } else {
      v := AlphanumericIsLetter(c, c.pad);
    }
  }

  // ----- groups ----------------------------------------------------------------------------------------

  function Number3(g: seq<Byte>): (x: nat)
    requires |g| == 3
    ensures x < 0x100_0000
  {
    var a: int, b: int, d: int := g[0], g[1], g[2];
    a * 0x1_0000 + b * 0x100 + d
  }

  function Number4(q: seq<Sextet>): int
    requires |q| == 4
  {
    var a: int, b: int, d: int, e: int := q[0], q[1], q[2], q[3];
    ((a * 64 + b) * 64 + d) * 64 + e
  }

  /** The last `k` base-64 digits of a number, the most significant first. */
  function Digits(x: nat, k: nat): (r: seq<Sextet>)
    ensures |r| == k
  {
    if k == 0 then [] else Digits(x / 64, k - 1) + [x % 64]
  }

  /** Three bytes as four six-bit values. */
  function Quad(g: seq<Byte>): (q: seq<Sextet>)
    requires |g| == 3
    ensures |q| == 4
  {
    Digits(Number3(g), |g| + 1)
  }

  lemma FourDigits(x: nat)
    ensures Digits(x, 4) == [x / 64 / 64 / 64 % 64, x / 64 / 64 % 64, x / 64 % 64, x % 64]
  {
    assert Digits(x / 64 / 64 / 64, 1) == [x / 64 / 64 / 64 % 64];
    assert Digits(x / 64 / 64, 2) == Digits(x / 64 / 64 / 64, 1) + [x / 64 / 64 % 64];
    assert Digits(x / 64, 3) == Digits(x / 64 / 64, 2) + [x / 64 % 64];
  }

  /** Three bytes, the most significant first. */
  function Triple(x: int): (t: seq<int>)
    ensures |t| == 3
  {
    [x / 0x1_0000, x / 0x100 % 0x100, x % 0x100]
  }

  /** The four values are the base-64 digits of the 24-bit number that the three bytes make. */
  lemma QuadMeans(g: seq<Byte>)
    requires |g| == 3
    ensures Number4(Quad(g)) == Number3(g)
  {
    FourDigits(Number3(g));
    Horner(Number3(g));
  }

  lemma Horner(x: nat)
    requires x < 0x100_0000
    ensures Number4([x / 64 / 64 / 64 % 64, x / 64 / 64 % 64, x / 64 % 64, x % 64]) == x
  {
    var x1 := x / 64;
    var x2 := x1 / 64;
    var x3 := x2 / 64;
    assert x == 64 * x1 + x % 64 && x1 == 64 * x2 + x1 % 64 && x2 == 64 * x3 + x2 % 64;
    assert x3 < 64;
    Small(x3);
  }

  lemma Small(x: nat)
    requires x < 64
    ensures x % 64 == x
  {
  }

  lemma Multiple(k: nat)
    ensures 64 * k % 64 == 0 && 64 * k / 64 == k
  {
  }

  lemma TripleOfNumber(g: seq<Byte>)
    requires |g| == 3
    ensures Triple(Number3(g)) == g
  {
    var a: int, b: int, d: int := g[0], g[1], g[2];
    var y := 0x100 * a + b;
    assert Number3(g) == 0x100 * y + d == 0x1_0000 * a + (0x100 * b + d);
    LowByte(y, d);
    LowByte(a, b);
    LowWord(a, 0x100 * b + d);
  }

  lemma LowByte(x: nat, b: Byte)
    ensures (0x100 * x + b) / 0x100 == x && (0x100 * x + b) % 0x100 == b
  {
  }

  lemma LowWord(x: nat, w: nat)
    requires w < 0x1_0000
    ensures (0x1_0000 * x + w) / 0x1_0000 == x
  {
  }

  lemma ZeroTail(g: seq<Byte>)
    requires |g| == 3 && g[2] == 0
    ensures Quad(g)[3] == 0 && (g[1] == 0 ==> Quad(g)[2] == 0)
  {
    FourDigits(Number3(g));
    var a: int, b: int := g[0], g[1];
    var y := a * 1024 + b * 4;
    assert Number3(g) == 64 * y;
    Multiple(y);
    if b == 0 {
      assert y == 64 * (a * 16);
      Multiple(a * 16);
    }
  }

  // ----- encoding ----------------------------------------------------------------------------------------

  /** linePos after `n` groups. */
  function Pos(lineLength: int, n: nat): int {
    if n == 0 then 0
    else if Pos(lineLength, n - 1) + 4 > lineLength then 4 else Pos(lineLength, n - 1) + 4
  }

  /** Whether group `n`, counted from 0, starts on a new line. */
  predicate Breaks(lineLength: int, n: nat) { lineLength != 0 && Pos(lineLength, n) + 4 > lineLength }

  function Separators(lineLength: int, n: nat): nat {
    if n == 0 then 0 else Separators(lineLength, n - 1) + if Breaks(lineLength, n - 1) then 1 else 0
  }

  function Letters(c: Codec, q: seq<Sextet>): (r: seq<Byte>)
    ensures |r| == |q|
  {
    if q == [] then [] else Letters(c, q[..|q| - 1]) + [Letter(c, q[|q| - 1])]
  }

  function Break(c: Codec, n: nat): seq<Byte> { if Breaks(c.lineLength, n) then c.separator else [] }

  /** `n` groups of four values as text. */
  function Text(c: Codec, q: seq<Sextet>, n: nat): seq<Byte>
    requires |q| == 4 * n
  {
    if n == 0 then [] else
      var m := 4 * (n - 1);
      Text(c, q[..m], n - 1) + Break(c, n - 1) + Letters(c, q[m..])
  }

  /** Groups or partial groups of three among `n` bytes, and the bytes missing in the last. */
  function Groups(n: nat): nat { (n + 2) / 3 }

  function Fill(n: nat): (k: nat)
    ensures k <= 2 && n + k == 3 * Groups(n)
  {
    3 * Groups(n) - n
  }

  function Copies(x: Byte, k: nat): (r: seq<Byte>)
    ensures |r| == k
  {
    if k == 0 then [] else Copies(x, k - 1) + [x]
  }

  function Filled(s: seq<Byte>, k: nat): (r: seq<Byte>)
    ensures |r| == |s| + k
  {
    s + Copies(0, k)
  }

  function SeparatorBytes(c: Codec, n: nat): nat {
    if n == 0 then 0 else SeparatorBytes(c, n - 1) + |Break(c, n - 1)|
  }

  lemma {:induction false} SeparatorBytesAre(c: Codec, n: nat)
    ensures SeparatorBytes(c, n) == |c.separator| * Separators(c.lineLength, n)
  {
    if n > 0 {
      SeparatorBytesAre(c, n - 1);
      Distribute(|c.separator|, Separators(c.lineLength, n - 1));
    }
  }

  lemma Distribute(x: nat, k: nat)
    ensures x * (k + 1) == x * k + x
  {
  }

  lemma {:induction false} TextLength(c: Codec, q: seq<Sextet>, n: nat)
    requires |q| == 4 * n
    ensures |Text(c, q, n)| == 4 * n + SeparatorBytes(c, n)
    decreases n
  {
    if n > 0 { TextLength(c, q[..4 * (n - 1)], n - 1); }
  }

  /** A text without its last `k` letters. */
  function Cut(t: seq<Byte>, k: nat): seq<Byte>
    requires k <= |t|
  {
    t[..|t| - k]
  }

  /** The values of `n` groups of three bytes. */
  function Quads(s: seq<Byte>, n: nat): (q: seq<Sextet>)
    requires |s| == 3 * n
    ensures |q| == 4 * n
  {
    if n == 0 then [] else
      var m := 3 * (n - 1);
      Quads(s[..m], n - 1) + Quad(s[m..])
  }

  /** The values of a message whose last group is filled up with zeros. */
  function ValuesOfMessage(s: seq<Byte>): (q: seq<Sextet>)
    ensures |q| == 4 * Groups(|s|)
  {
    Quads(Filled(s, Fill(|s|)), Groups(|s|))
  }

  /** The whole text, filling included. */
  function FullText(c: Codec, s: seq<Byte>): (t: seq<Byte>)
    ensures |t| == 4 * Groups(|s|) + SeparatorBytes(c, Groups(|s|))
  {
    TextLength(c, ValuesOfMessage(s), Groups(|s|));
    Text(c, ValuesOfMessage(s), Groups(|s|))
  }

  /** base64_encode_ex: the letters that stand for no input become pads or go away. */
  function Encode(c: Codec, s: seq<Byte>, pad: bool): seq<Byte> {
    Cut(FullText(c, s), Fill(|s|)) + if pad then Copies(c.pad, Fill(|s|)) else []
  }

  // ----- decoding ----------------------------------------------------------------------------------------

  /** The six-bit values of a text: characters outside the alphabet are skipped, pads are zeros. */
  function Values(c: Codec, t: seq<Byte>): seq<Sextet> {
    if t == [] then [] else
      var v := ValueOf(c, t[|t| - 1]);
      Values(c, t[..|t| - 1]) + if v == IGNORE then [] else if v == PAD then [0] else [v]
  }

  function Pads(c: Codec, t: seq<Byte>): nat {
    if t == [] then 0 else Pads(c, t[..|t| - 1]) + if ValueOf(c, t[|t| - 1]) == PAD then 1 else 0
  }

  /** Four values make three bytes. */
  function Bytes(vals: seq<Sextet>, n: nat): (r: seq<int>)
    requires |vals| == 4 * n
    ensures |r| == 3 * n
  {
    if n == 0 then [] else
      var m := 4 * (n - 1);
      Bytes(vals[..m], n - 1) + Triple(Number4(vals[m..]))
  }

  /** What base64_decode leaves in the destination, and the length it reports. */
  datatype Decoded = Decoded(written: seq<int>, len: int)

  function Decode(c: Codec, t: seq<Byte>): Decoded {
    var vals := Values(c, t);
    if |vals| % 4 == 0 then Decoded(Bytes(vals, |vals| / 4), 3 * (|vals| / 4) - Pads(c, t)) else Decoded([], 0)
  }

  function DecodeAuto(c: Codec, t: seq<Byte>): Decoded {
    if |t| % 4 == 0 then Decode(c, t) else Decode(c, t + Copies(c.pad, 4 - |t| % 4))
  }

  predicate Gives(d: Decoded, s: seq<Byte>) { d.len == |s| <= |d.written| && d.written[..|s|] == s }

  // ----- the round trip ----------------------------------------------------------------------------------

  predicate Skips(c: Codec, x: seq<Byte>) { forall i :: 0 <= i < |x| ==> ValueOf(c, x[i]) == IGNORE }

  lemma {:induction false} ValuesConcat(c: Codec, t: seq<Byte>, u: seq<Byte>)
    ensures Values(c, t + u) == Values(c, t) + Values(c, u)
    ensures Pads(c, t + u) == Pads(c, t) + Pads(c, u)
    decreases |u|
  {
    if u == [] {
      assert t + u == t;
    } else {
      ValuesConcat(c, t, u[..|u| - 1]);
      assert (t + u)[..|t + u| - 1] == t + u[..|u| - 1];
    }
  }

  lemma {:induction false} SkippedHasNoValues(c: Codec, x: seq<Byte>)
    requires Skips(c, x)
    ensures Values(c, x) == [] && Pads(c, x) == 0
  {
    if x != [] { SkippedHasNoValues(c, x[..|x| - 1]); }
  }

  /** The letters of a proper alphabet read back. */
  lemma {:induction false} LettersReadBack(c: Codec, q: seq<Sextet>)
    requires Proper(c)
    ensures Values(c, Letters(c, q)) == q && Pads(c, Letters(c, q)) == 0
  {
    if q != [] {
      var init, v := q[..|q| - 1], q[|q| - 1];
      LettersReadBack(c, init);
      ProperInverts(c, v);
      assert Letters(c, q)[..|q| - 1] == Letters(c, init);
    }
  }

  lemma GroupReadsBack(c: Codec, before: seq<Byte>, sep: seq<Byte>, q: seq<Sextet>)
    requires Proper(c) && Skips(c, sep)
    ensures Values(c, before + sep + Letters(c, q)) == Values(c, before) + q
    ensures Pads(c, before + sep + Letters(c, q)) == Pads(c, before)
  {
    SkippedHasNoValues(c, sep);
    LettersReadBack(c, q);
    ValuesConcat(c, before, sep);
    ValuesConcat(c, before + sep, Letters(c, q));
  }

  lemma BreakSkips(c: Codec, n: nat)
    requires Readable(c)
    ensures Skips(c, Break(c, n))
  {
  }

  lemma TextSnoc(c: Codec, q: seq<Sextet>, last: seq<Sextet>, n: nat)
    requires |q| == 4 * n && |last| == 4
    ensures Text(c, q + last, n + 1) == Text(c, q, n) + Break(c, n) + Letters(c, last)
  {
    assert (q + last)[..4 * n] == q && (q + last)[4 * n..] == last;
  }

  /** Separators aside, a text reads back as its values. */
  lemma {:induction false} TextReadsBack(c: Codec, q: seq<Sextet>, n: nat)
    requires |q| == 4 * n && Readable(c)
    ensures Values(c, Text(c, q, n)) == q && Pads(c, Text(c, q, n)) == 0
    decreases n
  {
    if n > 0 {
      var init, last := q[..4 * (n - 1)], q[4 * (n - 1)..];
      TextReadsBack(c, init, n - 1);
      BreakSkips(c, n - 1);
      GroupReadsBack(c, Text(c, init, n - 1), Break(c, n - 1), last);
      TextSnoc(c, init, last, n - 1);
      assert init + last == q;
    }
  }

  lemma {:induction false} BytesOfQuads(s: seq<Byte>, n: nat)
    requires |s| == 3 * n
    ensures Bytes(Quads(s, n), n) == s
    decreases n
  {
    if n > 0 {
      var m, k := 3 * (n - 1), 4 * (n - 1);
      BytesOfQuads(s[..m], n - 1);
      QuadMeans(s[m..]);
      TripleOfNumber(s[m..]);
      var all := Quads(s, n);
      assert all[..k] == Quads(s[..m], n - 1) && all[k..] == Quad(s[m..]);
      assert s == s[..m] + s[m..];
    }
  }

  lemma {:induction false} LettersAt(c: Codec, q: seq<Sextet>, i: nat)
    requires i < |q|
    ensures Letters(c, q)[i] == Letter(c, q[i])
  {
    if i < |q| - 1 { LettersAt(c, q[..|q| - 1], i); }
  }

  lemma {:induction false} OneValueEach(c: Codec, t: seq<Byte>)
    requires forall i :: 0 <= i < |t| ==> ValueOf(c, t[i]) != IGNORE
    ensures |Values(c, t)| == |t|
  {
    if t != [] { OneValueEach(c, t[..|t| - 1]); }
  }

  lemma {:induction false} PadsAreZeros(c: Codec, k: nat)
    ensures Pads(c, Copies(c.pad, k)) == k && |Values(c, Copies(c.pad, k))| == k
    ensures forall i :: 0 <= i < k ==> Values(c, Copies(c.pad, k))[i] == 0
  {
    if k > 0 {
      PadsAreZeros(c, k - 1);
      assert Copies(c.pad, k)[..k - 1] == Copies(c.pad, k - 1);
    }
  }

  lemma LettersHaveValues(c: Codec, q: seq<Sextet>, k: nat)
    requires k <= |q|
    ensures |Values(c, Letters(c, q)[|q| - k..])| == k
  {
    var w := Letters(c, q)[|q| - k..];
    forall i | 0 <= i < k ensures ValueOf(c, w[i]) != IGNORE {
      LettersAt(c, q, |q| - k + i);
    }
    OneValueEach(c, w);
  }

  /** The last letters of a text are letters, not separators. */
  lemma TextTail(c: Codec, q: seq<Sextet>, n: nat, k: nat)
    requires |q| == 4 * n && k <= 2 && k <= 3 * n
    ensures var t := Text(c, q, n); k <= |t| && |Values(c, t[|t| - k..])| == k
  {
    if n > 0 {
      var m := 4 * (n - 1);
      var before, last := Text(c, q[..m], n - 1) + Break(c, n - 1), q[m..];
      TailOf(before, Letters(c, last), k);
      LettersHaveValues(c, last, k);
    }
  }

  lemma TailOf(x: seq<Byte>, y: seq<Byte>, k: nat)
    requires k <= |y|
    ensures var t := x + y; k <= |t| && t[|t| - k..] == y[|y| - k..]
  {
  }

  /** The values that stand for the filling are zeros. */
  lemma FillingIsZero(q: seq<Sextet>, s: seq<Byte>, n: nat, k: nat)
    requires |s| + k == 3 * n && k <= 2 && q == Quads(Filled(s, k), n)
    ensures forall i :: 4 * n - k <= i < 4 * n ==> q[i] == 0
  {
    if k > 0 {
      var m, f := 3 * (n - 1), Filled(s, k);
      assert Copies(0, k)[k - 1] == 0;
      assert f[m..][2] == f[m + 2] == 0;
      if k == 2 {
        assert Copies(0, k) == Copies(0, 1) + [0] && Copies(0, 1)[0] == 0;
        assert f[m..][1] == f[m + 1] == 0;
      }
      ZeroTail(f[m..]);
    }
  }

  ghost predicate Readable(c: Codec) { Proper(c) && (c.lineLength != 0 ==> Skips(c, c.separator)) }

  /** A text that reads as `q` and ends in `k` letters or more. */
  ghost predicate Spells(c: Codec, t: seq<Byte>, q: seq<Sextet>, k: nat) {
    k <= |t| && Values(c, t) == q && Pads(c, t) == 0 && |Values(c, t[|t| - k..])| == k
  }

  lemma CutReadsBack(c: Codec, t: seq<Byte>, q: seq<Sextet>, k: nat)
    requires Spells(c, t, q, k)
    ensures k <= |q| && Values(c, Cut(t, k)) == q[..|q| - k] && Pads(c, Cut(t, k)) == 0
  {
    var u, w := Cut(t, k), t[|t| - k..];
    assert t == u + w;
    ValuesConcat(c, u, w);
  }

  lemma PaddedReadsBack(c: Codec, t: seq<Byte>, q: seq<Sextet>, k: nat)
    requires Spells(c, t, q, k) && k <= |q| && forall i :: |q| - k <= i < |q| ==> q[i] == 0
    ensures var p := Cut(t, k) + Copies(c.pad, k); Values(c, p) == q && Pads(c, p) == k
  {
    var pads := Copies(c.pad, k);
    CutReadsBack(c, t, q, k);
    PadsAreZeros(c, k);
    ValuesConcat(c, Cut(t, k), pads);
    assert q == q[..|q| - k] + Values(c, pads);
  }

  lemma FourTimes(n: nat)
    ensures 4 * n % 4 == 0 && 4 * n / 4 == n
  {
  }

  lemma PaddedRoundTrip(c: Codec, t: seq<Byte>, s: seq<Byte>, n: nat, k: nat)
    requires |s| + k == 3 * n && k <= 2 && Spells(c, t, Quads(Filled(s, k), n), k)
    ensures Gives(Decode(c, Cut(t, k) + Copies(c.pad, k)), s)
  {
    var q := Quads(Filled(s, k), n);
    FillingIsZero(q, s, n, k);
    PaddedReadsBack(c, t, q, k);
    FourTimes(n);
    BytesOfQuads(Filled(s, k), n);
    assert Filled(s, k)[..|s|] == s;
  }

  lemma FullTextSpells(c: Codec, s: seq<Byte>)
    requires Readable(c)
    ensures Spells(c, FullText(c, s), ValuesOfMessage(s), Fill(|s|))
  {
    TextSpells(c, ValuesOfMessage(s), Groups(|s|), Fill(|s|));
  }

  lemma TextSpells(c: Codec, q: seq<Sextet>, n: nat, k: nat)
    requires Readable(c) && |q| == 4 * n && k <= 2 && k <= 3 * n
    ensures Spells(c, Text(c, q, n), q, k)
  {
    TextReadsBack(c, q, n);
    TextTail(c, q, n, k);
  }

  /** Decoding undoes padded encoding, whatever the line length. */
  lemma RoundTrip(c: Codec, s: seq<Byte>)
    requires Readable(c)
    ensures Gives(Decode(c, Encode(c, s, true)), s)
  {
    FullTextSpells(c, s);
    PaddedRoundTrip(c, FullText(c, s), s, Groups(|s|), Fill(|s|));
  }

  /** How far `n` is from the next multiple of four. */
  function Missing(n: nat): nat { if n % 4 == 0 then 0 else 4 - n % 4 }

  lemma AutoCompletes(c: Codec, t: seq<Byte>)
    ensures DecodeAuto(c, t) == Decode(c, t + Copies(c.pad, Missing(|t|)))
  {
    assert t + Copies(c.pad, 0) == t;
  }

  /** Completing `n` groups less `k` letters, with `extra` separator bytes counted in. */
  lemma Completion(n: nat, extra: nat, k: nat)
    requires k <= 2 && k <= 4 * n
    ensures var j := Missing(4 * n - k + extra);
      if extra % 4 == 0 then j == k else (4 * n - k + j) % 4 != 0
  {
    var r, e := extra % 4, extra / 4;
    var j := Missing(4 * n - k + extra);
    assert 4 * n - k + extra == 4 * (n + e) + (r - k);
    Shift(n + e, r - k);
    Shift(n, j - k);
  }

  lemma Shift(n: int, x: int)
    ensures (4 * n + x) % 4 == x % 4
  {
  }

  lemma UnpaddedCompletes(c: Codec, t: seq<Byte>, n: nat, k: nat, extra: nat, j: nat)
    requires k <= 4 * n && |t| == 4 * n + extra && j == Missing(4 * n - k + extra)
    ensures DecodeAuto(c, Cut(t, k)) == Decode(c, Cut(t, k) + Copies(c.pad, j))
  {
    AutoCompletes(c, Cut(t, k));
  }

  lemma UnpaddedComesBack(c: Codec, t: seq<Byte>, s: seq<Byte>, n: nat, k: nat, extra: nat)
    requires |s| + k == 3 * n && k <= 2 && Spells(c, t, Quads(Filled(s, k), n), k)
    requires |t| == 4 * n + extra && extra % 4 == 0
    ensures Gives(DecodeAuto(c, Cut(t, k)), s)
  {
    Completion(n, extra, k);
    UnpaddedCompletes(c, t, n, k, extra, k);
    PaddedRoundTrip(c, t, s, n, k);
  }

  lemma UnpaddedIsLost(c: Codec, t: seq<Byte>, s: seq<Byte>, n: nat, k: nat, extra: nat)
    requires |s| + k == 3 * n && k <= 2 && n > 0 && Spells(c, t, Quads(Filled(s, k), n), k)
    requires |t| == 4 * n + extra && extra % 4 != 0
    ensures !Gives(DecodeAuto(c, Cut(t, k)), s)
  {
    var j := Missing(4 * n - k + extra);
    Completion(n, extra, k);
    UnpaddedCompletes(c, t, n, k, extra, j);
    NotCompleted(c, t, Quads(Filled(s, k), n), s, k, j);
  }

  lemma NotCompleted(c: Codec, t: seq<Byte>, q: seq<Sextet>, s: seq<Byte>, k: nat, j: nat)
    requires Spells(c, t, q, k) && s != [] && (|q| - k + j) % 4 != 0
    ensures !Gives(Decode(c, Cut(t, k) + Copies(c.pad, j)), s)
  {
    CompletedLength(c, t, q, k, j);
  }

  lemma CompletedLength(c: Codec, t: seq<Byte>, q: seq<Sextet>, k: nat, j: nat)
    requires Spells(c, t, q, k)
    ensures |Values(c, Cut(t, k) + Copies(c.pad, j))| == |q| - k + j
  {
    CutReadsBack(c, t, q, k);
    PadsAreZeros(c, j);
    ValuesConcat(c, Cut(t, k), Copies(c.pad, j));
  }

  /** base64_decode_auto undoes the unpadded form iff the separators take a multiple of four bytes,
      as they do when there are none. */
  lemma AutoRoundTripIff(c: Codec, s: seq<Byte>)
    requires Readable(c)
    ensures Gives(DecodeAuto(c, Encode(c, s, false)), s) <==> SeparatorBytes(c, Groups(|s|)) % 4 == 0
  {
    FullTextSpells(c, s);
    var t, n, k, extra := FullText(c, s), Groups(|s|), Fill(|s|), SeparatorBytes(c, Groups(|s|));
    assert Encode(c, s, false) == Cut(t, k);
    if extra % 4 == 0 { UnpaddedComesBack(c, t, s, n, k, extra); } else { UnpaddedIsLost(c, t, s, n, k, extra); }
  }

  // ----- the alphabet decides the round trip ---------------------------------------------------------

  lemma TripleInverts(x: nat)
    requires x < 0x100_0000
    ensures var t := Triple(x); (forall i :: 0 <= i < 3 ==> 0 <= t[i] < 256) && Number3(t) == x
  {
    var y := x / 0x100;
    assert x == 0x100 * y + x % 0x100;
    assert y == 0x100 * (y / 0x100) + y % 0x100;
    assert y / 0x100 == x / 0x1_0000;
  }

  /** Four times the same value. */
  function Same(v: int): (q: seq<Sextet>)
    requires 0 <= v < 64
    ensures |q| == 4 && 0 <= Number4(q) < 0x100_0000
  {
    [v, v, v, v]
  }

  lemma DigitsOfSame(v: int)
    requires 0 <= v < 64
    ensures Digits(Number4(Same(v)), 4) == Same(v)
  {
    var x1 := v;
    var x2 := 64 * x1 + v;
    var x3 := 64 * x2 + v;
    assert Number4(Same(v)) == 64 * x3 + v;
    FourDigits(64 * x3 + v);
    LowDigit(x3, v);
    LowDigit(x2, v);
    LowDigit(x1, v);
    Small(v);
  }

  lemma LowDigit(x: nat, v: int)
    requires 0 <= v < 64
    ensures (64 * x + v) / 64 == x && (64 * x + v) % 64 == v
  {
  }

  /** Three bytes whose four values are all the same. */
  function BytesOfSame(v: int): (s: seq<Byte>)
    requires 0 <= v < 64
    ensures |s| == 3 && Number3(s) == Number4(Same(v))
  {
    TripleInverts(Number4(Same(v)));
    Triple(Number4(Same(v)))
  }

  /** A message of whole groups has no filling. */
  lemma EncodeWhole(c: Codec, s: seq<Byte>, n: nat)
    requires |s| == 3 * n
    ensures Encode(c, s, true) == Text(c, Quads(s, n), n)
  {
    assert Groups(|s|) == n && Fill(|s|) == 0;
    assert Filled(s, 0) == s;
  }

  lemma EncodesToSame(c: Codec, v: int)
    requires 0 <= v < 64
    ensures Encode(c, BytesOfSame(v), true) == Break(c, 0) + Copies(Letter(c, v), 4)
  {
    EncodeWhole(c, BytesOfSame(v), 1);
    OneGroup(c, BytesOfSame(v));
    DigitsOfSame(v);
    LettersOfSame(c, v);
  }

  lemma OneGroup(c: Codec, s: seq<Byte>)
    requires |s| == 3
    ensures Text(c, Quads(s, 1), 1) == Break(c, 0) + Letters(c, Quad(s))
  {
    var q := Quad(s);
    assert s[0..] == s;
    assert Quads(s, 1) == Quads(s[..0], 0) + q == q;
    assert q[0..] == q;
    assert Text(c, q, 1) == Text(c, q[..0], 0) + Break(c, 0) + Letters(c, q);
  }

  /** What is skipped in front changes nothing. */
  lemma SkippedPrefix(c: Codec, x: seq<Byte>, t: seq<Byte>)
    requires Skips(c, x)
    ensures Decode(c, x + t) == Decode(c, t)
  {
    SkippedHasNoValues(c, x);
    ValuesConcat(c, x, t);
    assert Values(c, x + t) == Values(c, t);
  }

  lemma LettersOfSame(c: Codec, v: int)
    requires 0 <= v < 64
    ensures Letters(c, Same(v)) == Copies(Letter(c, v), 4)
  {
    var l, r := Letters(c, Same(v)), Copies(Letter(c, v), 4);
    forall i: nat | i < 4 ensures l[i] == r[i] {
      LettersAt(c, Same(v), i);
      CopiesAt(Letter(c, v), 4, i);
    }
  }

  lemma {:induction false} CopiesAt(x: Byte, k: nat, i: nat)
    requires i < k
    ensures Copies(x, k)[i] == x
  {
    if i < k - 1 { CopiesAt(x, k - 1, i); }
  }

  lemma {:induction false} CopiesRead(c: Codec, x: Byte, k: nat)
    requires ValueOf(c, x) != IGNORE
    ensures |Values(c, Copies(x, k))| == k
    ensures forall i :: 0 <= i < k ==> Values(c, Copies(x, k))[i] == if ValueOf(c, x) == PAD then 0 else ValueOf(c, x)
    ensures Pads(c, Copies(x, k)) == if ValueOf(c, x) == PAD then k else 0
  {
    if k > 0 {
      CopiesRead(c, x, k - 1);
      assert Copies(x, k)[..k - 1] == Copies(x, k - 1);
    }
  }

  lemma DecodesSame(c: Codec, x: Byte)
    requires ValueOf(c, x) != IGNORE
    ensures var d := Decode(c, Copies(x, 4)); var w := ValueOf(c, x);
      if w == PAD then d.len == -1 else d == Decoded(Triple(Number4(Same(w))), 3)
  {
    var vals := Values(c, Copies(x, 4));
    CopiesRead(c, x, 4);
    assert vals == vals[..0] + vals[0..];
    assert vals[0..] == vals && Bytes(vals[..0], 0) == [];
    assert Bytes(vals, 1) == Triple(Number4(vals));
    if ValueOf(c, x) != PAD { assert vals == Same(ValueOf(c, x)); }
  }

  /** A letter that is misread makes a message that does not come back. */
  lemma MisreadIsLost(c: Codec, v: int)
    requires 0 <= v < 64 && Skips(c, Break(c, 0))
    requires ValueOf(c, Letter(c, v)) != v && ValueOf(c, Letter(c, v)) != IGNORE
    ensures !Gives(Decode(c, Encode(c, BytesOfSame(v), true)), BytesOfSame(v))
  {
    var w := ValueOf(c, Letter(c, v));
    EncodesToSame(c, v);
    SkippedPrefix(c, Break(c, 0), Copies(Letter(c, v), 4));
    DecodesSame(c, Letter(c, v));
    if w != PAD {
      TripleInverts(Number4(Same(w)));
      assert Number4(Same(w)) != Number4(Same(v));
      assert Triple(Number4(Same(w)))[..3] == Triple(Number4(Same(w)));
    }
  }

  // ----- so does the separator -----------------------------------------------------------------------------

  /** The first group that starts a new line. */
  function FirstBreak(lineLength: int): nat { if lineLength < 4 then 0 else lineLength / 4 }

  lemma {:induction false} PosBefore(lineLength: int, i: nat)
    requires 4 * i <= lineLength
    ensures Pos(lineLength, i) == 4 * i
  {
    if i > 0 { PosBefore(lineLength, i - 1); }
  }

  lemma FirstBreakIsFirst(lineLength: int, i: nat)
    requires lineLength != 0 && i <= FirstBreak(lineLength)
    ensures Breaks(lineLength, i) <==> i == FirstBreak(lineLength)
  {
    if lineLength >= 4 { PosBefore(lineLength, i); }
  }

  lemma UnbrokenSnoc(c: Codec, q: seq<Sextet>, last: seq<Sextet>, n: nat)
    requires |q| == 4 * n && |last| == 4 && c.lineLength != 0 && n < FirstBreak(c.lineLength)
    ensures Text(c, q + last, n + 1) == Text(c, q, n) + Letters(c, last)
  {
    FirstBreakIsFirst(c.lineLength, n);
    TextSnoc(c, q, last, n);
    assert Break(c, n) == [];
  }

  /** Every letter of the first line has a value. */
  lemma {:induction false} FirstLineValues(c: Codec, q: seq<Sextet>, n: nat)
    requires |q| == 4 * n && c.lineLength != 0 && n <= FirstBreak(c.lineLength)
    ensures |Values(c, Text(c, q, n))| == 4 * n
    decreases n
  {
    if n > 0 {
      var init, last := q[..4 * (n - 1)], q[4 * (n - 1)..];
      FirstLineValues(c, init, n - 1);
      UnbrokenSnoc(c, init, last, n - 1);
      assert init + last == q;
      LineGrows(c, Text(c, init, n - 1), last);
    }
  }

  lemma LineGrows(c: Codec, t: seq<Byte>, last: seq<Sextet>)
    ensures |Values(c, t + Letters(c, last))| == |Values(c, t)| + |last|
  {
    AllLettersHaveValues(c, last);
    ValuesConcat(c, t, Letters(c, last));
  }

  lemma AllLettersHaveValues(c: Codec, q: seq<Sextet>)
    ensures |Values(c, Letters(c, q))| == |q|
  {
    LettersHaveValues(c, q, |q|);
    assert Letters(c, q)[0..] == Letters(c, q);
  }

  lemma {:induction false} SeparatorHasValue(c: Codec, x: seq<Byte>)
    requires !Skips(c, x)
    ensures |Values(c, x)| > 0
  {
    if ValueOf(c, x[|x| - 1]) == IGNORE {
      var init := x[..|x| - 1];
      assert !Skips(c, init) by {
        var i :| 0 <= i < |x| && ValueOf(c, x[i]) != IGNORE;
        assert init[i] == x[i];
      }
      SeparatorHasValue(c, init);
    }
  }

  /** A first line and one group more: its values are those of the line, of the separator and of the
      last group. */
  lemma TwoLines(c: Codec, line: seq<Byte>, x: seq<Byte>, g: nat)
    requires c.lineLength != 0 && g == FirstBreak(c.lineLength) && |line| == 3 * g && |x| == 3
    ensures Values(c, Encode(c, line + x, true)) ==
      Values(c, Text(c, Quads(line, g), g)) + Values(c, c.separator) + Values(c, Letters(c, Quad(x)))
    ensures |Values(c, Text(c, Quads(line, g), g))| == 4 * g && |Values(c, Letters(c, Quad(x)))| == 4
  {
    var s, q := line + x, Quads(line, g);
    EncodeWhole(c, s, g + 1);
    assert s[..3 * g] == line && s[3 * g..] == x;
    var all := Quads(s, g + 1);
    assert all[..4 * g] == q && all[4 * g..] == Quad(x);
    FirstBreakIsFirst(c.lineLength, g);
    var t, l := Text(c, q, g), Letters(c, Quad(x));
    assert Encode(c, s, true) == t + c.separator + l;
    ValuesConcat(c, t, c.separator);
    ValuesConcat(c, t + c.separator, l);
    FirstLineValues(c, q, g);
    AllLettersHaveValues(c, Quad(x));
  }

  /** The bytes of a group depend on its four values only. */
  lemma {:induction false} BytesOfGroup(vals: seq<Sextet>, n: nat, k: nat)
    requires |vals| == 4 * n && k < n
    ensures Bytes(vals, n)[3 * k..3 * k + 3] == Triple(Number4(vals[4 * k..4 * k + 4]))
    decreases n
  {
    var m := 4 * (n - 1);
    var init := Bytes(vals[..m], n - 1);
    assert Bytes(vals, n) == init + Triple(Number4(vals[m..]));
    if k < n - 1 {
      BytesOfGroup(vals[..m], n - 1, k);
      assert vals[..m][4 * k..4 * k + 4] == vals[4 * k..4 * k + 4];
      assert Bytes(vals, n)[3 * k..3 * k + 3] == init[3 * k..3 * k + 3];
    } else {
      assert vals[m..] == vals[4 * k..4 * k + 4];
    }
  }

  /** When the separator has values, the group behind the first line comes out of the separator. */
  lemma SeparatorIntrudes(c: Codec, line: seq<Byte>, x: seq<Byte>, g: nat)
    requires c.lineLength != 0 && g == FirstBreak(c.lineLength) && |line| == 3 * g && |x| == 3
    requires !Skips(c, c.separator) && Gives(Decode(c, Encode(c, line + x, true)), line + x)
    ensures |Values(c, c.separator)| >= 4 && x == Triple(Number4(Values(c, c.separator)[..4]))
  {
    var s, a := line + x, Values(c, c.separator);
    TwoLines(c, line, x, g);
    SeparatorHasValue(c, c.separator);
    var vals := Values(c, Encode(c, s, true));
    assert |vals| == 4 * g + |a| + 4 && |vals| % 4 == 0;
    Intrusion(vals, g, a, s, x);
  }

  lemma Intrusion(vals: seq<Sextet>, g: nat, a: seq<Sextet>, s: seq<Byte>, x: seq<Byte>)
    requires |vals| % 4 == 0 && |a| > 0 && |vals| == 4 * g + |a| + 4 && vals[4 * g..4 * g + |a|] == a
    requires |s| == 3 * g + 3 && s[3 * g..] == x && |s| <= 3 * (|vals| / 4)
    requires Bytes(vals, |vals| / 4)[..|s|] == s
    ensures |a| >= 4 && x == Triple(Number4(a[..4]))
  {
    var n := |vals| / 4;
    assert 4 * n == 4 * g + |a| + 4;
    assert |a| >= 4;
    BytesOfGroup(vals, n, g);
    assert vals[4 * g..4 * g + 4] == a[..4];
    assert Bytes(vals, n)[3 * g..3 * g + 3] == Bytes(vals, n)[..|s|][3 * g..] == x;
  }

  /** A separator with a letter or a pad in it loses one of two messages. */
  lemma SeparatorLoses(c: Codec) returns (s: seq<Byte>)
    requires c.lineLength != 0 && !Skips(c, c.separator)
    ensures !Gives(Decode(c, Encode(c, s, true)), s)
  {
    var g := FirstBreak(c.lineLength);
    var line := Copies(0, 3 * g);
    s := line + [0, 0, 0];
    if Gives(Decode(c, Encode(c, s, true)), s) {
      SeparatorIntrudes(c, line, [0, 0, 0], g);
      s := line + [1, 1, 1];
      if Gives(Decode(c, Encode(c, s, true)), s) {
        SeparatorIntrudes(c, line, [1, 1, 1], g);
        assert false;
      }
    }
  }

  /** Every message comes back iff the alphabet is proper and, if lines are broken, no byte of the
      separator is a letter or the pad. */
  lemma RoundTripIff(c: Codec)
    ensures (forall s: seq<Byte> :: Gives(Decode(c, Encode(c, s, true)), s)) <==> Readable(c)
  {
    if Readable(c) {
      forall s: seq<Byte> ensures Gives(Decode(c, Encode(c, s, true)), s) {
        RoundTrip(c, s);
      }
    } else if c.lineLength != 0 && !Skips(c, c.separator) {
      var s := SeparatorLoses(c);
    } else {
      var v := Misread(c);
      MisreadIsLost(c, v);
    }
  }

  // ----- lengths of decodings ---------------------------------------------------------------------------------

  /** The letters of the alphabet in a text, pads and other characters aside. */
  function LettersIn(c: Codec, t: seq<Byte>): nat {
    if t == [] then 0 else LettersIn(c, t[..|t| - 1]) + if ValueOf(c, t[|t| - 1]) >= 0 then 1 else 0
  }

  lemma {:induction false} ValuesAreCounted(c: Codec, t: seq<Byte>)
    ensures |Values(c, t)| == Pads(c, t) + LettersIn(c, t)
  {
    if t != [] { ValuesAreCounted(c, t[..|t| - 1]); }
  }

  /** In a text of whole groups the length reported is negative iff there are more than three pads to
      a letter. */
  lemma DecodedLengthIff(c: Codec, t: seq<Byte>)
    requires (Pads(c, t) + LettersIn(c, t)) % 4 == 0
    ensures Decode(c, t).len < 0 <==> Pads(c, t) > 3 * LettersIn(c, t)
  {
    ValuesAreCounted(c, t);
    var n := (Pads(c, t) + LettersIn(c, t)) / 4;
    assert Pads(c, t) + LettersIn(c, t) == 4 * n;
    assert Decode(c, t).len == 3 * n - Pads(c, t);
  }

  /** In any other text it is zero. */
  lemma BrokenTextIsEmpty(c: Codec, t: seq<Byte>)
    requires (Pads(c, t) + LettersIn(c, t)) % 4 != 0
    ensures Decode(c, t) == Decoded([], 0)
  {
    ValuesAreCounted(c, t);
  }

  /** Four pads: the terminator is written in front of the destination. */
  lemma FourPadsUnderflow(c: Codec)
    ensures Decode(c, Copies(c.pad, 4)).len == -1
  {
    DecodesSame(c, c.pad);
  }

  /** Six bytes on two lines, unpadded: the automatic decoder counts the separator as a letter. */
  lemma TwoUnpaddedLinesAreLost(s: seq<Byte>)
    requires |s| == 6
    ensures var c := Codec(4, [10], 43, 47, 61);
      Readable(c) && !Gives(DecodeAuto(c, Encode(c, s, false)), s)
  {
    var c := Codec(4, [10], 43, 47, 61);
    AutoRoundTripIff(c, s);
    assert Groups(6) == 2;
    assert Pos(4, 0) == 0 && Pos(4, 1) == 4;
    assert SeparatorBytes(c, 1) == 0 && SeparatorBytes(c, 2) == 1;
  }

  // ----- the length announced --------------------------------------------------------------------------

  /** Division as C does it, towards zero. */
  function Quotient(a: int, b: int): int
    requires b != 0
  {
    if b > 0 then (if a >= 0 then a / b else -(-a / b)) else if a >= 0 then -(a / -b) else -a / -b
  }

  /** The line breaks base64_get_encode_length counts for `n` groups. */
  function BreaksCounted(lineLength: int, n: nat): nat {
    if lineLength == 0 then 0 else
      var lines := Quotient(4 * n + lineLength - 1, lineLength) - 1;
      if lines > 0 then lines else 0
  }

  /** base64_get_encode_length. */
  function EncodeLength(lineLength: int, sepLen: nat, n: nat): nat {
    Groups(n) * 4 + BreaksCounted(lineLength, Groups(n)) * sepLen
  }

  lemma EncodedLength(c: Codec, s: seq<Byte>)
    ensures |Encode(c, s, true)| == 4 * Groups(|s|) + |c.separator| * Separators(c.lineLength, Groups(|s|))
    ensures |Encode(c, s, false)| == |Encode(c, s, true)| - Fill(|s|)
  {
    SeparatorBytesAre(c, Groups(|s|));
  }

  /** Lines of `g` groups: after `q` full lines and `r + 1` groups of the next. */
  lemma {:induction false} SeparatorsAre(lineLength: int, g: nat, n: nat, q: nat, r: nat)
    requires n == g * q + r + 1 && r < g && 4 * g <= lineLength < 4 * g + 4
    ensures Pos(lineLength, n) == 4 * (r + 1) && Separators(lineLength, n) == q
  {
    if r > 0 {
      SeparatorsAre(lineLength, g, n - 1, q, r - 1);
    } else if q > 0 {
      Distribute(g, q - 1);
      SeparatorsAre(lineLength, g, n - 1, q - 1, g - 1);
    } else {
      assert n == 1;
      assert Pos(lineLength, 0) == 0 && Separators(lineLength, 0) == 0;
    }
  }

  /** Lines too short for a group: every group starts a new one. */
  lemma {:induction false} ShortLines(lineLength: int, n: nat)
    requires lineLength < 4 && lineLength != 0
    ensures 0 <= Pos(lineLength, n) <= 4 && Separators(lineLength, n) == n
  {
    if n > 0 { ShortLines(lineLength, n - 1); }
  }

  lemma {:induction false} NoLines(n: nat)
    ensures Separators(0, n) == 0
  {
    if n > 0 { NoLines(n - 1); }
  }

  lemma QuotientIs(x: nat, b: nat, q: nat, r: nat)
    requires x == b * q + r && r < b
    ensures x / b == q
  {
    var q' := x / b;
    assert x == b * q' + x % b;
    if q' < q {
      LessOneMore(b, q', q);
    } else if q' > q {
      LessOneMore(b, q, q');
    }
  }

  lemma {:induction false} LessOneMore(b: nat, q: nat, q': nat)
    requires q < q'
    ensures b * q + b <= b * q'
  {
    Distribute(b, q' - 1);
    if q + 1 < q' { LessOneMore(b, q, q' - 1); }
  }

  lemma LinesCounted(g: nat, n: nat, q: nat, r: nat)
    requires n == g * q + r + 1 && r < g
    ensures (4 * n + 4 * g - 1) / (4 * g) == q + 1
  {
    var b := 4 * g;
    assert b * (q + 1) == 4 * (g * q) + 4 * g;
    QuotientIs(4 * n + 4 * g - 1, b, q + 1, 4 * r + 3);
  }

  /** The number counted: with `n` groups on lines of a positive length, the lines that the letters fill
      but one; none for other lengths, except that length -1 counts one when there are no letters. */
  lemma CountMeans(lineLength: int, n: nat)
    ensures lineLength > 0 && n > 0 ==>
      var b := BreaksCounted(lineLength, n); lineLength * b < 4 * n <= lineLength * (b + 1)
    ensures lineLength <= 0 || n == 0 ==>
      BreaksCounted(lineLength, n) == if lineLength == -1 && n == 0 then 1 else 0
  {
    if lineLength > 0 {
      LinesOf(4 * n, lineLength);
    } else if lineLength < 0 {
      NegativeCount(lineLength, n);
    }
  }

  lemma LinesOf(letters: nat, length: nat)
    requires length > 0
    ensures var q := (letters + length - 1) / length;
      letters <= length * q < letters + length && (letters > 0 ==> q >= 1) && (letters == 0 ==> q == 0)
    ensures var q := (letters + length - 1) / length; length * (q - 1) == length * q - length
  {
    var x := letters + length - 1;
    assert x == length * (x / length) + x % length;
    if letters == 0 { QuotientIs(x, length, 0, x); }
  }

  lemma NegativeCount(lineLength: int, n: nat)
    requires lineLength < 0
    ensures BreaksCounted(lineLength, n) == if lineLength == -1 && n == 0 then 1 else 0
  {
    var a, b := 4 * n + lineLength - 1, -lineLength;
    if a >= 0 {
      assert Quotient(a, lineLength) == -(a / b);
      NotNegative(a, b);
    } else {
      assert Quotient(a, lineLength) == -a / b;
      if n > 0 {
        QuotientIs(-a, b, 0, -a);
      } else if b > 1 {
        QuotientIs(b + 1, b, 1, 1);
      } else {
        QuotientIs(2, 1, 2, 0);
      }
    }
  }

  lemma NotNegative(x: nat, b: nat)
    requires b > 0
    ensures x / b >= 0
  {
  }

  /** With lines of whole groups the count is right. */
  lemma CountIsExact(g: nat, n: nat)
    ensures BreaksCounted(4 * g, n) == Separators(4 * g, n)
  {
    if g == 0 {
      NoLines(n);
    } else if n == 0 {
      QuotientIs(4 * g - 1, 4 * g, 0, 4 * g - 1);
    } else {
      var q, r := DivMod(n - 1, g);
      SeparatorsAre(4 * g, g, n, q, r);
      LinesCounted(g, n, q, r);
    }
  }

  lemma DivMod(x: nat, g: nat) returns (q: nat, r: nat)
    requires g > 0
    ensures x == g * q + r && r < g
  {
    q, r := x / g, x % g;
  }

  /** With any other line length it is wrong for some number of groups. */
  lemma CountIsInexact(lineLength: int) returns (n: nat)
    requires lineLength < 0 || lineLength % 4 != 0
    ensures BreaksCounted(lineLength, n) != Separators(lineLength, n)
  {
    if lineLength < 0 {
      n := 1;
      ShortLines(lineLength, 1);
      NegativeQuotient(lineLength);
    } else if lineLength < 4 {
      n := if lineLength == 1 then 1 else if lineLength == 2 then 2 else 4;
      ShortLines(lineLength, n);
    } else {
      n := 4 * (lineLength / 4) + 1;
      CountIsLow(lineLength, lineLength / 4);
    }
  }

  lemma CountIsLow(lineLength: int, g: nat)
    requires 4 * g < lineLength < 4 * g + 4 && g > 0
    ensures BreaksCounted(lineLength, 4 * g + 1) < 4 == Separators(lineLength, 4 * g + 1)
  {
    SeparatorsAre(lineLength, g, 4 * g + 1, 4, 0);
    QuotientBelow(4 * (4 * g + 1) + lineLength - 1, lineLength);
  }

  lemma NegativeQuotient(lineLength: int)
    requires lineLength < 0
    ensures Quotient(4 + lineLength - 1, lineLength) <= 0
  {
    var a, b := 3 + lineLength, -lineLength;
    if a < 0 { QuotientIs(-a, b, 0, -a); } else { assert a / b >= 0; }
  }

  lemma QuotientBelow(x: nat, b: nat)
    requires x < 5 * b
    ensures x / b <= 4
  {
    assert x == b * (x / b) + x % b;
    if x / b > 4 { LessOneMore(b, 4, x / b); }
  }

  lemma LengthFormulaIff(lineLength: int, sepLen: nat)
    ensures
      (forall n: nat ::
         EncodeLength(lineLength, sepLen, n) == 4 * Groups(n) + sepLen * Separators(lineLength, Groups(n)))
      <==> sepLen == 0 || (lineLength >= 0 && lineLength % 4 == 0)
  {
    if sepLen == 0 {
    } else if lineLength >= 0 && lineLength % 4 == 0 {
      forall n: nat
        ensures EncodeLength(lineLength, sepLen, n) == 4 * Groups(n) + sepLen * Separators(lineLength, Groups(n))
      {
        CountIsExact(lineLength / 4, Groups(n));
      }
    } else {
      var n := CountIsInexact(lineLength);
      assert Groups(3 * n) == n;
      Differ(sepLen, BreaksCounted(lineLength, n), Separators(lineLength, n));
    }
  }

  /** base64_get_encode_length announces the length of every padded encoding iff the separator is
      empty or the line length is 0 or a positive multiple of 4. */
  lemma LengthIsExactIff(c: Codec)
    ensures
      (forall s: seq<Byte> :: EncodeLength(c.lineLength, |c.separator|, |s|) == |Encode(c, s, true)|)
      <==> |c.separator| == 0 || (c.lineLength >= 0 && c.lineLength % 4 == 0)
  {
    LengthFormulaIff(c.lineLength, |c.separator|);
    forall s: seq<Byte>
      ensures |Encode(c, s, true)| == 4 * Groups(|s|) + |c.separator| * Separators(c.lineLength, Groups(|s|))
    {
      EncodedLength(c, s);
    }
    forall n: nat
      ensures |Encode(c, Copies(0, n), true)| == 4 * Groups(n) + |c.separator| * Separators(c.lineLength, Groups(n))
    {
      EncodedLength(c, Copies(0, n));
    }
    if forall s: seq<Byte> :: EncodeLength(c.lineLength, |c.separator|, |s|) == |Encode(c, s, true)| {
      forall n: nat
        ensures EncodeLength(c.lineLength, |c.separator|, n) ==
          4 * Groups(n) + |c.separator| * Separators(c.lineLength, Groups(n))
      {
        assert EncodeLength(c.lineLength, |c.separator|, |Copies(0, n)|) == |Encode(c, Copies(0, n), true)|;
      }
    }
  }

  lemma Differ(x: nat, a: nat, b: nat)
    requires x > 0 && a != b
    ensures a * x != x * b
  {
    if a < b { LessOneMore(x, a, b); } else { LessOneMore(x, b, a); }
  }
}
