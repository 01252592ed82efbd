/** The context of common/base64.c and the loops that work with it, proved against the functions of
    Base64. */
module Base64Context {
  import opened Common
  import opened Base64

  /** The value of a character after the first `n` letters were entered; a later letter wins. */
  ghost function Entered(c: Codec, n: nat, x: Byte): (v: int)
    requires n <= 64
    ensures IGNORE <= v < n
  {
    if n == 0 then IGNORE else if Letter(c, n - 1) == x then n - 1 else Entered(c, n - 1, x)
  }

  lemma {:induction false} EnteredIsLast(c: Codec, n: nat, x: Byte, w: nat)
    requires w < n <= 64
    ensures var v := Entered(c, n, x); (v >= 0 ==> Letter(c, v) == x) && (Letter(c, w) == x ==> w <= v)
  {
    if Letter(c, n - 1) != x && n > 1 { EnteredIsLast(c, n - 1, x, if w < n - 1 then w else 0); }
  }

  lemma AllEntered(c: Codec, x: Byte, n: nat)
    requires n == 64
    ensures Entered(c, n, x) == LetterValue(c, x)
  {
    var v := LetterValue(c, x);
    EnteredIsLast(c, n, x, if v >= 0 then v else 0);
  }

  /** The six-bit values combined so far. */
  function Combined(q: seq<Sextet>): nat {
    if q == [] then 0 else Combined(q[..|q| - 1]) * 64 + q[|q| - 1]
  }

  lemma CombinedFour(q: seq<Sextet>)
    requires |q| == 4
    ensures Combined(q) == Number4(q)
  {
    assert q[..3][..2] == q[..2] && q[..2][..1] == q[..1] && q[..1][..0] == [];
    assert Combined(q[..1]) == q[0];
    assert Combined(q[..2]) == Combined(q[..1]) * 64 + q[1];
    assert Combined(q[..3]) == Combined(q[..2]) * 64 + q[2];
  }

  /** The text of `n` groups of three bytes. */
  ghost function TextOf(c: Codec, s: seq<Byte>, n: nat): seq<Byte>
    requires |s| == 3 * n
  {
    if n == 0 then [] else
      var m := 3 * (n - 1);
      TextOf(c, s[..m], n - 1) + Break(c, n - 1) + Letters(c, Quad(s[m..]))
  }

  type Rendering = (seq<Byte>, nat) -> seq<Byte>

  /** `text` gives the text of whole groups. */
  ghost predicate Renders(c: Codec, text: Rendering) {
    forall s: seq<Byte>, n: nat {:trigger TextOf(c, s, n)} :: |s| == 3 * n ==> text(s, n) == TextOf(c, s, n)
  }

  lemma {:induction false} TextOfIsText(c: Codec, s: seq<Byte>, n: nat)
    requires |s| == 3 * n
    ensures TextOf(c, s, n) == Text(c, Quads(s, n), n)
    decreases n
  {
    if n > 0 {
      var m := 3 * (n - 1);
      TextOfIsText(c, s[..m], n - 1);
      var q := Quads(s, n);
      assert q[..4 * (n - 1)] == Quads(s[..m], n - 1) && q[4 * (n - 1)..] == Quad(s[m..]);
    }
  }

  lemma TextStep(c: Codec, s: seq<Byte>, g: seq<Byte>, n: nat)
    requires |s| == 3 * n && |g| == 3
    ensures TextOf(c, s + g, n + 1) == TextOf(c, s, n) + Break(c, n) + Letters(c, Quad(g))
  {
    assert (s + g)[..3 * n] == s && (s + g)[3 * n..] == g;
  }

  lemma FullTextIs(c: Codec, s: seq<Byte>, n: nat, k: nat)
    requires |s| + k == 3 * n && k <= 2
    ensures Fill(|s|) == k && FullText(c, s) == TextOf(c, Filled(s, k), n)
  {
    assert Groups(|s|) == n;
    TextOfIsText(c, Filled(s, k), n);
  }

  lemma TwoCopies(x: Byte)
    ensures Copies(x, 1) == [x] && Copies(x, 2) == [x, x]
  {
    assert Copies(x, 1) == Copies(x, 0) + [x];
    assert Copies(x, 2) == Copies(x, 1) + [x];
  }

  /** `k` groups of `q` are in `dest`, and the other `cycle` values are combined. */
  ghost predicate Waits(q: seq<Sextet>, dest: seq<int>, cycle: nat, combined: int, k: nat) {
    && cycle < 4 && |q| == 4 * k + cycle
    && dest == Bytes(q[..4 * k], k)
    && (cycle > 0 ==> combined == Combined(q[4 * k..]))
  }

  /** One more value: it waits, or it completes a group. */
  lemma NextValue(q: seq<Sextet>, v: Sextet, dest: seq<int>, cycle: nat, combined: int, k: nat)
    requires cycle < 4 && |q| == 4 * k + cycle && dest == Bytes(q[..4 * k], k)
    requires combined == Combined(q[4 * k..]) * 64 + v
    ensures if cycle < 3 then Waits(q + [v], dest, cycle + 1, combined, k)
            else Waits(q + [v], dest + Triple(combined), 0, combined, k + 1)
  {
    var q' := q + [v];
    assert q'[..4 * k] == q[..4 * k];
    var last := q'[4 * k..];
    assert last[..|last| - 1] == q[4 * k..];
    assert combined == Combined(last);
    if cycle == 3 {
      CombinedFour(last);
      assert q'[..4 * (k + 1)] == q';
    }
  }

  lemma OneMore(c: Codec, t: seq<Byte>, x: Byte)
    ensures var v := ValueOf(c, x);
      && Values(c, t + [x]) == Values(c, t) + (if v == IGNORE then [] else if v == PAD then [0] else [v])
      && Pads(c, t + [x]) == Pads(c, t) + if v == PAD then 1 else 0
  {
    assert (t + [x])[..|t|] == t;
  }

  lemma Unfinished(k: nat, cycle: nat)
    requires 0 < cycle < 4
    ensures (4 * k + cycle) % 4 != 0
  {
  }

  class Context {
    var lineLength: int
    var separator: seq<Byte>
    var valueToChar: array<Byte>
    var charToValue: array<int>
    var padCh: Byte
    ghost var codec: Codec

    ghost predicate Valid()
      reads this, valueToChar, charToValue
    {
      && lineLength == codec.lineLength && separator == codec.separator && padCh == codec.pad
      && valueToChar.Length == 64 && charToValue.Length == 256
      && (forall v :: 0 <= v < 64 ==> valueToChar[v] == Letter(codec, v))
      && (forall x :: 0 <= x < 256 ==> charToValue[x] == ValueOf(codec, x))
    }

    /** base64_init_ex. */
    constructor (nLineLength: int, plus: Byte, slash: Byte, pad: Byte)
      ensures Valid() && codec == Codec(nLineLength, [10], plus, slash, pad)
      ensures fresh(valueToChar) && fresh(charToValue)
    {
      lineLength, separator, padCh := nLineLength, [10], pad;
      valueToChar, charToValue := new Byte[64], new int[256];
      codec := Codec(nLineLength, [10], plus, slash, pad);
      new;
      FillLetters(plus, slash);
      FillValues(pad);
    }

    method FillLetters(plus: Byte, slash: Byte)
      requires valueToChar.Length == 64 && plus == codec.plus && slash == codec.slash
      modifies valueToChar
      ensures forall v :: 0 <= v < 64 ==> valueToChar[v] == Letter(codec, v)
    {
      for i := 0 to 26
        invariant forall v :: 0 <= v < i ==> valueToChar[v] == Letter(codec, v)
      {
        valueToChar[i] := 65 + i;
      }
      for i := 0 to 26
        invariant forall v :: 0 <= v < 26 + i ==> valueToChar[v] == Letter(codec, v)
      {
        valueToChar[i + 26] := 97 + i;
      }
      for i := 0 to 10
        invariant forall v :: 0 <= v < 52 + i ==> valueToChar[v] == Letter(codec, v)
      {
        valueToChar[i + 52] := 48 + i;
      }
      valueToChar[62] := plus;
      valueToChar[63] := slash;
    }

    method FillValues(pad: Byte)
      requires valueToChar.Length == 64 && charToValue.Length == 256 && pad == codec.pad
      requires forall v :: 0 <= v < 64 ==> valueToChar[v] == Letter(codec, v)
      modifies charToValue
      ensures forall x :: 0 <= x < 256 ==> charToValue[x] == ValueOf(codec, x)
    {
      for i := 0 to 256
        invariant forall x :: 0 <= x < i ==> charToValue[x] == IGNORE
      {
        charToValue[i] := IGNORE;
      }
      var i := 0;
      while i < 64
        invariant 0 <= i <= 64
        invariant forall x :: 0 <= x < 256 ==> charToValue[x] == Entered(codec, i, x)
      {
        charToValue[valueToChar[i]] := i;
        i := i + 1;
      }
      forall x | 0 <= x < 256 ensures charToValue[x] == LetterValue(codec, x) {
        AllEntered(codec, x, i);
      }
      charToValue[pad] := PAD;
    }

    /** The inner loop of base64_encode_ex over whole groups, after the `n` groups of `done`. */
    method EncodeGroups(
      part: seq<Byte>, before: seq<Byte>, pos: int, ghost done: seq<Byte>, ghost n: nat, ghost m: nat)
      returns (dest: seq<Byte>, linePos: int)
      requires Valid() && |done| == 3 * n && |part| == 3 * m
      requires before == TextOf(codec, done, n) && pos == Pos(codec.lineLength, n)
      ensures dest == TextOf(codec, done + part, n + m) && linePos == Pos(codec.lineLength, n + m)
    {
      ghost var c := codec;
      ghost var text := (s: seq<Byte>, n: nat) => if |s| == 3 * n then TextOf(c, s, n) else [];
      dest, linePos := RenderGroups(part, before, pos, text, done, n, m);
    }

    /** The loop itself, with `text` standing for TextOf so that its definition stays out of the proof. */
    method RenderGroups(
      part: seq<Byte>, before: seq<Byte>, pos: int,
      ghost text: Rendering, ghost done: seq<Byte>, ghost n: nat, ghost m: nat)
      returns (dest: seq<Byte>, linePos: int)
      requires Valid() && Renders(codec, text) && |done| == 3 * n && |part| == 3 * m
      requires before == text(done, n) && pos == Pos(codec.lineLength, n)
      ensures dest == text(done + part, n + m) && linePos == Pos(codec.lineLength, n + m)
    {
      dest, linePos := before, pos;
      ghost var i: nat, s := 0, done;
      var raw := 0;
      while raw < |part|
        invariant raw == 3 * i && i <= m && s == done + part[..raw]
        invariant dest == text(s, n + i) && linePos == Pos(codec.lineLength, n + i)
      {
        dest, linePos := RenderGroup(part[raw..raw + 3], dest, linePos, text, s, n + i);
        assert part[..raw + 3] == part[..raw] + part[raw..raw + 3];
        s := s + part[raw..raw + 3];
        raw, i := raw + 3, i + 1;
      }
      assert i == m && part[..raw] == part;
    }

    method RenderGroup(
      g: seq<Byte>, before: seq<Byte>, pos: int, ghost text: Rendering, ghost s: seq<Byte>, ghost n: nat)
      returns (dest: seq<Byte>, linePos: int)
      requires Valid() && Renders(codec, text) && |g| == 3 && |s| == 3 * n
      requires before == text(s, n) && pos == Pos(codec.lineLength, n)
      ensures dest == text(s + g, n + 1) && linePos == Pos(codec.lineLength, n + 1)
    {
      assert before == TextOf(codec, s, n);
      dest, linePos := EncodeGroup(g, before, pos, s, n);
    }

    /** One turn of that loop: a separator if the group does not fit the line, and four letters. */
    method EncodeGroup(g: seq<Byte>, before: seq<Byte>, pos: int, ghost s: seq<Byte>, ghost n: nat)
      returns (dest: seq<Byte>, linePos: int)
      requires Valid() && |g| == 3 && |s| == 3 * n
      requires before == TextOf(codec, s, n) && pos == Pos(codec.lineLength, n)
      ensures dest == TextOf(codec, s + g, n + 1) && linePos == Pos(codec.lineLength, n + 1)
    {
      dest, linePos := before, pos + 4;
      if linePos > lineLength {
        if lineLength != 0 {
          dest := dest + separator;
        }
        linePos := 4;
      }
      assert dest == before + Break(codec, n);
      var letters := FourLetters(g);
      dest := dest + letters;
      TextStep(codec, s, g, n);
    }

    method FourLetters(g: seq<Byte>) returns (letters: seq<Byte>)
      requires Valid() && |g| == 3
      ensures letters == Letters(codec, Quad(g))
    {
      var combined := Number3(g);
      FourDigits(combined);
      ghost var q := Quad(g);
      var c3 := combined % 64;
      combined := combined / 64;
      var c2 := combined % 64;
      combined := combined / 64;
      var c1 := combined % 64;
      combined := combined / 64;
      var c0 := combined % 64;
      assert q == [c0, c1, c2, c3];
      letters := [valueToChar[c0], valueToChar[c1], valueToChar[c2], valueToChar[c3]];
      forall i: nat | i < 4 ensures Letters(codec, q)[i] == letters[i] {
        LettersAt(codec, q, i);
      }
    }

    /** base64_encode_ex. */
    method EncodeEx(src: seq<Byte>, pad: bool) returns (dest: seq<Byte>)
      requires Valid()
      ensures dest == Encode(codec, src, pad)
    {
      if |src| == 0 {
        FullTextIs(codec, src, 0, 0);
        return [];
      }
      var whole := |src| / 3 * 3;
      var text := EncodeWhole(src, whole, |src| - whole, |src| / 3);
      dest := Finish(text, |src| - whole, pad);
    }

    method EncodeWhole(src: seq<Byte>, whole: nat, leftover: nat, ghost n: nat) returns (dest: seq<Byte>)
      requires Valid() && src != [] && whole == 3 * n && leftover <= 2 && |src| == whole + leftover
      ensures dest == FullText(codec, src) && |dest| >= 4
      ensures Fill(|src|) == if leftover == 0 then 0 else 3 - leftover
    {
      dest := EncodeAll(src, whole, leftover, n);
      assert Filled(src, 0) == src;
      FullTextIs(codec, src, if leftover == 0 then n else n + 1, if leftover == 0 then 0 else 3 - leftover);
    }

    /** The last switch: pads, or a shorter text. */
    method Finish(text: seq<Byte>, leftover: nat, pad: bool) returns (dest: seq<Byte>)
      requires Valid() && leftover <= 2 && |text| >= 4
      ensures var k := if leftover == 0 then 0 else 3 - leftover;
        dest == Cut(text, k) + if pad then Copies(codec.pad, k) else []
    {
      TwoCopies(padCh);
      dest := text;
      var n := |dest|;
      if leftover == 1 {
        dest := if pad then dest[..n - 2] + [padCh, padCh] else dest[..n - 2];
      } else if leftover == 2 {
        dest := if pad then dest[..n - 1] + [padCh] else dest[..n - 1];
      }
    }

    /** The two passes: the whole groups of the source, then the leftover bytes with zeros. */
    method EncodeAll(src: seq<Byte>, whole: nat, leftover: nat, ghost n: nat) returns (dest: seq<Byte>)
      requires Valid() && src != [] && whole == 3 * n && leftover <= 2 && |src| == whole + leftover
      ensures dest == if leftover == 0 then TextOf(codec, src, n) else TextOf(codec, Filled(src, 3 - leftover), n + 1)
    {
      var linePos;
      dest, linePos := EncodeFirst(src[..whole], n);
      if leftover == 0 {
        assert src == src[..whole];
      } else {
        dest := EncodeLast(src, whole, leftover, dest, linePos, n);
      }
    }

    method EncodeFirst(part: seq<Byte>, ghost n: nat) returns (dest: seq<Byte>, linePos: int)
      requires Valid() && |part| == 3 * n
      ensures dest == TextOf(codec, part, n) && linePos == Pos(codec.lineLength, n)
    {
      dest, linePos := EncodeGroups(part, [], 0, [], 0, n);
      assert [] + part == part;
    }

    method EncodeLast(src: seq<Byte>, whole: nat, leftover: nat, before: seq<Byte>, pos: int, ghost n: nat)
      returns (dest: seq<Byte>)
      requires Valid() && whole == 3 * n && 1 <= leftover <= 2 && |src| == whole + leftover
      requires before == TextOf(codec, src[..whole], n) && pos == Pos(codec.lineLength, n)
      ensures dest == TextOf(codec, Filled(src, 3 - leftover), n + 1)
    {
      var last := if leftover == 1 then [src[whole], 0, 0] else [src[whole], src[whole + 1], 0];
      TwoCopies(0);
      assert Filled(src, 3 - leftover) == src[..whole] + last;
      var linePos;
      dest, linePos := EncodeGroups(last, before, pos, src[..whole], n, 1);
    }

    /** base64_decode: what it leaves in the destination and the length it reports. */
    method DecodeText(src: seq<Byte>) returns (dest: seq<int>, len: int)
      requires Valid()
      ensures Decoded(dest, len) == Decode(codec, src)
    {
      var cycle: nat, combined, dummies := 0, 0, 0;
      dest := [];
      ghost var k: nat, q := 0, [];
      var i := 0;
      while i < |src|
        invariant 0 <= i <= |src| && q == Values(codec, src[..i]) && dummies == Pads(codec, src[..i])
        invariant Waits(q, dest, cycle, combined, k)
      {
        assert src[..i + 1] == src[..i] + [src[i]];
        OneMore(codec, src[..i], src[i]);
        var value := charToValue[src[i]];
        if value != IGNORE {
          if value == PAD {
            value, dummies := 0, dummies + 1;
          }
          dest, cycle, combined, k := TakeValue(value, dest, cycle, combined, q, k);
          q := q + [value];
        }
        i := i + 1;
      }
      assert src[..i] == src;
      FourTimes(k);
      if cycle != 0 {
        Unfinished(k, cycle);
        return [], 0;
      }
      assert q[..4 * k] == q;
      len := |dest| - dummies;
    }

    /** The switch on the cycle. */
    method TakeValue(value: Sextet, written: seq<int>, at: nat, sum: int, ghost q: seq<Sextet>, ghost n: nat)
      returns (dest: seq<int>, cycle: nat, combined: int, ghost k: nat)
      requires Waits(q, written, at, sum, n)
      ensures Waits(q + [value], dest, cycle, combined, k)
    {
      dest, k := written, n;
      combined := if at == 0 then value else sum * 64 + value;
      assert at == 0 ==> q[4 * n..] == [];
      NextValue(q, value, dest, at, combined, n);
      if at == 3 {
        dest := dest + Triple(combined);
        cycle, k := 0, n + 1;
      } else {
        cycle := at + 1;
      }
    }

    /** base64_decode_auto; `mallocOk` says whether a buffer can be had for a long text. */
    method DecodeAnyText(src: seq<Byte>, mallocOk: bool) returns (dest: seq<int>, len: int)
      requires Valid()
      ensures if |src| % 4 != 0 && |src| + (4 - |src| % 4) > 256 && !mallocOk then dest == [] && len == 0
              else Decoded(dest, len) == DecodeAuto(codec, src)
    {
      var remain := |src| % 4;
      if remain == 0 {
        dest, len := DecodeText(src);
        return;
      }
      var padLen := 4 - remain;
      if |src| + padLen > 256 && !mallocOk {
        return [], 0;
      }
      var buff := src;
      var j := 0;
      while j < padLen
        invariant 0 <= j <= padLen && buff == src + Copies(padCh, j)
      {
        buff, j := buff + [padCh], j + 1;
      }
      dest, len := DecodeText(buff);
    }

    /** base64_get_encode_length. */
    method GetEncodeLength(n: nat) returns (len: nat)
      requires Valid()
      ensures len == EncodeLength(codec.lineLength, |codec.separator|, n)
    {
      len := (n + 2) / 3 * 4;
      if lineLength != 0 {
        var lines := Quotient(len + lineLength - 1, lineLength) - 1;
        if lines > 0 {
          len := len + lines * |separator|;
        }
      }
    }
  }
}
