/** str_replace of common/shared_func.c: replace every occurrence of a pattern, writing no more than
    the destination holds. */
module StrReplace {
  import opened Common

  /** The pattern stands at `i`, before `z`. */
  predicate MatchAt(s: seq<Byte>, i: nat, z: nat, pattern: seq<Byte>)
    requires z <= |s|
  {
    i + |pattern| <= z && s[i..i + |pattern|] == pattern
  }

  // ----- what replacement means ------------------------------------------------------------------------

  /** The part of `s` from `i` to `z` with the pattern replaced from the left, without overlap. */
  function ReplaceFrom(s: seq<Byte>, i: nat, z: nat, pattern: seq<Byte>, sub: seq<Byte>): seq<Byte>
    requires pattern != [] && i <= z <= |s|
    decreases z - i
  {
    if i == z then []
    else if MatchAt(s, i, z, pattern) then sub + ReplaceFrom(s, i + |pattern|, z, pattern, sub)
    else [s[i]] + ReplaceFrom(s, i + 1, z, pattern, sub)
  }

  /** The length of the C string at the start of `s`. */
  function StringLength(s: seq<Byte>): (z: nat)
    ensures z <= |s| && (forall i :: 0 <= i < z ==> s[i] != 0) && (z < |s| ==> s[z] == 0)
  {
    if s == [] || s[0] == 0 then 0 else 1 + StringLength(s[1..])
  }

  /** What is still to be written when the source is read up to `i`: what follows a zero byte inside
      the source stays as it is. */
  function Remaining(s: seq<Byte>, i: nat, z: nat, pattern: seq<Byte>, sub: seq<Byte>): seq<Byte>
    requires pattern != [] && i <= z <= |s|
  {
    ReplaceFrom(s, i, z, pattern, sub) + s[z..]
  }

  /** What str_replace is to deliver; an empty pattern replaces nothing. */
  function Replaced(s: seq<Byte>, pattern: seq<Byte>, sub: seq<Byte>): seq<Byte> {
    if pattern == [] then s else Remaining(s, 0, StringLength(s), pattern, sub)
  }

  // ----- strstr -------------------------------------------------------------------------------------------

  /** Where the pattern first stands from `i` on; beyond `z` if nowhere. */
  function Find(s: seq<Byte>, i: nat, z: nat, pattern: seq<Byte>): (p: nat)
    requires i <= z <= |s|
    ensures i <= p <= z + 1
    decreases z - i
  {
    if MatchAt(s, i, z, pattern) then i else if i == z then z + 1 else Find(s, i + 1, z, pattern)
  }

  lemma {:induction false} FindIsFirst(s: seq<Byte>, i: nat, z: nat, pattern: seq<Byte>, k: nat)
    requires i <= k <= z <= |s|
    ensures var p := Find(s, i, z, pattern); p <= z ==> p + |pattern| <= z && s[p..p + |pattern|] == pattern
    ensures k + |pattern| <= z && s[k..k + |pattern|] == pattern ==> Find(s, i, z, pattern) <= k
    decreases z - i
  {
    if !MatchAt(s, i, z, pattern) && i < z { FindIsFirst(s, i + 1, z, pattern, if k == i then k + 1 else k); }
  }

  /** Replacement goes on after the first occurrence. */
  lemma {:induction false} ReplaceFirst(s: seq<Byte>, i: nat, z: nat, pattern: seq<Byte>, sub: seq<Byte>, p: nat)
    requires pattern != [] && i <= z <= |s| && p == Find(s, i, z, pattern) <= z
    ensures p + |pattern| <= z
    ensures ReplaceFrom(s, i, z, pattern, sub) == s[i..p] + (sub + ReplaceFrom(s, p + |pattern|, z, pattern, sub))
    decreases z - i
  {
    if p == i {
      assert s[i..p] == [];
    } else {
      ReplaceFirst(s, i + 1, z, pattern, sub, p);
      Extend(s, i, p, sub + ReplaceFrom(s, p + |pattern|, z, pattern, sub));
    }
  }

  lemma Extend(s: seq<Byte>, i: nat, p: nat, rest: seq<Byte>)
    requires i < p <= |s|
    ensures [s[i]] + (s[i + 1..p] + rest) == s[i..p] + rest
  {
    assert [s[i]] + s[i + 1..p] == s[i..p];
  }

  lemma {:induction false} ReplaceNone(s: seq<Byte>, i: nat, z: nat, pattern: seq<Byte>, sub: seq<Byte>)
    requires pattern != [] && i <= z <= |s| && Find(s, i, z, pattern) > z
    ensures ReplaceFrom(s, i, z, pattern, sub) == s[i..z]
    decreases z - i
  {
    if i < z {
      ReplaceNone(s, i + 1, z, pattern, sub);
      assert [s[i]] + s[i + 1..z] == s[i..z];
    }
  }

  lemma NextPiece(s: seq<Byte>, i: nat, z: nat, pattern: seq<Byte>, sub: seq<Byte>, p: nat)
    requires pattern != [] && i <= z <= |s| && p == Find(s, i, z, pattern) <= z
    ensures p + |pattern| <= z
    ensures Remaining(s, i, z, pattern, sub) == s[i..p] + (sub + Remaining(s, p + |pattern|, z, pattern, sub))
  {
    ReplaceFirst(s, i, z, pattern, sub, p);
    Regroup(s[i..p], sub, ReplaceFrom(s, p + |pattern|, z, pattern, sub), s[z..]);
  }

  lemma Regroup(a: seq<Byte>, b: seq<Byte>, c: seq<Byte>, d: seq<Byte>)
    ensures (a + (b + c)) + d == a + (b + (c + d))
  {
  }

  lemma LastPiece(s: seq<Byte>, i: nat, z: nat, pattern: seq<Byte>, sub: seq<Byte>)
    requires pattern != [] && i <= z <= |s| && Find(s, i, z, pattern) > z
    ensures Remaining(s, i, z, pattern, sub) == s[i..]
  {
    ReplaceNone(s, i, z, pattern, sub);
    assert s[i..] == s[i..z] + s[z..];
  }

  /** Replacing a pattern by itself changes nothing. */
  lemma {:induction false} ReplaceBySelf(s: seq<Byte>, i: nat, z: nat, pattern: seq<Byte>)
    requires pattern != [] && i <= z <= |s|
    ensures ReplaceFrom(s, i, z, pattern, pattern) == s[i..z]
    decreases z - i
  {
    if i < z {
      if MatchAt(s, i, z, pattern) {
        ReplaceBySelf(s, i + |pattern|, z, pattern);
        assert pattern + s[i + |pattern|..z] == s[i..z];
      } else {
        ReplaceBySelf(s, i + 1, z, pattern);
        assert [s[i]] + s[i + 1..z] == s[i..z];
      }
    }
  }

  // ----- the bounded copy ---------------------------------------------------------------------------------

  /** As much of `whole` as fits before the terminator, and the terminator. */
  predicate Fits(dest: seq<Byte>, size: int, whole: seq<Byte>, n: int) {
    && n == (if |whole| < size - 1 then |whole| else size - 1)
    && 0 <= n < |dest| && dest[..n] == whole[..n] && dest[n] == 0
  }

  /** One bounded piece: all of it when there is more room than that, otherwise what fits, and the end. */
  method Put(dest: array<Byte>, size: nat, at: nat, piece: seq<Byte>, ghost whole: seq<Byte>, ghost rest: seq<Byte>)
    returns (n: nat, full: bool)
    requires at < size <= dest.Length && whole == dest[..at] + (piece + rest)
    modifies dest
    ensures dest[size..] == old(dest[size..])
    ensures !full ==> n < size && n == at + |piece| && whole == dest[..n] + rest
    ensures full ==> Fits(dest[..], size, whole, n)
  {
    var remain := size - 1 - at;
    full := |piece| >= remain;
    ghost var before := dest[..at];
    if full {
      CopyInto(dest, at, piece[..remain]);
      n := at + remain;
      dest[n] := 0;
      assert whole[..n] == before + piece[..remain];
    } else {
      CopyInto(dest, at, piece);
      n := at + |piece|;
    }
  }

  /** The loop: everything up to the next occurrence, then the substitute. */
  method ReplaceLoop(s: seq<Byte>, z: nat, pattern: seq<Byte>, sub: seq<Byte>, dest: array<Byte>, size: nat)
    returns (n: nat)
    requires pattern != [] && 0 < size <= dest.Length && z <= |s|
    modifies dest
    ensures Fits(dest[..], size, Remaining(s, 0, z, pattern, sub), n)
    ensures dest[size..] == old(dest[size..])
  {
    ghost var whole := Remaining(s, 0, z, pattern, sub);
    var start: nat, at: nat, full := 0, 0, false;
    var p := Find(s, start, z, pattern);
    while p <= z
      invariant start <= z && at < size && p == Find(s, start, z, pattern)
      invariant whole == dest[..at] + Remaining(s, start, z, pattern, sub)
      invariant dest[size..] == old(dest[size..])
      decreases z - start
    {
      NextPiece(s, start, z, pattern, sub, p);
      ghost var rest := Remaining(s, p + |pattern|, z, pattern, sub);
      at, full := PutTwo(dest, size, at, s[start..p], sub, whole, rest);
      if full {
        return at;
      }
      start := p + |pattern|;
      p := Find(s, start, z, pattern);
    }
    LastPiece(s, start, z, pattern, sub);
    n := PutLast(dest, size, at, s[start..], whole);
  }

  /** The text before an occurrence, if any, and the substitute. */
  method PutTwo(
    dest: array<Byte>, size: nat, at: nat, piece: seq<Byte>, sub: seq<Byte>,
    ghost whole: seq<Byte>, ghost rest: seq<Byte>)
    returns (n: nat, full: bool)
    requires at < size <= dest.Length && whole == dest[..at] + (piece + (sub + rest))
    modifies dest
    ensures dest[size..] == old(dest[size..])
    ensures !full ==> n < size && whole == dest[..n] + rest
    ensures full ==> Fits(dest[..], size, whole, n)
  {
    n := at;
    if |piece| > 0 {
      n, full := Put(dest, size, n, piece, whole, sub + rest);
      if full {
        return;
      }
    } else {
      assert piece + (sub + rest) == sub + rest;
    }
    n, full := Put(dest, size, n, sub, whole, rest);
  }

  /** The last piece, cut to the room that is left. */
  method PutLast(dest: array<Byte>, size: nat, at: nat, piece: seq<Byte>, ghost whole: seq<Byte>) returns (n: nat)
    requires at < size <= dest.Length && whole == dest[..at] + piece
    modifies dest
    ensures Fits(dest[..], size, whole, n)
    ensures dest[size..] == old(dest[size..])
  {
    var len := |piece|;
    if len > size - 1 - at {
      len := size - 1 - at;
    }
    ghost var before := dest[..at];
    CopyInto(dest, at, piece[..len]);
    n := at + len;
    dest[n] := 0;
    assert whole[..n] == before + piece[..len];
  }

  /** str_replace. */
  method StrReplace(s: seq<Byte>, pattern: seq<Byte>, sub: seq<Byte>, dest: array<Byte>, size: int) returns (n: nat)
    requires size <= dest.Length
    modifies dest
    ensures size <= 0 ==> n == 0 && dest[..] == old(dest[..])
    ensures size > 0 ==> Fits(dest[..], size, Replaced(s, pattern, sub), n) && dest[size..] == old(dest[size..])
    ensures size > 0 && pattern == [] ==> Fits(dest[..], size, s, n)
  {
    if size <= 0 {
      return 0;
    }
    if |pattern| == 0 {
      n := PutLast(dest, size, 0, s, s);
    } else {
      n := ReplaceLoop(s, StringLength(s), pattern, sub, dest, size);
    }
  }
}
