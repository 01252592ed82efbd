/** What the modelled files share: error numbers, sizes and bytes. */
module Common {

  const ENOENT := 2
  const ENOMEM := 12
  const EINVAL := 22
  const ENOSPC := 28

  /** The size of a pointer on a 64-bit machine. */
  const ADDRESS_SIZE: nat := 8

  datatype Option<T> = None | Some(value: T)

  type Byte = x: int | 0 <= x < 256

  /** The first position where `p` holds, or the length. */
  function FirstWhere<T>(s: seq<T>, p: T -> bool): (i: nat)
    ensures i <= |s|
    ensures i < |s| ==> p(s[i])
    ensures forall j :: 0 <= j < i ==> !p(s[j])
  {
    if s == [] || p(s[0]) then 0
    else
      assert forall j :: 1 <= j < |s| ==> s[j] == s[1..][j - 1];
      1 + FirstWhere(s[1..], p)
  }

  /** memcpy into an array, element by element. */
  method CopyInto<T>(dest: array<T>, at: nat, src: seq<T>)
    requires at + |src| <= dest.Length
    modifies dest
    ensures dest[..at + |src|] == old(dest[..at]) + src
    ensures dest[at + |src|..] == old(dest[at + |src|..])
  {
    var i := 0;
    while i < |src|
      invariant 0 <= i <= |src| && dest[..at + i] == old(dest[..at]) + src[..i]
      invariant dest[at + |src|..] == old(dest[at + |src|..])
    {
      dest[at + i] := src[i];
      i := i + 1;
    }
  }
}
