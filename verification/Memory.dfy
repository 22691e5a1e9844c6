/** Byte moves of util/memory.c, inside one array. */
module Memory {

  /** `a` with the `length` elements at `src` copied to `dst`. */
  function Moved<T>(a: seq<T>, dst: nat, src: nat, length: nat): seq<T>
    requires dst + length <= |a| && src + length <= |a|
  {
    a[..dst] + a[src..src + length] + a[dst + length..]
  }

  /** RedMemMoveUnchecked(): copy upwards or downwards, so that no element is
      overwritten before it has been copied. */
  method MemMove<T>(a: array<T>, dst: nat, src: nat, length: nat)
    requires dst + length <= a.Length && src + length <= a.Length
    modifies a
    ensures a[..] == Moved(old(a[..]), dst, src, length)
  {
    ghost var before := a[..];
    var i: nat := 0;
    if dst < src {
      while i < length
        invariant i <= length
        invariant forall k | dst <= k < dst + i :: a[k] == before[k - dst + src]
        invariant forall k | 0 <= k < a.Length && !(dst <= k < dst + i) :: a[k] == before[k]
      {
        a[dst + i] := a[src + i];
        i := i + 1;
      }
    } else {
      i := length;
      while i > 0
        invariant i <= length
        invariant forall k | dst + i <= k < dst + length :: a[k] == before[k - dst + src]
        invariant forall k | 0 <= k < a.Length && !(dst + i <= k < dst + length) :: a[k] == before[k]
      {
        i := i - 1;
        a[dst + i] := a[src + i];
      }
    }
    MovedIs(before, dst, src, length, a[..]);
  }

  lemma MovedIs<T>(before: seq<T>, dst: nat, src: nat, length: nat, after: seq<T>)
    requires dst + length <= |before| && src + length <= |before| && |after| == |before|
    requires forall k | dst <= k < dst + length :: after[k] == before[k - dst + src]
    requires forall k | 0 <= k < |after| && !(dst <= k < dst + length) :: after[k] == before[k]
    ensures after == Moved(before, dst, src, length)
  {
    assert after[dst..dst + length] == before[src..src + length];
    assert after[..dst] == before[..dst];
    assert after[dst + length..] == before[dst + length..];
    assert after == after[..dst] + after[dst..dst + length] + after[dst + length..];
  }

  /** RedMemCpy() into an array from outside it. */
  method MemCopy<T>(a: array<T>, dst: nat, data: seq<T>)
    requires dst + |data| <= a.Length
    modifies a
    ensures a[dst..dst + |data|] == data
    ensures forall k | 0 <= k < a.Length && !(dst <= k < dst + |data|) :: a[k] == old(a[k])
  {
    var i: nat := 0;
    while i < |data|
      invariant i <= |data|
      invariant forall k | 0 <= k < i :: a[dst + k] == data[k]
      invariant forall k | 0 <= k < a.Length && !(dst <= k < dst + i) :: a[k] == old(a[k])
    {
      a[dst + i] := data[i];
      i := i + 1;
    }
  }

  /** RedMemCpy() within one array, upwards: right for what does not overlap, and
      where the destination lies before the source. */
  method MemCopyApart<T>(a: array<T>, dst: nat, src: nat, length: nat)
    requires dst + length <= a.Length && src + length <= a.Length
    requires dst <= src || src + length <= dst
    modifies a
    ensures a[..] == Moved(old(a[..]), dst, src, length)
  {
    ghost var before := a[..];
    var i: nat := 0;
    while i < length
      invariant i <= length
      invariant forall k | dst <= k < dst + i :: a[k] == before[k - dst + src]
      invariant forall k | 0 <= k < a.Length && !(dst <= k < dst + i) :: a[k] == before[k]
    {
      a[dst + i] := a[src + i];
      i := i + 1;
    }
    MovedIs(before, dst, src, length, a[..]);
  }
}
