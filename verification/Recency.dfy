/** The MRU array of core/driver/buffer.c: every buffer index once, the most
    recently used first. */
module Recency {
  import opened Finite

  ghost predicate Permutation(s: seq<nat>, n: nat) {
    && |s| == n
    && (forall i | 0 <= i < n :: s[i] < n)
    && (forall i, j | 0 <= i < j < n :: s[i] != s[j])
  }

  /** The element at `k` moved to the front. */
  function MadeFirst(s: seq<nat>, k: nat): seq<nat>
    requires k < |s|
  {
    [s[k]] + s[..k] + s[k + 1..]
  }

  /** The element at `k` moved to the back. */
  function MadeLast(s: seq<nat>, k: nat): seq<nat>
    requires k < |s|
  {
    s[..k] + s[k + 1..] + [s[k]]
  }

  lemma MovesPermute(s: seq<nat>, n: nat, k: nat)
    requires Permutation(s, n) && k < n
    ensures Permutation(MadeFirst(s, k), n) && Permutation(MadeLast(s, k), n)
  {
  }

  /** A permutation has every index somewhere. */
  lemma Position(s: seq<nat>, n: nat, b: nat) returns (i: nat)
    requires Permutation(s, n) && b < n
    ensures i < n && s[i] == b
  {
    DistinctElements(s);
    if b !in s {
      SubsetSize(Elements(s), Below(n) - {b});
      assert false;
    }
    i :| i < n && s[i] == b;
  }

  /** The array is in order of last use, latest first. */
  ghost predicate Recent(s: seq<nat>, lastUse: seq<int>) {
    && (forall i | 0 <= i < |s| :: s[i] < |lastUse|)
    && (forall i, j | 0 <= i < j < |s| :: lastUse[s[i]] > lastUse[s[j]])
  }

  lemma UsedIsFirst(s: seq<nat>, n: nat, lastUse: seq<int>, k: nat, now: int)
    requires Permutation(s, n) && |lastUse| == n && Recent(s, lastUse) && k < n
    requires forall b | 0 <= b < n :: lastUse[b] < now
    ensures Recent(MadeFirst(s, k), lastUse[s[k] := now])
  {
  }

  lemma DiscardedIsLast(s: seq<nat>, n: nat, lastUse: seq<int>, k: nat, never: int)
    requires Permutation(s, n) && |lastUse| == n && Recent(s, lastUse) && k < n
    requires forall b | 0 <= b < n :: lastUse[b] > never
    ensures Recent(MadeLast(s, k), lastUse[s[k] := never])
  {
  }
}
