/** Counting references to open inodes: posix/posix.c keeps an array of open
    inodes, to which handles and the tasks' working directories point. */
module References {
  import opened Constants
  import opened Finite

  /** OPENINODE; `reserved` and `orphan` are its flags. */
  datatype OpenInode = OpenInode(inode: nat, vol: nat, orphan: bool, reserved: bool, refs: nat) {
    predicate Is(v: nat, i: nat) {
      inode == i && vol == v
    }
  }

  /** How often `s` occurs among the pointers. */
  ghost function Count(ptrs: seq<int>, s: int): nat {
    if ptrs == [] then 0 else (if ptrs[0] == s then 1 else 0) + Count(ptrs[1..], s)
  }

  lemma {:induction false} CountUpdate(ptrs: seq<int>, k: nat, p: int, s: int)
    requires k < |ptrs|
    ensures Count(ptrs[k := p], s) == Count(ptrs, s) - (if ptrs[k] == s then 1 else 0) + (if p == s then 1 else 0)
  {
    if k > 0 {
      assert ptrs[k := p][1..] == ptrs[1..][k - 1 := p];
      CountUpdate(ptrs[1..], k - 1, p, s);
    } else {
      assert ptrs[k := p][1..] == ptrs[1..];
    }
  }

  lemma {:induction false} CountedOccurs(ptrs: seq<int>, s: int) returns (k: nat)
    requires Count(ptrs, s) > 0
    ensures k < |ptrs| && ptrs[k] == s
  {
    if ptrs[0] == s {
      k := 0;
    } else {
      k := CountedOccurs(ptrs[1..], s);
      k := k + 1;
    }
  }

  lemma {:induction false} OccursCounted(ptrs: seq<int>, k: nat)
    requires k < |ptrs|
    ensures Count(ptrs, ptrs[k]) > 0
  {
    if k > 0 {
      OccursCounted(ptrs[1..], k - 1);
    }
  }

  lemma {:induction false} CountBound(ptrs: seq<int>, s: int)
    ensures Count(ptrs, s) <= |ptrs|
  {
    if ptrs != [] {
      CountBound(ptrs[1..], s);
    }
  }

  /** Slot `s` counts its references exactly, and is in use if it has any. */
  ghost predicate SlotOk(slots: seq<OpenInode>, ptrs: seq<int>, s: nat)
    requires s < |slots|
  {
    slots[s].refs == Count(ptrs, s) && (slots[s].refs == 0 <==> slots[s].inode == INODE_INVALID)
  }

  /** No inode has two slots. */
  ghost predicate Distinct(slots: seq<OpenInode>) {
    forall s, t | 0 <= s < t < |slots| && slots[s].inode == slots[t].inode && slots[s].vol == slots[t].vol ::
      slots[s].inode == INODE_INVALID
  }

  /** Every slot is exact, and there is one for every pointer there can be. */
  ghost predicate Balanced(slots: seq<OpenInode>, ptrs: seq<int>) {
    && |ptrs| <= |slots|
    && (forall k | 0 <= k < |ptrs| :: -1 <= ptrs[k] < |slots|)
    && (forall s | 0 <= s < |slots| :: SlotOk(slots, ptrs, s))
    && Distinct(slots)
  }

  /** For each of the first `n` slots, a pointer to it. */
  ghost function Pointing(slots: seq<OpenInode>, ptrs: seq<int>, n: nat): (at: seq<nat>)
    requires n <= |slots| && Balanced(slots, ptrs) && forall s | 0 <= s < |slots| :: slots[s].refs > 0
    ensures |at| == n && forall s | 0 <= s < n :: at[s] < |ptrs| && ptrs[at[s]] == s
  {
    if n == 0 then
      []
    else
      assert SlotOk(slots, ptrs, n - 1);
      assert exists k :: 0 <= k < |ptrs| && ptrs[k] == n - 1 by {
        var k := CountedOccurs(ptrs, n - 1);
      }
      var k :| 0 <= k < |ptrs| && ptrs[k] == n - 1;
      Pointing(slots, ptrs, n - 1) + [k]
  }

  /** If a pointer is not used, some slot is free. */
  lemma SomeSlotFree(slots: seq<OpenInode>, ptrs: seq<int>, unused: nat)
    requires Balanced(slots, ptrs) && unused < |ptrs| && ptrs[unused] == -1
    ensures exists s :: 0 <= s < |slots| && slots[s].inode == INODE_INVALID
  {
    if forall s | 0 <= s < |slots| :: slots[s].inode != INODE_INVALID {
      forall s | 0 <= s < |slots|
        ensures slots[s].refs > 0
      {
        assert SlotOk(slots, ptrs, s);
      }
      var at := Pointing(slots, ptrs, |slots|);
      forall s, t | 0 <= s < t < |at|
        ensures at[s] != at[t]
      {
        assert ptrs[at[s]] == s && ptrs[at[t]] == t;
      }
      DistinctWithin(at, Below(|ptrs|) - {unused});
      assert false;
    }
  }

  /** A slot after it was found or allocated, and after it was referenced. */
  ghost predicate Opened(slots: seq<OpenInode>, s: nat, vol: nat, inode: nat, now: seq<OpenInode>)
    requires s < |slots|
  {
    && |now| == |slots| && now == slots[s := now[s]]
    && if slots[s].inode != INODE_INVALID then slots[s].Is(vol, inode) && now[s] == slots[s].(refs := slots[s].refs + 1)
       else now[s] == OpenInode(inode, vol, false, false, 1)
            && forall t | 0 <= t < |slots| :: !slots[t].Is(vol, inode)
  }

  /** Pointing an unused pointer at it keeps the balance. */
  lemma OpenedBalances(slots: seq<OpenInode>, ptrs: seq<int>, k: nat, s: nat, vol: nat, inode: nat, now: seq<OpenInode>)
    requires Balanced(slots, ptrs) && k < |ptrs| && ptrs[k] == -1 && s < |slots| && inode != INODE_INVALID
    requires Opened(slots, s, vol, inode, now)
    ensures Balanced(now, ptrs[k := s])
  {
    var after := ptrs[k := s];
    forall t | 0 <= t < |now|
      ensures SlotOk(now, after, t)
    {
      CountUpdate(ptrs, k, s, t);
      assert SlotOk(slots, ptrs, t);
    }
  }

  /** A slot after a reference to it was dropped. */
  function Dereferenced(o: OpenInode): OpenInode
    requires o.refs > 0
  {
    o.(refs := o.refs - 1, inode := if o.refs == 1 then INODE_INVALID else o.inode)
  }

  lemma DroppedBalances(slots: seq<OpenInode>, ptrs: seq<int>, k: nat)
    requires Balanced(slots, ptrs) && k < |ptrs| && ptrs[k] != -1
    ensures slots[ptrs[k]].refs > 0
    ensures Balanced(slots[ptrs[k] := Dereferenced(slots[ptrs[k]])], ptrs[k := -1])
  {
    var s := ptrs[k];
    OccursCounted(ptrs, k);
    assert SlotOk(slots, ptrs, s);
    var now := slots[s := Dereferenced(slots[s])];
    var after := ptrs[k := -1];
    forall t | 0 <= t < |now|
      ensures SlotOk(now, after, t)
    {
      CountUpdate(ptrs, k, -1, t);
      assert SlotOk(slots, ptrs, t);
    }
  }

  /** A slot that is pointed to is in use. */
  lemma PointedIsUsed(slots: seq<OpenInode>, ptrs: seq<int>, j: nat)
    requires Balanced(slots, ptrs) && j < |ptrs| && ptrs[j] != -1
    ensures slots[ptrs[j]].inode != INODE_INVALID && slots[ptrs[j]].refs > 0
  {
    assert SlotOk(slots, ptrs, ptrs[j]);
    OccursCounted(ptrs, j);
  }

  predicate SameInode(a: OpenInode, b: OpenInode) {
    a.inode == b.inode && a.vol == b.vol
  }

  /** Dropping one pointer's reference and opening another inode for it leaves
      what every other pointer stands for. */
  lemma OthersStand(slots: seq<OpenInode>, ptrs: seq<int>, k: nat, s: nat, vol: nat, inode: nat, now: seq<OpenInode>, j: nat)
    requires Balanced(slots, ptrs) && k < |ptrs| && ptrs[k] != -1 && slots[ptrs[k]].refs > 0
    requires s < |slots| && Opened(slots[ptrs[k] := Dereferenced(slots[ptrs[k]])], s, vol, inode, now)
    requires j < |ptrs| && j != k && ptrs[j] != -1
    ensures SameInode(slots[ptrs[j]], now[ptrs[j]])
  {
    DroppedBalances(slots, ptrs, k);
    PointedIsUsed(slots[ptrs[k] := Dereferenced(slots[ptrs[k]])], ptrs[k := -1], j);
  }

  /** Marking an orphan keeps the balance. */
  lemma FlaggedBalances(slots: seq<OpenInode>, ptrs: seq<int>, s: nat)
    requires Balanced(slots, ptrs) && s < |slots|
    ensures Balanced(slots[s := slots[s].(orphan := true)], ptrs)
  {
    var now := slots[s := slots[s].(orphan := true)];
    forall t | 0 <= t < |now|
      ensures SlotOk(now, ptrs, t)
    {
      assert SlotOk(slots, ptrs, t);
    }
  }
}
