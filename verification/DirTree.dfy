/** The tree of directories that parent links make, and what moving one
    directory under another does to it: core/driver/dir.c. */
module DirTree {
  import opened Constants
  import opened Finite
  import opened DirEntries
  import opened Directories

  datatype Kind = Folder | RegularFile | SymbolicLink

  /** What mounting an inode shows: its kind, ulPInode and ullSize. */
  datatype InodeNode = InodeNode(kind: Kind, parent: nat, size: nat)

  type Nodes = map<nat, InodeNode>

  ghost predicate IsFolder(nodes: Nodes, d: nat) {
    d in nodes && nodes[d].kind.Folder?
  }

  /** Following the parents of directory `d` leads to the root in `k` steps. */
  ghost predicate Leads(nodes: Nodes, d: nat, k: nat)
    decreases k
  {
    IsFolder(nodes, d) && if k == 0 then d == INODE_ROOTDIR else d != INODE_ROOTDIR && Leads(nodes, nodes[d].parent, k - 1)
  }

  /** Every directory lies below the root directory. */
  ghost predicate Tree(nodes: Nodes) {
    && IsFolder(nodes, INODE_ROOTDIR) && nodes[INODE_ROOTDIR].parent == INODE_INVALID
    && (forall i | i in nodes :: InodeIsValid(i))
    && (forall d | IsFolder(nodes, d) :: exists k: nat :: Leads(nodes, d, k))
  }

  /** A directory, its parent, and so on up to the root. */
  ghost function Chain(nodes: Nodes, d: nat, k: nat): (chain: seq<nat>)
    requires Leads(nodes, d, k)
    ensures |chain| == k + 1 && chain[0] == d
    ensures forall i | 0 <= i < |chain| :: chain[i] in nodes
    decreases k
  {
    if k == 0 then [d] else [d] + Chain(nodes, nodes[d].parent, k - 1)
  }

  lemma {:induction false} LeadsOnce(nodes: Nodes, d: nat, k: nat, l: nat)
    requires Leads(nodes, d, k) && Leads(nodes, d, l)
    ensures k == l
    decreases k
  {
    if k > 0 && l > 0 {
      LeadsOnce(nodes, nodes[d].parent, k - 1, l - 1);
    }
  }

  lemma {:induction false} ChainAt(nodes: Nodes, d: nat, k: nat, i: nat)
    requires Leads(nodes, d, k) && i <= k
    ensures Leads(nodes, Chain(nodes, d, k)[i], k - i)
    ensures Chain(nodes, d, k)[i] == INODE_ROOTDIR <==> i == k
    ensures i < k ==> Chain(nodes, d, k)[i + 1] == nodes[Chain(nodes, d, k)[i]].parent
    decreases k
  {
    if i > 0 {
      ChainAt(nodes, nodes[d].parent, k - 1, i - 1);
    }
  }

  /** A chain is no longer than the volume has inodes. */
  lemma ChainIsShort(nodes: Nodes, d: nat, k: nat)
    requires Leads(nodes, d, k) && forall i | i in nodes :: InodeIsValid(i)
    ensures k < INODE_COUNT
  {
    var chain := Chain(nodes, d, k);
    forall i, j | 0 <= i < j < |chain|
      ensures chain[i] != chain[j]
    {
      ChainAt(nodes, d, k, i);
      ChainAt(nodes, d, k, j);
      if chain[i] == chain[j] {
        LeadsOnce(nodes, chain[i], k - i, k - j);
      }
    }
    DistinctWithin(chain, Below(INODE_FIRST_VALID + INODE_COUNT) - {0, 1});
  }

  /** Inode `s` under another parent. */
  function Reparented(nodes: Nodes, s: nat, parent: nat): Nodes
    requires s in nodes
  {
    nodes[s := nodes[s].(parent := parent)]
  }

  /** With `s` moved under `t`, which is not below it, `d` still leads up. */
  lemma {:induction false} LeadsAfter(nodes: Nodes, s: nat, t: nat, l: nat, d: nat, k: nat) returns (m: nat)
    requires IsFolder(nodes, s) && s != INODE_ROOTDIR
    requires Leads(nodes, t, l) && s !in Chain(nodes, t, l) && Leads(nodes, d, k)
    ensures Leads(Reparented(nodes, s, t), d, m)
    decreases k
  {
    if d == s {
      LeadsBeside(nodes, s, t, t, l);
      m := l + 1;
    } else if k == 0 {
      m := 0;
    } else {
      m := LeadsAfter(nodes, s, t, l, nodes[d].parent, k - 1);
      m := m + 1;
    }
  }

  lemma {:induction false} LeadsBeside(nodes: Nodes, s: nat, t: nat, d: nat, k: nat)
    requires IsFolder(nodes, s) && Leads(nodes, d, k) && s !in Chain(nodes, d, k)
    ensures Leads(Reparented(nodes, s, t), d, k)
    decreases k
  {
    assert Chain(nodes, d, k)[0] == d;
    if k > 0 {
      assert s !in Chain(nodes, nodes[d].parent, k - 1);
      LeadsBeside(nodes, s, t, nodes[d].parent, k - 1);
    }
  }

  /** With `s` moved under `d`, which is below it, `s` no longer leads up. */
  lemma {:induction false} LeadsRound(nodes: Nodes, s: nat, t: nat, d: nat, k: nat, m: nat)
    requires IsFolder(nodes, s) && s != INODE_ROOTDIR && Leads(nodes, d, k) && s in Chain(nodes, d, k)
    requires Leads(Reparented(nodes, s, t), d, m)
    ensures exists l :: 0 <= l <= m && Leads(Reparented(nodes, s, t), s, l)
    decreases k
  {
    if d != s {
      LeadsRound(nodes, s, t, nodes[d].parent, k - 1, m - 1);
    }
  }

  lemma MoveAside(nodes: Nodes, s: nat, t: nat, k: nat)
    requires Tree(nodes) && IsFolder(nodes, s) && s != INODE_ROOTDIR && Leads(nodes, t, k)
    requires s !in Chain(nodes, t, k)
    ensures Tree(Reparented(nodes, s, t))
  {
    hide Leads, Chain;
    forall d | IsFolder(Reparented(nodes, s, t), d)
      ensures exists m: nat :: Leads(Reparented(nodes, s, t), d, m)
    {
      assert IsFolder(nodes, d);
      var l: nat :| Leads(nodes, d, l);
      var m := LeadsAfter(nodes, s, t, k, d, l);
    }
  }

  lemma MoveRound(nodes: Nodes, s: nat, t: nat, k: nat)
    requires Tree(nodes) && IsFolder(nodes, s) && s != INODE_ROOTDIR && Leads(nodes, t, k)
    requires s in Chain(nodes, t, k)
    ensures !Tree(Reparented(nodes, s, t))
  {
    hide Chain;
    var after := Reparented(nodes, s, t);
    if Tree(after) {
      assert IsFolder(after, s);
      var m: nat :| Leads(after, s, m);
      LeadsRound(nodes, s, t, t, k, m - 1);
      var l :| 0 <= l <= m - 1 && Leads(after, s, l);
      LeadsOnce(after, s, m, l);
    }
  }

  /** Moving directory `s` under directory `t` leaves a tree exactly if `s` is
      neither `t` nor above it. */
  lemma MoveKeepsTree(nodes: Nodes, s: nat, t: nat, k: nat)
    requires Tree(nodes) && IsFolder(nodes, s) && s != INODE_ROOTDIR && Leads(nodes, t, k)
    ensures Tree(Reparented(nodes, s, t)) <==> s !in Chain(nodes, t, k)
  {
    hide Tree, Leads, Chain;
    if s !in Chain(nodes, t, k) {
      MoveAside(nodes, s, t, k);
    } else {
      MoveRound(nodes, s, t, k);
    }
  }

  /** Moving a file does not touch the tree. */
  lemma MovedFileKeepsTree(nodes: Nodes, s: nat, t: nat)
    requires Tree(nodes) && s in nodes && !IsFolder(nodes, s)
    ensures Tree(Reparented(nodes, s, t))
  {
    var after := Reparented(nodes, s, t);
    forall d | IsFolder(after, d)
      ensures exists m: nat :: Leads(after, d, m)
    {
      assert IsFolder(nodes, d);
      var l: nat :| Leads(nodes, d, l);
      StillLeads(nodes, s, t, d, l);
    }
  }

  lemma {:induction false} StillLeads(nodes: Nodes, s: nat, t: nat, d: nat, k: nat)
    requires s in nodes && !IsFolder(nodes, s) && Leads(nodes, d, k)
    ensures Leads(Reparented(nodes, s, t), d, k)
    decreases k
  {
    if k > 0 {
      StillLeads(nodes, s, t, nodes[d].parent, k - 1);
    }
  }
}
