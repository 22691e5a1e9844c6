/** Renaming: RedDirEntryRename() and DirCyclicRenameCheck() of
    core/driver/dir.c, with atomic rename. */
module DirRename {
  import opened Errors
  import opened Constants
  import opened Components
  import opened DirLayout
  import opened DirEntries
  import opened Directories
  import opened DirTree

  class Volume {
    var nodes: Nodes
    /** RedPermCheckUnlink() for a directory and an inode in it. */
    const mayUnlink: (nat, nat) -> bool
    /** Whether no inode ever fails to be read. */
    const sound: bool

    /** A volume with nothing but its root directory. */
    constructor (mayUnlink: (nat, nat) -> bool, sound: bool)
      ensures Tree(nodes) && this.mayUnlink == mayUnlink && this.sound == sound
    {
      this.mayUnlink, this.sound := mayUnlink, sound;
      nodes := map[INODE_ROOTDIR := InodeNode(Folder, INODE_INVALID, 0)];
      new;
      assert Leads(nodes, INODE_ROOTDIR, 0);
    }

    /** RedInodeMount(), which may also fail to read the inode. */
    method Mount(inode: nat, kinds: set<Kind>) returns (status: Status)
      ensures status == MountRefusal(nodes, inode, kinds) || (status == Failure(EIO) && !sound)
    {
      var good: bool := *;
      status := if good || sound then MountRefusal(nodes, inode, kinds) else Failure(EIO);
    }

    /** The directory is mounted from this volume. */
    ghost predicate Holds(dir: Directory)
      reads this
    {
      IsFolder(nodes, dir.inode) && dir.isDirectory
    }

    /** DirCyclicRenameCheck(): refuses exactly the moves of a directory into
        itself or below itself, and its iteration limit is never reached. */
    method DirCyclicRenameCheck(src: nat, dst: Directory, ghost k: nat) returns (status: Status)
      requires Holds(dst) && Tree(nodes) && Leads(nodes, dst.inode, k)
      ensures !InodeIsValid(src) || !dst.mounted ==> status == Failure(EINVAL)
      ensures InodeIsValid(src) && dst.mounted ==>
                && (src in Chain(nodes, dst.inode, k) ==> status == Failure(EINVAL) || (status == Failure(EIO) && !sound))
                && (src !in Chain(nodes, dst.inode, k) ==> status == Success || (status == Failure(EIO) && !sound))
    {
      if !InodeIsValid(src) || !dst.mounted {
        return Failure(EINVAL);
      } else if src == dst.inode {
        return Failure(EINVAL);
      }
      status := Climb(src, dst, k);
    }

    /** The loop of DirCyclicRenameCheck(). */
    method Climb(src: nat, dst: Directory, ghost k: nat) returns (status: Status)
      requires Holds(dst) && Tree(nodes) && Leads(nodes, dst.inode, k) && InodeIsValid(src) && src != dst.inode
      ensures src in Chain(nodes, dst.inode, k) ==> status == Failure(EINVAL) || (status == Failure(EIO) && !sound)
      ensures src !in Chain(nodes, dst.inode, k) ==> status == Success || (status == Failure(EIO) && !sound)
    {
      ghost var chain := Chain(nodes, dst.inode, k);
      ChainIsShort(nodes, dst.inode, k);
      ChainAt(nodes, dst.inode, k, 0);
      var next := nodes[dst.inode].parent;
      var iteration := 0;
      while next != src && next != INODE_ROOTDIR && next != INODE_INVALID && iteration < INODE_COUNT
        invariant iteration <= k
        invariant next == if iteration < k then chain[iteration + 1] else INODE_INVALID
        invariant iteration == k ==> k == 0
        invariant src !in chain[..iteration + 1]
        decreases INODE_COUNT - iteration
      {
        ChainAt(nodes, dst.inode, k, iteration + 1);
        status := Mount(next, {Folder});
        if status.Failure? {
          return;
        }
        next := nodes[next].parent;
        iteration := iteration + 1;
      }
      if iteration == INODE_COUNT {
        assert false;
      }
      if iteration < k {
        ChainAt(nodes, dst.inode, k, iteration + 1);
        assert chain[iteration + 1] in nodes;
        if next == INODE_ROOTDIR {
          assert chain == chain[..iteration + 1] + [next];
        }
      } else {
        assert chain == chain[..iteration + 1];
      }
      status := if src == next then Failure(EINVAL) else Success;
    }

    /** The state that RedDirEntryRename() works on. */
    ghost predicate Ready(src: Directory, dst: Directory, k: nat)
      reads this, src, dst
    {
      && src.Valid() && dst.Valid() && Holds(src) && Holds(dst)
      && Tree(nodes) && Leads(nodes, dst.inode, k)
      && (src != dst ==> src.inode != dst.inode)
    }

    /** The first part of RedDirEntryRename(): look both names up. */
    method LookupBoth(src: Directory, srcName: seq<char>, dst: Directory, dstName: seq<char>)
      returns (status: Status, srcIndex: nat, srcInode: nat, dstIndex: nat, dstInode: nat)
      requires src.Valid() && dst.Valid()
      ensures status.Success? ==>
                && src.IsDirty() && src.isDirectory && dst.IsDirty() && dst.isDirectory
                && Binds(src.List(), srcIndex, NameOf(srcName)) && srcInode == src.List()[srcIndex].inode
                && NameOf(srcName) in src.Map() && src.Map()[NameOf(srcName)] == srcInode
                && !IsDots(NameOf(dstName)) && 1 <= NameEnd(dstName, 0) <= NAME_MAX
                && if NameOf(dstName) in dst.Map() then
                     && Binds(dst.List(), dstIndex, NameOf(dstName)) && dstInode == dst.List()[dstIndex].inode
                     && dst.Map()[NameOf(dstName)] == dstInode != INODE_INVALID
                   else
                     dstInode == INODE_INVALID && dstIndex == FreeIndex(dst.List()) != DIR_INDEX_INVALID
      ensures status == LookupsRefuse(src, srcName, dst, dstName) || (status == Failure(EIO) && !(src.sound && dst.sound))
    {
      srcIndex, srcInode, dstIndex, dstInode := 0, INODE_INVALID, 0, INODE_INVALID;
      if !src.IsDirty() || !dst.IsDirty() {
        status := Failure(EINVAL);
      } else if !src.isDirectory || !dst.isDirectory {
        status := Failure(ENOTDIR);
      } else if IsDots(NameOf(dstName)) {
        status := Failure(EINVAL);
      } else {
        status, srcIndex, srcInode := src.RedDirEntryLookup(srcName);
        if status.Success? {
          status, dstIndex, dstInode := dst.RedDirEntryLookup(dstName);
          if status == Failure(ENOENT) {
            if dstIndex == DIR_INDEX_INVALID {
              status := Failure(ENOSPC);
            } else {
              dstInode := INODE_INVALID;
              status := Success;
            }
          }
        }
      }
    }

    /** The second part: mount both inodes, check permissions, and refuse to
        replace a directory that is not empty and to make a cycle. */
    method MayRename(src: Directory, srcInode: nat, dst: Directory, dstInode: nat, ghost k: nat) returns (status: Status)
      requires Ready(src, dst, k) && dst.mounted
      ensures status == InodesRefuse(src, srcInode, dst, dstInode, k) || (status == Failure(EIO) && !sound)
      ensures status.Success? ==> InodeIsValid(srcInode) && srcInode in nodes && Tree(Reparented(nodes, srcInode, dst.inode))
    {
      status := Mount(srcInode, {Folder, RegularFile, SymbolicLink});
      if status.Failure? {
        return;
      } else if !mayUnlink(src.inode, srcInode) {
        return Failure(EACCES);
      }
      status := MayReplace(srcInode, dst, dstInode);
      if status.Failure? {
        return;
      }
      if nodes[srcInode].kind.Folder? {
        status := DirCyclicRenameCheck(srcInode, dst, k);
        ChainAt(nodes, dst.inode, k, k);
        if status.Success? {
          MoveKeepsTree(nodes, srcInode, dst.inode, k);
        }
      } else {
        MovedFileKeepsTree(nodes, srcInode, dst.inode);
      }
    }

    /** The part about the destination's inode, if the name is bound to one. */
    method MayReplace(srcInode: nat, dst: Directory, dstInode: nat) returns (status: Status)
      requires srcInode in nodes
      ensures status == ReplaceRefuses(srcInode, dst, dstInode) || (status == Failure(EIO) && !sound)
    {
      if dstInode == INODE_INVALID {
        return if dst.writable then Success else Failure(EACCES);
      }
      status := Mount(dstInode, KindsFor(nodes[srcInode].kind));
      if status.Success? {
        if !mayUnlink(dst.inode, dstInode) {
          status := Failure(EACCES);
        } else if nodes[dstInode].kind.Folder? && nodes[dstInode].size > 0 {
          status := Failure(ENOTEMPTY);
        }
      }
    }

    /** What RedDirEntryRename() refuses before it looks at any inode. */
    ghost function LookupsRefuse(src: Directory, srcName: seq<char>, dst: Directory, dstName: seq<char>): Status
      reads src, dst
    {
      if !src.IsDirty() || !dst.IsDirty() then Failure(EINVAL)
      else if !src.isDirectory || !dst.isDirectory then Failure(ENOTDIR)
      else if IsDots(NameOf(dstName)) then Failure(EINVAL)
      else if src.LookupRefusal(srcName).Failure? then src.LookupRefusal(srcName)
      else if NameOf(srcName) !in src.Map() then Failure(ENOENT)
      else if dst.LookupRefusal(dstName).Failure? then dst.LookupRefusal(dstName)
      else if NameOf(dstName) !in dst.Map() && FreeIndex(dst.List()) == DIR_INDEX_INVALID then Failure(ENOSPC)
      else Success
    }

    /** What it refuses about the destination's inode: another type, no
        permission, or a directory that is not empty. */
    function ReplaceRefuses(srcInode: nat, dst: Directory, dstInode: nat): Status
      reads this
      requires srcInode in nodes
    {
      if dstInode == INODE_INVALID then
        if dst.writable then Success else Failure(EACCES)
      else if MountRefusal(nodes, dstInode, KindsFor(nodes[srcInode].kind)).Failure? then
        MountRefusal(nodes, dstInode, KindsFor(nodes[srcInode].kind))
      else if !mayUnlink(dst.inode, dstInode) then
        Failure(EACCES)
      else if nodes[dstInode].kind.Folder? && nodes[dstInode].size > 0 then
        Failure(ENOTEMPTY)
      else
        Success
    }

    /** What it refuses about either inode; a cycle last. */
    ghost function InodesRefuse(src: Directory, srcInode: nat, dst: Directory, dstInode: nat, k: nat): Status
      reads this
      requires Leads(nodes, dst.inode, k)
    {
      if !InodeIsValid(srcInode) || srcInode !in nodes then Failure(EBADF)
      else if !mayUnlink(src.inode, srcInode) then Failure(EACCES)
      else if ReplaceRefuses(srcInode, dst, dstInode).Failure? then ReplaceRefuses(srcInode, dst, dstInode)
      else if nodes[srcInode].kind.Folder? && srcInode in Chain(nodes, dst.inode, k) then Failure(EINVAL)
      else Success
    }

    /** What RedDirEntryRename() refuses, in its order; nothing if both names are
        bound to the same inode. */
    ghost function Refusal(src: Directory, srcName: seq<char>, dst: Directory, dstName: seq<char>, k: nat): Status
      reads this, src, dst
      requires Leads(nodes, dst.inode, k)
    {
      if LookupsRefuse(src, srcName, dst, dstName).Failure? then
        LookupsRefuse(src, srcName, dst, dstName)
      else
        var a := src.Map()[NameOf(srcName)];
        var b := if NameOf(dstName) in dst.Map() then dst.Map()[NameOf(dstName)] else INODE_INVALID;
        if a == b then Success else InodesRefuse(src, a, dst, b, k)
    }

    /** The disks are sound, the directories may be searched, the source is bound,
        and the destination is bound or a name that may be. */
    ghost predicate Looked(src: Directory, srcName: seq<char>, dst: Directory, dstName: seq<char>)
      reads this, src, dst
    {
      && sound && src.sound && dst.sound && src.IsDirty() && dst.IsDirty() && src.searchable && dst.searchable
      && NameOf(srcName) in src.Map() && (NameOf(dstName) in dst.Map() || ProperName(NameOf(dstName)))
    }

    /** The answer then, by the inodes bound, the permissions, the room for a new
        entry, and whether the move makes a cycle. */
    ghost predicate Answered(src: Directory, srcName: seq<char>, dst: Directory, dstName: seq<char>, k: nat, status: Status)
      reads this, src, dst
      requires Leads(nodes, dst.inode, k) && NameOf(srcName) in src.Map()
    {
      var a := src.Map()[NameOf(srcName)];
      var cycle := IsFolder(nodes, a) && a in Chain(nodes, dst.inode, k);
      if NameOf(dstName) in dst.Map() then
        var b := dst.Map()[NameOf(dstName)];
        if a == b then status.Success?
        else BoundAnswer(nodes, a, b, mayUnlink(src.inode, a), mayUnlink(dst.inode, b), cycle, status)
      else
        UnboundAnswer(nodes, a, mayUnlink(src.inode, a), HasRoom(dst.List()), dst.writable, cycle, status)
    }

    lemma LookedAnswers(src: Directory, srcName: seq<char>, dst: Directory, dstName: seq<char>, k: nat)
      requires Ready(src, dst, k)
      ensures Looked(src, srcName, dst, dstName) ==>
                && sound && src.sound && dst.sound
                && Answered(src, srcName, dst, dstName, k, Refusal(src, srcName, dst, dstName, k))
    {
      if Looked(src, srcName, dst, dstName) {
        BoundName(src, srcName);
        if NameOf(dstName) in dst.Map() {
          KindsDecide(src, srcName, dst, dstName, k);
        } else {
          RoomDecides(src, srcName, dst, dstName, k);
        }
      }
    }

    lemma UnboundSource(src: Directory, srcName: seq<char>, dst: Directory, dstName: seq<char>, k: nat)
      requires Ready(src, dst, k)
      ensures src.IsDirty() && dst.IsDirty() && src.searchable && ProperName(NameOf(srcName)) && !IsDots(NameOf(dstName)) ==>
                (Refusal(src, srcName, dst, dstName, k) == Failure(ENOENT) <==> NameOf(srcName) !in src.Map())
    {
    }

    lemma KindsDecide(src: Directory, srcName: seq<char>, dst: Directory, dstName: seq<char>, k: nat)
      requires Ready(src, dst, k) && Looked(src, srcName, dst, dstName) && NameOf(dstName) in dst.Map()
      ensures Answered(src, srcName, dst, dstName, k, Refusal(src, srcName, dst, dstName, k))
    {
      BoundName(src, srcName);
      BoundName(dst, dstName);
      BoundLive(dst, dstName);
      hide Bindings, OffsetToIndex, Text, NameEnd, Chain;
    }

    lemma RoomDecides(src: Directory, srcName: seq<char>, dst: Directory, dstName: seq<char>, k: nat)
      requires Ready(src, dst, k) && Looked(src, srcName, dst, dstName) && NameOf(dstName) !in dst.Map()
      ensures Answered(src, srcName, dst, dstName, k, Refusal(src, srcName, dst, dstName, k))
    {
      BoundName(src, srcName);
      BoundLive(src, srcName);
      RoomIs(dst.List());
      hide Bindings, OffsetToIndex, Text, NameEnd, Chain, FreeIndex;
    }

    /** Bind the destination name to the source's inode. */
    method Bind(dst: Directory, index: nat, name: seq<char>, inode: nat) returns (status: Status)
      requires dst.Valid() && dst.IsDirty() && dst.isDirectory && InodeIsValid(inode)
      requires !IsDots(NameOf(name)) && 1 <= NameEnd(name, 0) <= NAME_MAX
      requires Places(dst.List(), index, NameOf(name))
      modifies dst`data, dst`size, dst`present
      ensures dst.Valid()
      ensures status.Failure? ==> dst.List() == old(dst.List())
      ensures status.Failure? ==> !dst.sound && (status == Failure(EIO) || status == Failure(ENOSPC))
      ensures status.Success? ==>
                && dst.List() == Written(old(dst.List()), index, Dirent(inode, Padded(NameOf(name))))
                && dst.Map() == old(dst.Map())[NameOf(name) := inode]
                && Binds(dst.List(), index, NameOf(name))
    {
      hide Bindings, Written, UniqueNames, Entries, OffsetToIndex, SizeOf, Dense, IndexToOffset, Text, FirstFree, NameEnd;
      ghost var es := dst.List();
      status := dst.DirEntryWrite(index, inode, name, NameEnd(name, 0));
      if status.Success? {
        PaddedText(NameOf(name));
        BoundIs(es, index, name, inode, dst.List());
      }
    }

    /** Take the new binding back.  A deletion that fails may have done so. */
    method Unbind(dst: Directory, index: nat, name: seq<char>, dstInode: nat) returns (status: Status)
      requires dst.Valid() && dst.IsDirty() && dst.isDirectory && Binds(dst.List(), index, NameOf(name))
      requires !IsDots(NameOf(name)) && 1 <= NameEnd(name, 0) <= NAME_MAX
      requires dstInode == INODE_INVALID || InodeIsValid(dstInode)
      modifies dst`data, dst`size, dst`present
      ensures status != Failure(EIO) ==> dst.Valid()
      ensures status.Failure? ==>
                && !dst.sound && (status == Failure(EIO) || status == Failure(ENOSPC))
                && (dst.Map() == old(dst.Map()) || (dstInode == INODE_INVALID && dst.Map() == old(dst.Map()) - {NameOf(name)}))
      ensures status.Success? ==>
                dst.Map() == if dstInode == INODE_INVALID then old(dst.Map()) - {NameOf(name)} else old(dst.Map())[NameOf(name) := dstInode]
    {
      BindingsAt(dst.List(), index);
      if dstInode != INODE_INVALID {
        status := Bind(dst, index, name, dstInode);
      } else {
        status := dst.RedDirEntryDelete(index, true);
      }
    }

    /** The last part: write the destination entry, delete the source entry, and
        if there is no space for that take the destination entry back. */
    method Move(src: Directory, srcIndex: nat, srcName: seq<char>, dst: Directory, dstIndex: nat, dstName: seq<char>, srcInode: nat, dstInode: nat)
      returns (status: Status, critical: bool)
      requires src.Valid() && src.IsDirty() && src.isDirectory && dst.Valid() && dst.IsDirty() && dst.isDirectory
      requires Binds(src.List(), srcIndex, NameOf(srcName)) && srcInode == src.List()[srcIndex].inode != dstInode
      requires !IsDots(NameOf(dstName)) && 1 <= NameEnd(dstName, 0) <= NAME_MAX
      requires Places(dst.List(), dstIndex, NameOf(dstName))
      requires InodeIsValid(srcInode) && (dstInode == INODE_INVALID || InodeIsValid(dstInode))
      requires if NameOf(dstName) in dst.Map() then dst.Map()[NameOf(dstName)] == dstInode != INODE_INVALID else dstInode == INODE_INVALID
      modifies src`data, src`size, src`present, dst`data, dst`size, dst`present
      ensures status != Failure(EIO) ==> src.Valid() && dst.Valid()
      ensures status.Success? ==> !critical && Moved(src == dst, old(src.Map()), NameOf(srcName), old(dst.Map()), NameOf(dstName), srcInode, src.Map(), dst.Map())
      ensures status == Failure(ENOSPC) && !critical ==> src.Map() == old(src.Map()) && dst.Map() == old(dst.Map())
      ensures status.Failure? ==>
                || (src.Map() == old(src.Map()) && dst.Map() == old(dst.Map()))
                || (dst.Map() == old(dst.Map())[NameOf(dstName) := srcInode] && (src != dst ==> src.Map() == old(src.Map())))
                || (status == Failure(EIO) && !critical &&
                    Moved(src == dst, old(src.Map()), NameOf(srcName), old(dst.Map()), NameOf(dstName), srcInode, src.Map(), dst.Map()))
      ensures status.Failure? ==> !(src.sound && dst.sound) && (status == Failure(EIO) || status == Failure(ENOSPC))
    {
      hide Bindings, Written, UniqueNames, Entries, OffsetToIndex, SizeOf, Dense, IndexToOffset, Trimmed, Padded, Text, NameEnd, FirstFree;
      critical := false;
      ghost var es, ds := src.List(), dst.List();
      status := Bind(dst, dstIndex, dstName, srcInode);
      if status.Success? {
        if src == dst {
          StillBinds(es, srcIndex, NameOf(srcName), dstIndex, Dirent(srcInode, Padded(NameOf(dstName))), NameOf(dstName));
        }
        Located(srcIndex, |src.List()|);
        status := src.RedDirEntryDelete(srcIndex, true);
        if status == Failure(ENOSPC) {
          var undone := Unbind(dst, dstIndex, dstName, dstInode);
          if undone.Failure? {
            status, critical := undone, true;
          }
        }
      }
    }

    /** RedDirEntryRename(): `critical` is whether it raises CRITICAL_ERROR. */
    method RedDirEntryRename(src: Directory, srcName: seq<char>, dst: Directory, dstName: seq<char>, ghost k: nat)
      returns (status: Status, critical: bool)
      requires Ready(src, dst, k)
      modifies this`nodes, src`data, src`size, src`present, dst`data, dst`size, dst`present
      ensures status != Failure(EIO) ==> src.Valid() && dst.Valid()
      ensures Holds(src) && Holds(dst) && Tree(nodes)
      ensures status.Success? ==>
                && !critical && NameOf(srcName) in old(src.Map())
                && var a := old(src.Map())[NameOf(srcName)];
                   if NameOf(dstName) in old(dst.Map()) && old(dst.Map())[NameOf(dstName)] == a then
                     src.List() == old(src.List()) && dst.List() == old(dst.List()) && nodes == old(nodes)
                   else
                     && a in old(nodes) && nodes == Reparented(old(nodes), a, dst.inode)
                     && (IsFolder(old(nodes), a) ==> a !in Chain(old(nodes), dst.inode, k))
                     && (NameOf(dstName) in old(dst.Map()) ==> Replaceable(old(nodes), a, old(dst.Map())[NameOf(dstName)]))
                     && Moved(src == dst, old(src.Map()), NameOf(srcName), old(dst.Map()), NameOf(dstName), a, src.Map(), dst.Map())
      ensures old(Refusal(src, srcName, dst, dstName, k)).Failure? ==>
                && (status == old(Refusal(src, srcName, dst, dstName, k)) || status == Failure(EIO))
                && !critical && src.Valid() && dst.Valid() && src.List() == old(src.List()) && dst.List() == old(dst.List())
      ensures sound && src.sound && dst.sound ==> status == old(Refusal(src, srcName, dst, dstName, k)) && !critical
      ensures old(Looked(src, srcName, dst, dstName)) ==> old(Answered(src, srcName, dst, dstName, k, status))
      ensures sound && src.sound && dst.sound && src.IsDirty() && dst.IsDirty() && src.searchable && ProperName(NameOf(srcName)) && !IsDots(NameOf(dstName)) ==>
                (status == Failure(ENOENT) <==> NameOf(srcName) !in old(src.Map()))
      ensures old(Refusal(src, srcName, dst, dstName, k)).Success? ==>
                status.Success? || status == Failure(EIO) || status == Failure(ENOSPC)
      ensures status.Failure? ==> nodes == old(nodes)
      ensures status.Failure? && status != Failure(EIO) && !critical ==> src.Map() == old(src.Map()) && dst.Map() == old(dst.Map())
      ensures status.Failure? ==>
                || (src.Map() == old(src.Map()) && dst.Map() == old(dst.Map()))
                || (NameOf(srcName) in old(src.Map()) &&
                    var a := old(src.Map())[NameOf(srcName)];
                    || (dst.Map() == old(dst.Map())[NameOf(dstName) := a] && (src != dst ==> src.Map() == old(src.Map())))
                    || (status == Failure(EIO) && !critical &&
                        Moved(src == dst, old(src.Map()), NameOf(srcName), old(dst.Map()), NameOf(dstName), a, src.Map(), dst.Map())))
    {
      hide Bindings, Written, UniqueNames, Entries, OffsetToIndex, SizeOf, Dense, Text, NameEnd, Packed, FirstFree, Padded, Looked, Answered;
      LookedAnswers(src, srcName, dst, dstName, k);
      UnboundSource(src, srcName, dst, dstName, k);
      critical := false;
      var srcIndex, srcInode, dstIndex, dstInode;
      status, srcIndex, srcInode, dstIndex, dstInode := LookupBoth(src, srcName, dst, dstName);
      if status.Success? && srcInode != dstInode {
        status := MayRename(src, srcInode, dst, dstInode, k);
        if status.Success? {
          status, critical := Move(src, srcIndex, srcName, dst, dstIndex, dstName, srcInode, dstInode);
        }
        if status.Success? {
          nodes := nodes[srcInode := nodes[srcInode].(parent := dst.inode)];
        }
      }
    }
  }

  /** The binding of one name has become that of the other, in one directory or
      between two. */
  ghost predicate Moved(one: bool, srcWas: map<Name, nat>, srcName: Name, dstWas: map<Name, nat>, dstName: Name, inode: nat,
                        src: map<Name, nat>, dst: map<Name, nat>)
  {
    if one then
      src == srcWas[dstName := inode] - {srcName}
    else
      src == srcWas - {srcName} && dst == dstWas[dstName := inode]
  }

  ghost predicate Existing(nodes: Nodes, inode: nat) {
    InodeIsValid(inode) && inode in nodes
  }

  /** The answer to inode `a` taking the name of inode `b`, as either may be taken
      from its directory or not. */
  ghost predicate BoundAnswer(nodes: Nodes, a: nat, b: nat, takeA: bool, takeB: bool, cycle: bool, status: Status) {
    var both := Existing(nodes, a) && takeA && Existing(nodes, b);
    && (status.Success? <==> both && takeB && Replaceable(nodes, a, b) && !cycle)
    && (status == Failure(EINVAL) <==> both && takeB && Replaceable(nodes, a, b) && cycle)
    && (status == Failure(EBADF) <==> !Existing(nodes, a) || (takeA && !Existing(nodes, b)))
    && (status == Failure(EISDIR) <==> both && !IsFolder(nodes, a) && IsFolder(nodes, b))
    && (status == Failure(ENOTDIR) <==> both && IsFolder(nodes, a) && nodes[b].kind.RegularFile?)
    && (status == Failure(ENOLINK) <==> both && IsFolder(nodes, a) && nodes[b].kind.SymbolicLink?)
    && (status == Failure(ENOTEMPTY) <==> both && takeB && IsFolder(nodes, a) && IsFolder(nodes, b) && nodes[b].size > 0)
    && (status == Failure(EACCES) <==>
          Existing(nodes, a) &&
          (!takeA || (Existing(nodes, b) && !takeB && (IsFolder(nodes, a) <==> IsFolder(nodes, b)))))
  }

  /** The answer to inode `a` taking a name that is not bound. */
  ghost predicate UnboundAnswer(nodes: Nodes, a: nat, takeA: bool, room: bool, writable: bool, cycle: bool, status: Status) {
    var may := room && Existing(nodes, a) && takeA && writable;
    && (status.Success? <==> may && !cycle)
    && (status == Failure(EINVAL) <==> may && cycle)
    && (status == Failure(ENOSPC) <==> !room)
    && (status == Failure(EBADF) <==> room && !Existing(nodes, a))
    && (status == Failure(EACCES) <==> room && Existing(nodes, a) && !(takeA && writable))
  }

  lemma BoundLive(dir: Directory, name: seq<char>)
    requires dir.Valid() && NameOf(name) in dir.Map()
    ensures dir.Map()[NameOf(name)] != INODE_INVALID
  {
    var i := BindingsFrom(dir.List(), NameOf(name));
    BindingsAt(dir.List(), i);
  }

  /** What RedInodeMount() refuses: an inode that does not exist, or is of none of
      these kinds. */
  function MountRefusal(nodes: Nodes, inode: nat, kinds: set<Kind>): Status {
    if !InodeIsValid(inode) || inode !in nodes then
      Failure(EBADF)
    else if nodes[inode].kind in kinds then
      Success
    else
      match nodes[inode].kind
      case Folder => Failure(EISDIR)
      case SymbolicLink => Failure(ENOLINK)
      case RegularFile => Failure(ENOTDIR)
  }

  /** What may give way to an inode of a kind. */
  function KindsFor(kind: Kind): set<Kind> {
    if kind.Folder? then {Folder} else {RegularFile, SymbolicLink}
  }

  /** Inode `b` may give way to `a`: both or neither is a directory, and a
      directory that gives way is empty. */
  predicate Replaceable(nodes: Nodes, a: nat, b: nat) {
    && a in nodes && b in nodes
    && (nodes[a].kind.Folder? <==> nodes[b].kind.Folder?)
    && (nodes[b].kind.Folder? ==> nodes[b].size == 0)
  }

  /** Entry `index` is that of the name, or the one to create for it. */
  ghost predicate Places(es: seq<Dirent>, index: nat, name: Name) {
    && index <= |es|
    && if name in Bindings(es) then Binds(es, index, name) else index == FreeIndex(es) != DIR_INDEX_INVALID
  }

  /** Writing the entry placed for a name binds it. */
  lemma BoundIs(es: seq<Dirent>, index: nat, name: seq<char>, inode: nat, now: seq<Dirent>)
    requires Packed(es) && Places(es, index, NameOf(name)) && inode != INODE_INVALID
    requires 1 <= NameEnd(name, 0) <= NAME_MAX && !IsDots(NameOf(name))
    requires now == Written(es, index, Dirent(inode, Padded(NameOf(name))))
    ensures Packed(now) && Bindings(now) == Bindings(es)[NameOf(name) := inode] && Binds(now, index, NameOf(name))
  {
    PaddedText(NameOf(name));
    if NameOf(name) in Bindings(es) {
      WrittenReplaces(es, index, Dirent(inode, Padded(NameOf(name))));
    } else {
      CreatedIs(es, index, name, inode, now);
    }
  }

  /** Within one directory, binding the destination leaves the source entry. */
  lemma StillBinds(es: seq<Dirent>, i: nat, name: Name, j: nat, e: Dirent, target: Name)
    requires Packed(es) && Binds(es, i, name) && Places(es, j, target)
    requires target in Bindings(es) ==> Bindings(es)[target] != es[i].inode
    ensures Binds(Written(es, j, e), i, name) && Written(es, j, e)[i] == es[i]
  {
    if Binds(es, j, target) {
      BindingsAt(es, j);
    }
  }
}
