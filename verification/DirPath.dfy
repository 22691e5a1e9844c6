/** Rebuilding the path of a directory from its inode: DirInodeToPath() of
    posix/posix.c, which builds the string backwards in the caller's buffer. */
module DirPath {
  import opened Errors
  import opened Constants
  import opened Components
  import opened FileSystem
  import opened Memory

  ghost predicate IsDirectory(fs: FileSystem, i: Inode) {
    i in fs.nodes && fs.nodes[i].Directory?
  }

  ghost function ParentOf(fs: FileSystem, i: Inode): Inode
    requires IsDirectory(fs, i)
  {
    fs.nodes[i].parent
  }

  /** Parent links lead upwards: all that climbing them needs to end. */
  ghost predicate Climbable(fs: FileSystem, depth: map<Inode, nat>) {
    forall i {:trigger Climbs(fs, depth, i)} | i in fs.nodes && fs.nodes[i].Directory? && i != INODE_ROOTDIR :: Climbs(fs, depth, i)
  }

  ghost predicate Climbs(fs: FileSystem, depth: map<Inode, nat>, i: LiveInode)
    requires IsDirectory(fs, i)
  {
    && i in depth
    && (ParentOf(fs, i) in depth ==> depth[ParentOf(fs, i)] < depth[i])
  }

  ghost function Height(depth: map<Inode, nat>, i: Inode): nat {
    if i == INODE_ROOTDIR then 0 else if i in depth then depth[i] + 2 else 1
  }

  lemma ClimbsFrom(fs: FileSystem, depth: map<Inode, nat>, i: Inode)
    requires Climbable(fs, depth) && i != INODE_ROOTDIR && fs.DirParent(i).Ok?
    ensures Height(depth, fs.DirParent(i).value) < Height(depth, i)
  {
    assert Climbs(fs, depth, i);
  }

  /** RedCoreDirRead(): the next entry of a directory, and where it is. */
  function DirRead(fs: FileSystem, dir: Inode, pos: nat): Result<Entry> {
    var node :- fs.StatDirectory(dir);
    if dir in fs.badData then
      Err(EIO)
    else if pos < |node.entries| then
      Ok(node.entries[pos])
    else
      Err(ENOENT)
  }

  /** The name of the first entry from `pos` on for `inode`.  A directory that
      lacks its own child is corrupt. */
  ghost function NameIn(fs: FileSystem, dir: Inode, inode: Inode, pos: nat): Result<Name>
    decreases if IsDirectory(fs, dir) then |fs.nodes[dir].entries| - pos else 0
  {
    match DirRead(fs, dir, pos)
    case Err(error) => Err(if error == ENOENT then EFUBAR else error)
    case Ok(entry) =>
      if entry.inode == inode then
        Ok(entry.name[..NameEnd(entry.name, 0)])
      else
        NameIn(fs, dir, inode, pos + 1)
  }

  /** It is EFUBAR exactly if that child has no entry from `pos` on. */
  lemma {:induction false} LacksChild(fs: FileSystem, dir: Inode, inode: Inode, pos: nat)
    requires IsDirectory(fs, dir) && dir !in fs.badInodes && dir !in fs.badData
    ensures NameIn(fs, dir, inode, pos) == Err(EFUBAR) <==>
              forall k | pos <= k < |fs.nodes[dir].entries| :: fs.nodes[dir].entries[k].inode != inode
    ensures NameIn(fs, dir, inode, pos).Err? ==> NameIn(fs, dir, inode, pos) == Err(EFUBAR)
    decreases |fs.nodes[dir].entries| - pos
  {
    if pos < |fs.nodes[dir].entries| && fs.nodes[dir].entries[pos].inode != inode {
      LacksChild(fs, dir, inode, pos + 1);
    }
  }

  /** The names leading from the root directory to a directory. */
  ghost function NamesTo(fs: FileSystem, depth: map<Inode, nat>, i: Inode): Result<seq<Name>>
    requires Climbable(fs, depth)
    decreases Height(depth, i)
  {
    if i == INODE_ROOTDIR then
      Ok([])
    else
      var parent :- fs.DirParent(i);
      var name :- NameIn(fs, parent, i, 0);
      ClimbsFrom(fs, depth, i);
      var above :- NamesTo(fs, depth, parent);
      Ok(above + [name])
  }

  /** Names with separators between them. */
  ghost function Join(names: seq<Name>): seq<char> {
    if names == [] then
      []
    else if |names| == 1 then
      names[0]
    else
      names[0] + [SEPARATOR] + Join(names[1..])
  }

  lemma {:induction false} JoinedSuffix(names: seq<Name>, suffix: seq<Name>)
    ensures |Join(suffix)| <= |Join(names + suffix)|
  {
    if names == [] {
      assert names + suffix == suffix;
    } else {
      assert (names + suffix)[1..] == names[1..] + suffix;
      JoinedSuffix(names[1..], suffix);
    }
  }

  /** The string DirInodeToPath() is to produce. */
  ghost function PathString(prefix: seq<char>, names: seq<Name>): seq<char> {
    prefix + [SEPARATOR] + Join(names)
  }

  /** Scan the parent directory for the name of a directory. */
  method FindName(fs: FileSystem, inode: Inode) returns (name: Result<Name>, parent: Inode)
    ensures fs.DirParent(inode).Err? ==> name == Err(fs.DirParent(inode).error)
    ensures fs.DirParent(inode).Ok? ==>
              parent == fs.DirParent(inode).value && name == NameIn(fs, parent, inode, 0)
  {
    var above := fs.DirParent(inode);
    if above.Err? {
      return Err(above.error), INODE_INVALID;
    }
    parent := above.value;
    var pos: nat := 0;
    while true
      invariant NameIn(fs, parent, inode, 0) == NameIn(fs, parent, inode, pos)
      decreases if IsDirectory(fs, parent) then |fs.nodes[parent].entries| - pos else 0
    {
      var entry := DirRead(fs, parent, pos);
      if entry.Err? {
        return Err(if entry.error == ENOENT then EFUBAR else entry.error), parent;
      }
      if entry.value.inode == inode {
        return Ok(entry.value.name[..NameEnd(entry.value.name, 0)]), parent;
      }
      pos := pos + 1;
    }
  }

  /** Shift the first `length` characters to the right. */
  method MoveUp(buffer: array<char>, shift: nat, length: nat)
    requires shift + length <= buffer.Length
    modifies buffer
    ensures buffer[shift..shift + length] == old(buffer[..length])
  {
    ghost var before := buffer[..];
    MemMove(buffer, shift, 0, length);
    assert buffer[..][shift..shift + length] == before[0..length];
  }

  /** Shift what is in the buffer to the right, and copy `head` before it,
      ending it in a separator if asked to. */
  method PutBefore(buffer: array<char>, length: nat, head: seq<char>, separator: bool)
    requires |head| + (if separator then 1 else 0) + length <= buffer.Length
    modifies buffer
    ensures buffer[..|head| + (if separator then 1 else 0) + length]
            == head + (if separator then [SEPARATOR] else []) + old(buffer[..length])
  {
    var shift := |head| + if separator then 1 else 0;
    MoveUp(buffer, shift, length);
    ghost var tail := buffer[shift..shift + length];
    MemCopy(buffer, 0, head);
    if separator {
      buffer[|head|] := SEPARATOR;
    }
    assert buffer[shift..shift + length] == tail;
    assert buffer[0..|head|] == head;
    assert buffer[..shift + length] == buffer[0..|head|] + buffer[|head|..shift] + buffer[shift..shift + length];
  }

  /** What DirInodeToPath() promises: the string and its NUL if they fit, and
      ERANGE exactly if they do not.  When the names cannot all be read the
      buffer may turn out too small before that shows. */
  ghost predicate PathResult(status: Status, contents: seq<char>, prefix: seq<char>, names: Result<seq<Name>>) {
    match names
    case Ok(names) =>
      var path := PathString(prefix, names);
      if |path| + 1 <= |contents| then
        status == Success && contents[..|path| + 1] == path + [NUL]
      else
        status == Failure(ERANGE)
    case Err(error) =>
      status == Failure(error) || status == Failure(ERANGE)
  }

  /** The end of DirInodeToPath(): the volume prefix and the first separator. */
  method PutPrefix(buffer: array<char>, pathLen: nat, prefix: seq<char>, ghost names: seq<Name>) returns (status: Status)
    requires pathLen == |Join(names)| + 1 <= buffer.Length && buffer[..pathLen] == Join(names) + [NUL]
    modifies buffer
    ensures PathResult(status, buffer[..], prefix, Ok(names))
  {
    if pathLen + |prefix| + 1 > buffer.Length {
      return Failure(ERANGE);
    }
    PutBefore(buffer, pathLen, prefix, true);
    assert PathString(prefix, names) + [NUL] == prefix + [SEPARATOR] + (Join(names) + [NUL]);
    status := Success;
  }

  /** DirInodeToPath(). */
  method DirInodeToPath(fs: FileSystem, ghost depth: map<Inode, nat>, dir: Inode, buffer: array<char>,
                        volume: seq<char>, noVolume: bool)
    returns (status: Status)
    requires Climbable(fs, depth)
    modifies buffer
    ensures buffer.Length == 0 ==> status == Failure(EINVAL)
    ensures buffer.Length > 0 ==>
              PathResult(status, buffer[..], if noVolume then [] else volume, NamesTo(fs, depth, dir))
  {
    if buffer.Length == 0 {
      return Failure(EINVAL);
    }
    buffer[0] := NUL;
    var pathLen, inode := 1, dir;
    ghost var names: seq<Name> := [];
    assert Join(names) == [];
    hide Join, NameIn, PathResult;
    ExtendNothing(NamesTo(fs, depth, dir));
    while inode != INODE_ROOTDIR
      invariant pathLen == |Join(names)| + 1 <= buffer.Length
      invariant buffer[..pathLen] == Join(names) + [NUL]
      invariant names == [] <==> inode == dir
      invariant Height(depth, inode) <= Height(depth, dir)
      invariant NamesTo(fs, depth, dir) == Extend(NamesTo(fs, depth, inode), names)
      decreases Height(depth, inode)
    {
      var name, parent := FindName(fs, inode);
      if name.Err? {
        return Failure(name.error);
      }
      ClimbsFrom(fs, depth, inode);
      ExtendStep(NamesTo(fs, depth, parent), name.value, names);
      JoinStep(name.value, names);
      var separator := inode != dir;
      var newLen := |name.value| + if separator then 1 else 0;
      if pathLen + newLen > buffer.Length {
        TooLong(volume, NamesTo(fs, depth, parent), [name.value] + names);
        return Failure(ERANGE);
      }
      PutBefore(buffer, pathLen, name.value, separator);
      pathLen := pathLen + newLen;
      names := [name.value] + names;
      inode := parent;
    }
    assert [] + names == names;
    status := PutPrefix(buffer, pathLen, if noVolume then [] else volume, names);
  }

  lemma JoinStep(name: Name, names: seq<Name>)
    ensures Join([name] + names) + [NUL]
            == name + (if names == [] then [] else [SEPARATOR]) + (Join(names) + [NUL])
  {
    assert ([name] + names)[1..] == names;
  }

  ghost function Extend(above: Result<seq<Name>>, names: seq<Name>): Result<seq<Name>> {
    var above :- above;
    Ok(above + names)
  }

  lemma ExtendNothing(above: Result<seq<Name>>)
    ensures Extend(above, []) == above
  {
    if above.Ok? {
      assert above.value + [] == above.value;
    }
  }

  lemma ExtendStep(above: Result<seq<Name>>, name: Name, names: seq<Name>)
    ensures Extend(Extend(above, [name]), names) == Extend(above, [name] + names)
  {
    if above.Ok? {
      assert above.value + [name] + names == above.value + ([name] + names);
    }
  }

  lemma TooLong(prefix: seq<char>, above: Result<seq<Name>>, names: seq<Name>)
    ensures Extend(above, names).Ok? ==> |Join(names)| < |PathString([], Extend(above, names).value)|
    ensures Extend(above, names).Ok? ==> |Join(names)| < |PathString(prefix, Extend(above, names).value)|
  {
    if above.Ok? {
      JoinedSuffix(above.value, names);
    }
  }
}
