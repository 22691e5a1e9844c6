/** Pathname resolution as section 4.13 of the Base Definitions of IEEE Std
    1003.1-2017 describes it: split the path into names and resolve them in
    order, each symbolic link by resolving its own names.  The limit is on
    nesting only, as posix/path.c states (lines 44-49).

    `PathWalk` computes this without recursion. */
module Resolver {
  import opened Errors
  import opened Constants
  import opened Components
  import opened FileSystem

  const SYMLOOP_MAX: nat := 8

  /** A resolved inode and the directory it was found in. */
  datatype Location = Location(inode: Inode, parent: Inode)

  /** `lookupLast`: the final name is to be looked up; `noFollow`: a final
      symbolic link is not to be followed. */
  datatype Flags = Flags(lookupLast: bool, noFollow: bool)

  /** Resolve one name in the directory `here.inode`. */
  function ResolveName(fs: FileSystem, name: Name, here: Location, lookup: bool): Result<Location> {
    if IsDot(name) then
      var _ :- fs.SearchableDirectory(here.inode);
      Ok(here)
    else if IsDotDot(name) then
      var _ :- fs.SearchableDirectory(here.inode);
      var up := if here.inode == INODE_ROOTDIR then INODE_ROOTDIR else here.parent;
      var parent :- fs.DirParent(up);
      Ok(Location(up, parent))
    else if lookup then
      var inode :- fs.Lookup(here.inode, name);
      Ok(Location(inode, here.inode))
    else
      Ok(Location(INODE_INVALID, here.inode))
  }

  /** If `here` is a symbolic link, what it leads to; otherwise `here`.
      `depth` is the number of links being resolved around it. */
  function Follow(fs: FileSystem, here: Location, depth: nat): Result<Location>
    requires depth <= SYMLOOP_MAX
    decreases SYMLOOP_MAX - depth, 0
  {
    if here.inode == INODE_ROOTDIR then
      Ok(here)
    else
      var node :- fs.Stat(here.inode);
      if !node.Symlink? then
        Ok(here)
      else if depth == SYMLOOP_MAX then
        Err(ELOOP)
      else
        var grandparent :- fs.DirParent(here.parent);
        if here.inode in fs.badData then
          Err(EIO)
        else
          var text := Text(node.target);
          if text == [] then
            Err(ENOENT)
          else
            var start := LinkStart(text, Location(here.parent, grandparent));
            ResolveNames(fs, Names(text), start, depth + 1)
  }

  /** A relative target starts in the link's directory, an absolute one in the
      root directory, which has no parent. */
  function LinkStart(text: seq<char>, dir: Location): Location {
    if text != [] && text[0] == SEPARATOR then Location(INODE_ROOTDIR, INODE_INVALID) else dir
  }

  /** Resolve the names of a symbolic link: each is looked up and followed. */
  function ResolveNames(fs: FileSystem, names: seq<Name>, here: Location, depth: nat): Result<Location>
    requires depth <= SYMLOOP_MAX
    decreases SYMLOOP_MAX - depth, 1 + |names|
  {
    if names == [] then
      Ok(here)
    else if |names[0]| > NAME_MAX then
      Err(ENAMETOOLONG)
    else
      var found :- ResolveName(fs, names[0], here, true);
      var next :- Follow(fs, found, depth);
      ResolveNames(fs, names[1..], next, depth)
  }

  /** What precedes each name of the path, and its end: follow the link just
      found, unless it is the final one and flags say not to. */
  function FollowTop(fs: FileSystem, final: bool, here: Location, flags: Flags): Result<Location> {
    if flags.noFollow && final then
      if here.inode == INODE_ROOTDIR then
        Ok(here)
      else
        var _ :- fs.Stat(here.inode);
        Ok(here)
    else
      Follow(fs, here, 0)
  }

  /** Resolve the names of the path itself. */
  function ResolvePath(fs: FileSystem, names: seq<Name>, here: Location, flags: Flags): Result<Location>
    decreases |names|
  {
    if here.inode == INODE_INVALID then
      Ok(here)
    else
      var dir :- FollowTop(fs, names == [], here, flags);
      ResolveFrom(fs, names, dir, flags)
  }

  function ResolveFrom(fs: FileSystem, names: seq<Name>, dir: Location, flags: Flags): Result<Location>
    decreases |names|, 0
  {
    if names == [] then
      Ok(dir)
    else
      var found :- ResolveName(fs, names[0], dir, flags.lookupLast || |names| > 1);
      ResolvePath(fs, names[1..], found, flags)
  }

  /** Resolve `path` from the directory `dir`. */
  function Resolve(fs: FileSystem, dir: Inode, path: seq<char>, flags: Flags): Result<Location>
    requires NUL !in path
  {
    var parent :- fs.DirParent(dir);
    ResolvePath(fs, Names(path), Location(dir, parent), flags)
  }
}
