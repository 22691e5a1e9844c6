/** The file system as path resolution sees it: what the core calls
    RedCoreLookup, RedCoreDirParent, RedCoreStat, RedCoreFileRead and
    RedCoreDirRead answer.  Their code is not part of this model. */
module FileSystem {
  import opened Errors
  import opened Constants
  import opened Components

  type Inode = nat

  /** Inode numbers 0 and 1 never exist on disk. */
  type LiveInode = i: nat | INODE_FIRST_VALID <= i witness INODE_FIRST_VALID

  datatype Entry = Entry(name: Name, inode: LiveInode)

  datatype Node =
    | Directory(parent: Inode, entries: seq<Entry>, searchable: bool, removed: bool)
    | File
    | Symlink(target: seq<char>)

  /** `badInodes` cannot be read at all; the data of `badData` cannot be read. */
  datatype FileSystem = FileSystem(nodes: map<LiveInode, Node>, badInodes: set<Inode>, badData: set<Inode>) {

    function Stat(inode: Inode): Result<Node> {
      if inode in badInodes then
        Err(EIO)
      else if inode !in nodes then
        Err(EBADF)
      else
        Ok(nodes[inode])
    }

    /** Stat, followed by the directory type check of util/ftype.c. */
    function StatDirectory(inode: Inode): Result<Node> {
      var node :- Stat(inode);
      match node
      case Directory(_, _, _, _) => Ok(node)
      case Symlink(_) => Err(ENOLINK)
      case File => Err(ENOTDIR)
    }

    /** The parent of a directory; a removed directory no longer has one. */
    function DirParent(inode: Inode): Result<Inode> {
      var node :- StatDirectory(inode);
      if node.removed then Err(ENOENT) else Ok(node.parent)
    }

    function SearchableDirectory(inode: Inode): Result<Node> {
      var node :- StatDirectory(inode);
      if node.searchable then Ok(node) else Err(EACCES)
    }

    function Lookup(dir: Inode, name: Name): Result<LiveInode> {
      var node :- SearchableDirectory(dir);
      if name == [] then
        Err(EINVAL)
      else if |name| > NAME_MAX then
        Err(ENAMETOOLONG)
      else if dir in badData then
        Err(EIO)
      else
        FindEntry(node.entries, name)
    }

    /** Up to `length` bytes of a symbolic link's target, from `pos` on. */
    function ReadLink(inode: Inode, pos: nat, length: nat): Result<seq<char>> {
      var node :- Stat(inode);
      if !node.Symlink? then
        Err(EINVAL)
      else if inode in badData then
        Err(EIO)
      else
        var start := if pos < |node.target| then pos else |node.target|;
        var end := if |node.target| - start < length then |node.target| else start + length;
        Ok(node.target[start..end])
    }
  }

  function FindEntry(entries: seq<Entry>, name: Name): Result<LiveInode> {
    if entries == [] then
      Err(ENOENT)
    else if entries[0].name == name then
      Ok(entries[0].inode)
    else
      FindEntry(entries[1..], name)
  }
}
