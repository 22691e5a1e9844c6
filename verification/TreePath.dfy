/** In a directory tree, rebuilding a directory's path and looking that path up
    again are inverse to each other. */
module TreePath {
  import opened Errors
  import opened Constants
  import opened Components
  import opened FileSystem
  import opened Resolver
  import opened PathLookup
  import opened DirPath

  ghost predicate AllProper(names: seq<Name>) {
    forall name | name in names :: ProperName(name)
  }

  /** Entry `at` is the one for `inode`, and the only one of its name. */
  ghost predicate OnlyEntry(entries: seq<Entry>, at: nat, inode: Inode) {
    && at < |entries|
    && entries[at].inode == inode
    && ProperName(entries[at].name)
    && (forall k | 0 <= k < |entries| && k != at :: entries[k].inode != inode && entries[k].name != entries[at].name)
  }

  /** A directory tree: every directory but the root is entered once, in its
      parent, one level up; all directories can be read and searched. */
  ghost predicate NamedTree(fs: FileSystem, depth: map<Inode, nat>, slot: map<Inode, nat>) {
    && IsDirectory(fs, INODE_ROOTDIR) && ParentOf(fs, INODE_ROOTDIR) == INODE_INVALID
    && forall i {:trigger InTree(fs, depth, slot, i)} | IsDirectory(fs, i) :: InTree(fs, depth, slot, i)
  }

  ghost predicate InTree(fs: FileSystem, depth: map<Inode, nat>, slot: map<Inode, nat>, i: Inode) {
    && IsDirectory(fs, i)
    && i !in fs.badInodes && i !in fs.badData
    && fs.nodes[i].searchable && !fs.nodes[i].removed
    && (i != INODE_ROOTDIR ==>
          var parent := ParentOf(fs, i);
          && i in depth && parent in depth && depth[parent] < depth[i]
          && IsDirectory(fs, parent)
          && i in slot
          && OnlyEntry(fs.nodes[parent].entries, slot[i], i))
  }

  lemma TreeClimbs(fs: FileSystem, depth: map<Inode, nat>, slot: map<Inode, nat>)
    requires NamedTree(fs, depth, slot)
    ensures Climbable(fs, depth)
  {
    forall i | IsDirectory(fs, i) && i != INODE_ROOTDIR
      ensures Climbs(fs, depth, i)
    {
      assert InTree(fs, depth, slot, i);
    }
  }

  ghost function EntryName(fs: FileSystem, depth: map<Inode, nat>, slot: map<Inode, nat>, i: Inode): Name
    requires InTree(fs, depth, slot, i) && i != INODE_ROOTDIR
  {
    fs.nodes[ParentOf(fs, i)].entries[slot[i]].name
  }

  lemma {:induction false} FindsOnlyEntry(entries: seq<Entry>, at: nat, inode: Inode)
    requires OnlyEntry(entries, at, inode)
    ensures FindEntry(entries, entries[at].name) == Ok(inode)
  {
    if at > 0 {
      assert entries[0].name != entries[at].name;
      var rest := entries[1..];
      assert forall k | 0 <= k < |rest| :: rest[k] == entries[k + 1];
      FindsOnlyEntry(rest, at - 1, inode);
    }
  }

  lemma {:induction false} ScansToEntry(fs: FileSystem, depth: map<Inode, nat>, slot: map<Inode, nat>, i: Inode, pos: nat)
    requires NamedTree(fs, depth, slot) && InTree(fs, depth, slot, i) && i != INODE_ROOTDIR && pos <= slot[i]
    ensures NameIn(fs, ParentOf(fs, i), i, pos) == Ok(EntryName(fs, depth, slot, i))
    decreases slot[i] - pos
  {
    var parent := ParentOf(fs, i);
    assert InTree(fs, depth, slot, parent);
    if pos < slot[i] {
      ScansToEntry(fs, depth, slot, i, pos + 1);
    } else {
      var name := EntryName(fs, depth, slot, i);
      assert Terminatorless(name);
      NameEndIs(name, 0, |name|);
      assert name[..|name|] == name;
    }
  }

  /** Climbing a tree never fails, and yields proper names. */
  lemma {:induction false} TreeNames(fs: FileSystem, depth: map<Inode, nat>, slot: map<Inode, nat>, i: Inode)
    requires NamedTree(fs, depth, slot) && IsDirectory(fs, i) && Climbable(fs, depth)
    ensures InTree(fs, depth, slot, i)
    ensures NamesTo(fs, depth, i).Ok? && AllProper(NamesTo(fs, depth, i).value)
    ensures i != INODE_ROOTDIR ==>
              && IsDirectory(fs, ParentOf(fs, i))
              && NamesTo(fs, depth, ParentOf(fs, i)).Ok?
              && NamesTo(fs, depth, i).value
                 == NamesTo(fs, depth, ParentOf(fs, i)).value + [EntryName(fs, depth, slot, i)]
    decreases Height(depth, i)
  {
    assert InTree(fs, depth, slot, i);
    if i != INODE_ROOTDIR {
      ScansToEntry(fs, depth, slot, i, 0);
      ClimbsFrom(fs, depth, i);
      TreeNames(fs, depth, slot, ParentOf(fs, i));
    }
  }

  /** Resolving one name of the tree steps from a directory into the one below. */
  lemma ResolvesDown(fs: FileSystem, depth: map<Inode, nat>, slot: map<Inode, nat>, i: Inode, rest: seq<Name>, flags: Flags)
    requires NamedTree(fs, depth, slot) && InTree(fs, depth, slot, i) && i != INODE_ROOTDIR && flags.lookupLast
    ensures var parent := ParentOf(fs, i);
            IsDirectory(fs, parent) &&
            ResolvePath(fs, [EntryName(fs, depth, slot, i)] + rest, Location(parent, ParentOf(fs, parent)), flags)
            == ResolvePath(fs, rest, Location(i, parent), flags)
  {
    var parent := ParentOf(fs, i);
    var name := EntryName(fs, depth, slot, i);
    assert InTree(fs, depth, slot, parent);
    FindsOnlyEntry(fs.nodes[parent].entries, slot[i], i);
    assert fs.Lookup(parent, name) == Ok(i);
    assert ([name] + rest)[1..] == rest;
    assert parent != INODE_INVALID;
  }

  lemma {:induction false} ResolvesTree(fs: FileSystem, depth: map<Inode, nat>, slot: map<Inode, nat>, i: Inode, rest: seq<Name>, flags: Flags)
    requires NamedTree(fs, depth, slot) && Climbable(fs, depth) && IsDirectory(fs, i) && flags.lookupLast
    requires NamesTo(fs, depth, i).Ok?
    ensures ResolvePath(fs, NamesTo(fs, depth, i).value + rest, Location(INODE_ROOTDIR, INODE_INVALID), flags)
            == ResolvePath(fs, rest, Location(i, ParentOf(fs, i)), flags)
    decreases Height(depth, i)
  {
    TreeNames(fs, depth, slot, i);
    if i == INODE_ROOTDIR {
      assert [] + rest == rest;
    } else {
      var parent := ParentOf(fs, i);
      var name := EntryName(fs, depth, slot, i);
      var above := NamesTo(fs, depth, parent).value;
      assert above + [name] + rest == above + ([name] + rest);
      ClimbsFrom(fs, depth, i);
      ResolvesTree(fs, depth, slot, parent, [name] + rest, flags);
      ResolvesDown(fs, depth, slot, i, rest, flags);
    }
  }

  lemma {:induction false} NamesOfJoined(names: seq<Name>)
    requires AllProper(names)
    ensures NUL !in Join(names) && Names(Join(names)) == names
  {
    if names == [] {
      assert Names([]) == [];
    } else {
      assert names[0] in names;
      NamesOfName(names[0]);
      if |names| > 1 {
        NamesOfJoined(names[1..]);
        NamesOfJoin(names[0], Join(names[1..]));
        assert names == [names[0]] + names[1..];
      }
    }
  }

  lemma NamesOfPathString(names: seq<Name>)
    requires AllProper(names)
    ensures NUL !in PathString([], names) && Names(PathString([], names)) == names
  {
    NamesOfJoined(names);
    NamesOfJoin([], Join(names));
    assert Names([]) == [];
  }

  /** The rebuilt path of a directory resolves to that directory. */
  lemma PathResolves(fs: FileSystem, depth: map<Inode, nat>, slot: map<Inode, nat>, i: Inode, noFollow: bool)
    requires NamedTree(fs, depth, slot) && IsDirectory(fs, i)
    ensures Climbable(fs, depth) && NamesTo(fs, depth, i).Ok?
    ensures var path := PathString([], NamesTo(fs, depth, i).value);
            && NUL !in path
            && Resolve(fs, INODE_ROOTDIR, path, Flags(true, noFollow)) == Ok(Location(i, ParentOf(fs, i)))
  {
    var flags := Flags(true, noFollow);
    TreeClimbs(fs, depth, slot);
    TreeNames(fs, depth, slot, i);
    TreeNames(fs, depth, slot, INODE_ROOTDIR);
    var names := NamesTo(fs, depth, i).value;
    NamesOfPathString(names);
    ResolvesTree(fs, depth, slot, i, [], flags);
    assert names + [] == names;
    var here := Location(i, ParentOf(fs, i));
    assert i != INODE_INVALID;
    assert FollowTop(fs, true, here, flags) == Ok(here);
    assert ResolvePath(fs, [], here, flags) == Ok(here);
    assert fs.DirParent(INODE_ROOTDIR) == Ok(INODE_INVALID);
  }

  /** Rebuild a directory's path in a buffer, read it back as a string, and look
      it up: whenever the path fits, the same directory comes back. */
  method RoundTrip(fs: FileSystem, ghost depth: map<Inode, nat>, ghost slot: map<Inode, nat>, dir: Inode, buffer: array<char>)
    returns (found: Result<Inode>)
    requires NamedTree(fs, depth, slot) && Climbable(fs, depth) && IsDirectory(fs, dir)
    modifies buffer
    ensures NamesTo(fs, depth, dir).Ok?
    ensures found ==
              if buffer.Length == 0 then Err(EINVAL)
              else if |PathString([], NamesTo(fs, depth, dir).value)| < buffer.Length then Ok(dir)
              else Err(ERANGE)
  {
    PathResolves(fs, depth, slot, dir, false);
    var status := DirInodeToPath(fs, depth, dir, buffer, [], true);
    if status.Failure? {
      return Err(status.error);
    }
    var path := Text(buffer[..]);
    TextUpTo(buffer[..], PathString([], NamesTo(fs, depth, dir).value));
    found := RedPathLookup(fs, INODE_ROOTDIR, path, false);
  }

  lemma {:induction false} TextUpTo(s: seq<char>, text: seq<char>)
    requires NUL !in text && |text| < |s| && s[..|text| + 1] == text + [NUL]
    ensures Text(s) == text
  {
    assert s[|text|] == (text + [NUL])[|text|] == NUL;
    if text != [] {
      assert s[0] == text[0];
      assert text == [text[0]] + text[1..];
      assert s[1..][..|text|] == s[..|text| + 1][1..] == text[1..] + [NUL];
      TextUpTo(s[1..], text[1..]);
    }
  }
}
