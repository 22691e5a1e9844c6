/** What pathname resolution means in terms of the directories and links that
    the file system holds: where dot, dot-dot and one name lead, how resolution
    composes, and that a symbolic link leads where its target does. */
module PathLaws {
  import opened Errors
  import opened Constants
  import opened Components
  import opened FileSystem
  import opened Resolver
  import opened DirPath
  import opened PathLookup
  import opened TreePath

  /** A directory that can be read and searched. */
  ghost predicate Open(fs: FileSystem, i: Inode) {
    && IsDirectory(fs, i) && i !in fs.badInodes && i !in fs.badData
    && fs.nodes[i].searchable && !fs.nodes[i].removed
  }

  /** Entry `at` is the first of its name. */
  ghost predicate Entered(fs: FileSystem, dir: Inode, at: nat) {
    && Open(fs, dir)
    && var entries := fs.nodes[dir].entries;
       && at < |entries| && ProperName(entries[at].name)
       && forall k | 0 <= k < at :: entries[k].name != entries[at].name
  }

  /** Every name is looked up, and every link followed. */
  const ALL: Flags := Flags(true, false)

  lemma {:induction false} EntryFound(entries: seq<Entry>, at: nat)
    requires at < |entries| && forall k | 0 <= k < at :: entries[k].name != entries[at].name
    ensures FindEntry(entries, entries[at].name) == Ok(entries[at].inode)
  {
    if at > 0 {
      var rest := entries[1..];
      assert forall k | 0 <= k < |rest| :: rest[k] == entries[k + 1];
      EntryFound(rest, at - 1);
    }
  }

  lemma {:induction false} NoEntryFound(entries: seq<Entry>, name: Name)
    requires forall k | 0 <= k < |entries| :: entries[k].name != name
    ensures FindEntry(entries, name) == Err(ENOENT)
  {
    if entries != [] {
      var rest := entries[1..];
      assert forall k | 0 <= k < |rest| :: rest[k] == entries[k + 1];
      NoEntryFound(rest, name);
    }
  }

  lemma OneName(fs: FileSystem, dir: Inode, name: Name, flags: Flags)
    requires fs.DirParent(dir).Ok?
    ensures var here := Location(dir, fs.DirParent(dir).value);
            ResolvePath(fs, [name], here, flags) ==
              var found :- ResolveName(fs, name, here, flags.lookupLast);
              ResolvePath(fs, [], found, flags)
  {
    assert [name][1..] == [];
  }

  /** Dot-dot leads to the parent that the directory records, and from the root
      to the root. */
  lemma DotDotIsParent(fs: FileSystem, dir: Inode, path: seq<char>, flags: Flags)
    requires NUL !in path && Names(path) == [".."] && Open(fs, dir)
    requires dir != INODE_ROOTDIR ==> Open(fs, ParentOf(fs, dir))
    ensures var up := if dir == INODE_ROOTDIR then INODE_ROOTDIR else ParentOf(fs, dir);
            Resolve(fs, dir, path, flags) == Ok(Location(up, ParentOf(fs, up)))
  {
    OneName(fs, dir, "..", flags);
  }

  /** Dot leads nowhere else, and so does a path without names. */
  lemma DotIsHere(fs: FileSystem, dir: Inode, path: seq<char>, flags: Flags)
    requires NUL !in path && Names(path) in {[], ["."]} && Open(fs, dir)
    ensures Resolve(fs, dir, path, flags) == Ok(Location(dir, ParentOf(fs, dir)))
  {
    OneName(fs, dir, ".", flags);
  }

  /** No name, dot and dot-dot included, is resolved in a directory that must not
      be searched; but a last name may be named there without looking it up. */
  lemma MustBeSearchable(fs: FileSystem, dir: Inode, path: seq<char>, name: Name, flags: Flags)
    requires NUL !in path && Names(path) == [name]
    requires IsDirectory(fs, dir) && dir !in fs.badInodes && !fs.nodes[dir].removed && !fs.nodes[dir].searchable
    ensures Resolve(fs, dir, path, flags) ==
              if IsDots(name) || flags.lookupLast then Err(EACCES) else Ok(Location(INODE_INVALID, dir))
  {
    OneName(fs, dir, name, flags);
  }

  /** A name leads to the inode of its first entry, found in that directory, if
      that is no symbolic link or links at the end are not followed. */
  lemma NameIsEntry(fs: FileSystem, dir: Inode, at: nat, path: seq<char>, noFollow: bool)
    requires NUL !in path && Entered(fs, dir, at) && Names(path) == [fs.nodes[dir].entries[at].name]
    ensures var i := fs.nodes[dir].entries[at].inode;
            && (i in fs.nodes && i !in fs.badInodes && (i == INODE_ROOTDIR || noFollow || !fs.nodes[i].Symlink?) ==>
                  Resolve(fs, dir, path, Flags(true, noFollow)) == Ok(Location(i, dir)))
            && (i != INODE_ROOTDIR && i in fs.badInodes ==> Resolve(fs, dir, path, Flags(true, noFollow)) == Err(EIO))
  {
    var entries := fs.nodes[dir].entries;
    EntryFound(entries, at);
    OneName(fs, dir, entries[at].name, Flags(true, noFollow));
  }

  /** A name without an entry is ENOENT. */
  lemma NoEntryIsError(fs: FileSystem, dir: Inode, path: seq<char>, name: Name, noFollow: bool)
    requires NUL !in path && Names(path) == [name] && Open(fs, dir) && !IsDots(name) && |name| <= NAME_MAX
    requires forall k | 0 <= k < |fs.nodes[dir].entries| :: fs.nodes[dir].entries[k].name != name
    ensures Resolve(fs, dir, path, Flags(true, noFollow)) == Err(ENOENT)
  {
    NamesAreProper(path, 0);
    assert name in Names(path);
    NoEntryFound(fs.nodes[dir].entries, name);
    OneName(fs, dir, name, Flags(true, noFollow));
  }

  /** A name that is not to be looked up is only named, there or not. */
  lemma NameIsNamed(fs: FileSystem, dir: Inode, path: seq<char>, name: Name, noFollow: bool)
    requires NUL !in path && Names(path) == [name] && Open(fs, dir) && !IsDots(name)
    ensures Resolve(fs, dir, path, Flags(false, noFollow)) == Ok(Location(INODE_INVALID, dir))
  {
    OneName(fs, dir, name, Flags(false, noFollow));
  }

  /** A name over the limit is an error, there or not. */
  lemma OverlongIsError(fs: FileSystem, dir: Inode, path: seq<char>, name: Name, noFollow: bool)
    requires NUL !in path && Names(path) == [name] && Open(fs, dir) && !IsDots(name) && |name| > NAME_MAX
    ensures Resolve(fs, dir, path, Flags(true, noFollow)) == Err(ENAMETOOLONG)
  {
    OneName(fs, dir, name, Flags(true, noFollow));
  }

  /** Resolution starts in a directory that exists, can be read and was not
      removed. */
  lemma StartsInDirectory(fs: FileSystem, dir: Inode, path: seq<char>, flags: Flags)
    requires NUL !in path
    ensures dir in fs.badInodes ==> Resolve(fs, dir, path, flags) == Err(EIO)
    ensures dir !in fs.badInodes && dir !in fs.nodes ==> Resolve(fs, dir, path, flags) == Err(EBADF)
    ensures dir !in fs.badInodes && dir in fs.nodes ==>
              && (fs.nodes[dir].File? ==> Resolve(fs, dir, path, flags) == Err(ENOTDIR))
              && (fs.nodes[dir].Symlink? ==> Resolve(fs, dir, path, flags) == Err(ENOLINK))
              && (fs.nodes[dir].Directory? && fs.nodes[dir].removed ==> Resolve(fs, dir, path, flags) == Err(ENOENT))
  {
  }

  /** What resolving yields exists. */
  lemma {:induction false} FollowedExists(fs: FileSystem, here: Location, depth: nat)
    requires depth <= SYMLOOP_MAX && here.inode != INODE_INVALID
    ensures Follow(fs, here, depth).Ok? ==> Follow(fs, here, depth).value.inode != INODE_INVALID
    decreases SYMLOOP_MAX - depth, 0
  {
    if fs.Stat(here.inode).Ok? && fs.Stat(here.inode).value.Symlink? && depth < SYMLOOP_MAX {
      if fs.DirParent(here.parent).Ok? {
        var text := Text(fs.Stat(here.inode).value.target);
        var start := LinkStart(text, Location(here.parent, fs.DirParent(here.parent).value));
        if text != [] {
          ResolvedExists(fs, Names(text), start, depth + 1);
        }
      }
    }
  }

  lemma {:induction false} ResolvedExists(fs: FileSystem, names: seq<Name>, here: Location, depth: nat)
    requires depth <= SYMLOOP_MAX && here.inode != INODE_INVALID
    ensures ResolveNames(fs, names, here, depth).Ok? ==> ResolveNames(fs, names, here, depth).value.inode != INODE_INVALID
    decreases SYMLOOP_MAX - depth, 1 + |names|
  {
    if names != [] {
      var found := ResolveName(fs, names[0], here, true);
      if found.Ok? {
        FollowedExists(fs, found.value, depth);
        var next := Follow(fs, found.value, depth);
        if next.Ok? {
          ResolvedExists(fs, names[1..], next.value, depth);
        }
      }
    }
  }

  lemma {:induction false} NamesCompose(fs: FileSystem, above: seq<Name>, below: seq<Name>, here: Location, flags: Flags)
    requires below != [] && here.inode != INODE_INVALID
    ensures ResolvePath(fs, above + below, here, flags) ==
              var walked :- ResolvePath(fs, above, here, ALL);
              ResolveFrom(fs, below, walked, flags)
  {
    var names := above + below;
    FollowedExists(fs, here, 0);
    var dir := Follow(fs, here, 0);
    if above == [] {
      assert names == below;
    } else if dir.Ok? {
      assert names[0] == above[0] && names[1..] == above[1..] + below;
      var found := ResolveName(fs, above[0], dir.value, true);
      if found.Ok? {
        NamesCompose(fs, above[1..], below, found.value, flags);
      }
    }
  }

  /** Resolution composes: a path below another is resolved from the directory
      that the other one leads to. */
  lemma PathsCompose(fs: FileSystem, dir: Inode, above: seq<char>, below: seq<char>, flags: Flags)
    requires NUL !in above && NUL !in below
    ensures var path := above + [SEPARATOR] + below;
            var walked := Resolve(fs, dir, above, ALL);
            && NUL !in path
            && (Names(below) == [] ==> Resolve(fs, dir, path, flags) == Resolve(fs, dir, above, flags))
            && (Names(below) != [] && walked.Err? ==> Resolve(fs, dir, path, flags) == walked)
            && (Names(below) != [] && walked.Ok? && fs.DirParent(walked.value.inode) == Ok(walked.value.parent) ==>
                  Resolve(fs, dir, path, flags) == Resolve(fs, walked.value.inode, below, flags))
  {
    NamesOfJoin(above, below);
    var parent := fs.DirParent(dir);
    if parent.Ok? {
      if Names(below) != [] {
        NamesCompose(fs, Names(above), Names(below), Location(dir, parent.value), flags);
      } else {
        assert Names(above) + [] == Names(above);
      }
    }
  }

  /** What is no directory has nothing below it. */
  lemma NothingBelowFile(fs: FileSystem, dir: Inode, above: seq<char>, below: seq<char>, flags: Flags)
    requires NUL !in above && NUL !in below && Names(below) != [] && (flags.lookupLast || |Names(below)| > 1)
    requires var walked := Resolve(fs, dir, above, ALL);
             walked.Ok? && walked.value.inode in fs.nodes && fs.nodes[walked.value.inode].File? && walked.value.inode !in fs.badInodes
    ensures NUL !in above + [SEPARATOR] + below
    ensures Resolve(fs, dir, above + [SEPARATOR] + below, flags) == Err(ENOTDIR)
  {
    NamesOfJoin(above, below);
    var parent := fs.DirParent(dir);
    NamesCompose(fs, Names(above), Names(below), Location(dir, parent.value), flags);
  }

  /** In any path, the name of a directory followed by dot-dot cancels: what
      follows is resolved from where the path led before. */
  lemma DotDotCancels(fs: FileSystem, dir: Inode, above: seq<char>, at: nat, p: Inode, below: seq<char>, flags: Flags)
    requires NUL !in above && NUL !in below && Entered(fs, p, at)
    requires Resolve(fs, dir, above, ALL) == Ok(Location(p, ParentOf(fs, p)))
    requires var i := fs.nodes[p].entries[at].inode; i != INODE_ROOTDIR && Open(fs, i) && ParentOf(fs, i) == p
    ensures var path := above + [SEPARATOR] + fs.nodes[p].entries[at].name + [SEPARATOR] + ".." + [SEPARATOR] + below;
            && NUL !in path
            && Resolve(fs, dir, path, flags) == Resolve(fs, p, below, flags)
  {
    var name := fs.nodes[p].entries[at].name;
    var i := fs.nodes[p].entries[at].inode;
    NamesOfName(name);
    NamesOfName("..");
    var first, second := above + [SEPARATOR] + name, above + [SEPARATOR] + name + [SEPARATOR] + "..";
    PathsCompose(fs, dir, above, name, ALL);
    NameIsEntry(fs, p, at, name, false);
    PathsCompose(fs, dir, first, "..", ALL);
    DotDotIsParent(fs, i, "..", ALL);
    PathsCompose(fs, dir, first, "..", flags);
    DotDotIsParent(fs, i, "..", flags);
    PathsCompose(fs, dir, second, below, flags);
    if Names(below) == [] {
      DotIsHere(fs, p, below, flags);
    }
  }

  /** One level of nesting more changes nothing but that the limit may be met. */
  lemma {:induction false} DeeperIsSame(fs: FileSystem, here: Location, depth: nat)
    requires depth < SYMLOOP_MAX
    ensures Follow(fs, here, depth + 1) in {Err(ELOOP), Follow(fs, here, depth)}
    decreases SYMLOOP_MAX - depth, 0
  {
    if depth + 1 < SYMLOOP_MAX && fs.Stat(here.inode).Ok? && fs.Stat(here.inode).value.Symlink? {
      if fs.DirParent(here.parent).Ok? {
        var text := Text(fs.Stat(here.inode).value.target);
        var start := LinkStart(text, Location(here.parent, fs.DirParent(here.parent).value));
        NamesDeeperSame(fs, Names(text), start, depth + 1);
      }
    }
  }

  lemma {:induction false} NamesDeeperSame(fs: FileSystem, names: seq<Name>, here: Location, depth: nat)
    requires depth < SYMLOOP_MAX
    ensures ResolveNames(fs, names, here, depth + 1) in {Err(ELOOP), ResolveNames(fs, names, here, depth)}
    decreases SYMLOOP_MAX - depth, 1 + |names|
  {
    if names != [] {
      var found := ResolveName(fs, names[0], here, true);
      if found.Ok? {
        DeeperIsSame(fs, found.value, depth);
        var next := Follow(fs, found.value, depth);
        if next.Ok? {
          NamesDeeperSame(fs, names[1..], next.value, depth);
        }
      }
    }
  }

  /** Outside links, names of an allowed length are resolved as in a link. */
  lemma {:induction false} PathIsNames(fs: FileSystem, names: seq<Name>, here: Location)
    requires forall name | name in names :: |name| <= NAME_MAX
    requires here.inode != INODE_INVALID
    ensures ResolvePath(fs, names, here, ALL) ==
              var dir :- Follow(fs, here, 0);
              ResolveNames(fs, names, dir, 0)
  {
    FollowedExists(fs, here, 0);
    var dir := Follow(fs, here, 0);
    if names != [] && dir.Ok? {
      var found := ResolveName(fs, names[0], dir.value, true);
      if found.Ok? {
        PathIsNames(fs, names[1..], found.value);
      }
    }
  }

  /** A symbolic link that can be read, its target, and where that starts. */
  ghost predicate IsLinkTo(fs: FileSystem, l: Inode, text: seq<char>) {
    && l in fs.nodes && fs.nodes[l].Symlink? && l != INODE_ROOTDIR && l !in fs.badInodes && l !in fs.badData
    && Text(fs.nodes[l].target) == text != []
  }

  ghost function StartOf(text: seq<char>, dir: Inode): Inode
    requires text != []
  {
    if text[0] == SEPARATOR then INODE_ROOTDIR else dir
  }

  lemma FollowIsTarget(fs: FileSystem, dir: Inode, l: Inode, text: seq<char>)
    requires NUL !in text && IsLinkTo(fs, l, text) && Open(fs, dir) && Open(fs, StartOf(text, dir))
    requires ParentOf(fs, StartOf(text, dir)) == if text[0] == SEPARATOR then INODE_INVALID else ParentOf(fs, dir)
    requires forall name | name in Names(text) :: |name| <= NAME_MAX
    ensures Follow(fs, Location(l, dir), 0) in {Err(ELOOP), Resolve(fs, StartOf(text, dir), text, ALL)}
  {
    var start := StartOf(text, dir);
    PathIsNames(fs, Names(text), Location(start, ParentOf(fs, start)));
    NamesDeeperSame(fs, Names(text), Location(start, ParentOf(fs, start)), 0);
  }

  /** A name that is a symbolic link leads where the link's target leads: from
      the root if it is absolute, else from the directory that holds the link;
      unless links are nested too deep. */
  lemma LinkIsTarget(fs: FileSystem, dir: Inode, at: nat, path: seq<char>, text: seq<char>)
    requires NUL !in path && Entered(fs, dir, at) && Names(path) == [fs.nodes[dir].entries[at].name]
    requires NUL !in text && IsLinkTo(fs, fs.nodes[dir].entries[at].inode, text) && Open(fs, StartOf(text, dir))
    requires IsDirectory(fs, INODE_ROOTDIR) && ParentOf(fs, INODE_ROOTDIR) == INODE_INVALID
    requires forall name | name in Names(text) :: |name| <= NAME_MAX
    ensures Resolve(fs, dir, path, ALL) in {Err(ELOOP), Resolve(fs, StartOf(text, dir), text, ALL)}
  {
    var entries := fs.nodes[dir].entries;
    EntryFound(entries, at);
    OneName(fs, dir, entries[at].name, ALL);
    FollowIsTarget(fs, dir, entries[at].inode, text);
  }

  lemma {:induction false} NamesInTree(fs: FileSystem, depth: map<Inode, nat>, slot: map<Inode, nat>, i: Inode, rest: seq<Name>, nested: nat)
    requires NamedTree(fs, depth, slot) && Climbable(fs, depth) && IsDirectory(fs, i) && nested <= SYMLOOP_MAX
    requires NamesTo(fs, depth, i).Ok?
    ensures ResolveNames(fs, NamesTo(fs, depth, i).value + rest, Location(INODE_ROOTDIR, INODE_INVALID), nested)
            == ResolveNames(fs, rest, Location(i, ParentOf(fs, i)), nested)
    decreases Height(depth, i)
  {
    TreeNames(fs, depth, slot, i);
    if i == INODE_ROOTDIR {
      assert [] + rest == rest;
    } else {
      var parent := ParentOf(fs, i);
      var name := EntryName(fs, depth, slot, i);
      var above := NamesTo(fs, depth, parent).value;
      assert above + [name] + rest == above + ([name] + rest);
      ClimbsFrom(fs, depth, i);
      NamesInTree(fs, depth, slot, parent, [name] + rest, nested);
      assert InTree(fs, depth, slot, parent) && InTree(fs, depth, slot, i);
      FindsOnlyEntry(fs.nodes[parent].entries, slot[i], i);
      assert ([name] + rest)[0] == name && ([name] + rest)[1..] == rest;
    }
  }

  /** In a tree, a link to the rebuilt path of a directory leads there, wherever
      the link is and however deep it is nested. */
  lemma AbsoluteLinkLeads(fs: FileSystem, depth: map<Inode, nat>, slot: map<Inode, nat>, dir: Inode, l: Inode, i: Inode, nested: nat)
    requires NamedTree(fs, depth, slot) && IsDirectory(fs, dir) && IsDirectory(fs, i) && nested < SYMLOOP_MAX
    ensures Climbable(fs, depth) && NamesTo(fs, depth, i).Ok?
    ensures IsLinkTo(fs, l, PathString([], NamesTo(fs, depth, i).value)) ==>
              Follow(fs, Location(l, dir), nested) == Ok(Location(i, ParentOf(fs, i)))
  {
    hide ResolveNames, Follow, NamesFrom, Join, LinkStart;
    TreeClimbs(fs, depth, slot);
    TreeNames(fs, depth, slot, i);
    var names := NamesTo(fs, depth, i).value;
    assert InTree(fs, depth, slot, dir);
    NamesOfPathString(names);
    NamesInTree(fs, depth, slot, i, [], nested + 1);
    NoNamesLeft(fs, Location(i, ParentOf(fs, i)), nested + 1);
    assert names + [] == names;
    if IsLinkTo(fs, l, PathString([], names)) {
      AbsoluteFollow(fs, dir, l, PathString([], names), nested);
    }
  }

  lemma NoNamesLeft(fs: FileSystem, here: Location, depth: nat)
    requires depth <= SYMLOOP_MAX
    ensures ResolveNames(fs, [], here, depth) == Ok(here)
  {
  }

  lemma AbsoluteFollow(fs: FileSystem, dir: Inode, l: Inode, text: seq<char>, nested: nat)
    requires NUL !in text && IsLinkTo(fs, l, text) && text[0] == SEPARATOR && fs.DirParent(dir).Ok? && nested < SYMLOOP_MAX
    ensures Follow(fs, Location(l, dir), nested) == ResolveNames(fs, Names(text), Location(INODE_ROOTDIR, INODE_INVALID), nested + 1)
  {
    hide ResolveNames, NamesFrom;
  }

  /** A link to dot-dot leads to the parent of the directory that holds it. */
  lemma DotDotLinkLeads(fs: FileSystem, dir: Inode, l: Inode, nested: nat)
    requires Open(fs, dir) && dir != INODE_ROOTDIR && Open(fs, ParentOf(fs, dir)) && nested < SYMLOOP_MAX
    requires IsLinkTo(fs, l, "..") && NAME_MAX >= 2
    ensures Follow(fs, Location(l, dir), nested) == Ok(Location(ParentOf(fs, dir), ParentOf(fs, ParentOf(fs, dir))))
  {
    NamesOfName("..");
    var here := Location(dir, ParentOf(fs, dir));
    var up := Location(ParentOf(fs, dir), ParentOf(fs, ParentOf(fs, dir)));
    assert ResolveName(fs, "..", here, true) == Ok(up);
    assert [".."][1..] == [];
    assert ResolveNames(fs, [], up, nested + 1) == Ok(up);
    assert ResolveNames(fs, [".."], here, nested + 1) == Ok(up);
  }
}
