/** The two entry points of posix/path.c, and what its comment on
    RED_SYMLOOP_MAX promises of nested and circular symbolic links. */
module PathLookup {
  import opened Errors
  import opened Constants
  import opened Components
  import opened FileSystem
  import opened Resolver
  import opened PathWalker

  /** RedPathLookup(). */
  method RedPathLookup(fs: FileSystem, dir: Inode, path: seq<char>, noFollow: bool) returns (result: Result<Inode>)
    requires NUL !in path
    ensures dir == INODE_INVALID ==> result == Err(EINVAL)
    ensures dir != INODE_INVALID ==>
              var resolved := Resolve(fs, dir, path, Flags(true, noFollow));
              result == if resolved.Err? then Err(resolved.error) else Ok(resolved.value.inode)
  {
    var walked := PathWalk(fs, dir, path, noFollow, Success, false, true);
    result := if walked.Err? then Err(walked.error) else Ok(walked.value.inode);
  }

  /** RedPathToName(): the directory and name a path ends in, without looking
      the name up. */
  method RedPathToName(fs: FileSystem, dir: Inode, path: seq<char>, rootDirError: Status)
    returns (result: Result<(Inode, nat)>)
    requires NUL !in path
    ensures result.Ok? ==>
              var names := Names(path);
              && StartsLastName(path, result.value.1)
              && Resolve(fs, dir, path, Flags(false, false)).Ok?
              && result.value.0 == Resolve(fs, dir, path, Flags(false, false)).value.parent != INODE_INVALID
              && (names != [] ==> !IsDots(names[|names| - 1]))
    ensures dir == INODE_INVALID || rootDirError.Success? ==> result == Err(EINVAL)
    ensures result.Err? && dir != INODE_INVALID && rootDirError.Failure? ==>
              var names := Names(path);
              var resolved := Resolve(fs, dir, path, Flags(false, false));
              if resolved.Err? then
                result.error == resolved.error
              else if resolved.value.parent == INODE_INVALID then
                result.error == rootDirError.error
              else
                && result.error == EINVAL
                && names != []
                && IsDots(names[|names| - 1])
  {
    if rootDirError.Success? {
      return Err(EINVAL);
    }
    var walked := PathWalk(fs, dir, path, false, rootDirError, true, false);
    if walked.Err? {
      return Err(walked.error);
    }
    var at := walked.value.lastName;
    LastNameAt(path, at);
    if DotAt(path, at) || DotDotAt(path, at) {
      return Err(EINVAL);
    }
    result := Ok((walked.value.parent, at));
  }

  /** The start of the last name decides whether that name is dot or dot-dot. */
  lemma LastNameAt(path: seq<char>, at: nat)
    requires NUL !in path && StartsLastName(path, at)
    ensures var names := Names(path);
            if names == [] then
              !DotAt(path, at) && !DotDotAt(path, at)
            else
              && DotAt(path, at) == IsDot(names[|names| - 1])
              && DotDotAt(path, at) == IsDotDot(names[|names| - 1])
  {
    var names := Names(path);
    if names == [] {
      assert SkipSeparators(path, 0) == |path|;
    } else {
      var last := names[|names| - 1];
      assert NamesFrom(path, at) == [last];
      var start := SkipSeparators(path, at);
      assert last == path[start..NameEnd(path, start)];
      DotNames(path, start);
    }
  }

  /** `link` is a symbolic link in `dir` whose target is one name there, that
      of `next`. */
  ghost predicate LinksTo(fs: FileSystem, dir: Inode, link: Inode, next: Inode) {
    && link != INODE_ROOTDIR && link !in fs.badData
    && fs.Stat(link).Ok? && fs.Stat(link).value.Symlink?
    && fs.DirParent(dir).Ok?
    && var name := fs.Stat(link).value.target;
       && name != [] && Terminatorless(name) && NUL !in name
       && !IsDots(name)
       && fs.Lookup(dir, name) == Ok(next)
  }

  /** Following such a link is following what it names, one level deeper. */
  lemma FollowOnce(fs: FileSystem, dir: Inode, link: Inode, next: Inode, depth: nat)
    requires depth < SYMLOOP_MAX && LinksTo(fs, dir, link, next)
    ensures Follow(fs, Location(link, dir), depth) == Follow(fs, Location(next, dir), depth + 1)
  {
    var name := fs.Stat(link).value.target;
    TextOfName(name);
    NamesOfName(name);
    assert name[0] != SEPARATOR by {
      assert !EndsName(name[0]);
    }
    assert fs.Lookup(dir, name).Ok? ==> |name| <= NAME_MAX;
    var found := Location(next, dir);
    var followed := Follow(fs, found, depth + 1);
    assert Names(name)[1..] == [];
    assert followed.Ok? ==> ResolveNames(fs, [], followed.value, depth + 1) == followed;
  }

  lemma {:induction false} TextOfName(s: seq<char>)
    requires NUL !in s
    ensures Text(s) == s
  {
    if s != [] {
      assert s[0] != NUL;
      TextOfName(s[1..]);
      assert s == [s[0]] + s[1..];
    }
  }

  /** Links named by one another in turn: a path to the last of them reaches
      the file exactly when no more than SYMLOOP_MAX of them are nested. */
  lemma {:induction false} NestedLinks(fs: FileSystem, dir: Inode, chain: seq<Inode>, depth: nat)
    requires chain != [] && depth <= SYMLOOP_MAX
    requires chain[0] != INODE_ROOTDIR && fs.Stat(chain[0]).Ok? && !fs.Stat(chain[0]).value.Symlink?
    requires forall k | 0 < k < |chain| :: LinksTo(fs, dir, chain[k], chain[k - 1])
    ensures Follow(fs, Location(chain[|chain| - 1], dir), depth)
            == if depth + |chain| - 1 <= SYMLOOP_MAX then Ok(Location(chain[0], dir)) else Err(ELOOP)
    decreases |chain|
  {
    var last := |chain| - 1;
    if last > 0 {
      assert LinksTo(fs, dir, chain[last], chain[last - 1]);
      if depth < SYMLOOP_MAX {
        FollowOnce(fs, dir, chain[last], chain[last - 1], depth);
        NestedLinks(fs, dir, chain[..last], depth + 1);
      }
    }
  }

  ghost predicate LinksInto(fs: FileSystem, dir: Inode, link: Inode, circle: set<Inode>) {
    exists next :: next in circle && LinksTo(fs, dir, link, next)
  }

  /** Links that only name one another cannot be resolved. */
  lemma {:induction false} CircularLinks(fs: FileSystem, dir: Inode, circle: set<Inode>, link: Inode, depth: nat)
    requires link in circle && depth <= SYMLOOP_MAX
    requires forall i {:trigger LinksInto(fs, dir, i, circle)} | i in circle :: LinksInto(fs, dir, i, circle)
    ensures Follow(fs, Location(link, dir), depth) == Err(ELOOP)
    decreases SYMLOOP_MAX - depth
  {
    assert LinksInto(fs, dir, link, circle);
    var next :| next in circle && LinksTo(fs, dir, link, next);
    if depth < SYMLOOP_MAX {
      FollowOnce(fs, dir, link, next, depth);
      CircularLinks(fs, dir, circle, next, depth + 1);
    }
  }
}
