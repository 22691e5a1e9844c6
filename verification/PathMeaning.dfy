/** What a half-done path walk still has to do, in terms of the resolver.

    The walk keeps a stack of partly read symbolic links.  These functions say
    what finishing that stack, and then the path, yields; the walk preserves
    that value from step to step. */
module PathMeaning {
  import opened Errors
  import opened Constants
  import opened Components
  import opened FileSystem
  import opened Resolver

  /** A symbolic link being read, and how far. */
  datatype Level = Level(inode: Inode, pos: nat)

  ghost predicate IsLink(fs: FileSystem, inode: Inode) {
    fs.Stat(inode).Ok? && fs.Stat(inode).value.Symlink?
  }

  ghost function LinkText(fs: FileSystem, inode: Inode): (text: seq<char>)
    requires IsLink(fs, inode)
    ensures NUL !in text
  {
    Text(fs.nodes[inode].target)
  }

  ghost predicate ValidLevel(fs: FileSystem, level: Level) {
    && IsLink(fs, level.inode)
    && level.pos <= |LinkText(fs, level.inode)|
  }

  ghost predicate ValidLevels(fs: FileSystem, levels: seq<Level>) {
    && |levels| <= SYMLOOP_MAX
    && forall i | 0 <= i < |levels| :: ValidLevel(fs, levels[i])
  }

  /** Where the next name of a level is resolved: reading the first byte of an
      absolute target moves to the root directory. */
  ghost function LevelStart(fs: FileSystem, level: Level, here: Location): Location
    requires ValidLevel(fs, level)
  {
    if level.pos == 0 then LinkStart(LinkText(fs, level.inode), here) else here
  }

  /** Finish the names a level has left. */
  ghost function FinishLevel(fs: FileSystem, level: Level, here: Location, depth: nat): Result<Location>
    requires ValidLevel(fs, level) && depth <= SYMLOOP_MAX
  {
    var text := LinkText(fs, level.inode);
    if level.inode in fs.badData then
      Err(EIO)
    else if text == [] then
      Err(ENOENT)
    else
      ResolveNames(fs, NamesFrom(text, level.pos), LevelStart(fs, level, here), depth)
  }

  /** Finish every level, innermost first. */
  ghost function FinishLevels(fs: FileSystem, levels: seq<Level>, here: Location): Result<Location>
    requires ValidLevels(fs, levels)
    decreases |levels|
  {
    if levels == [] then
      Ok(here)
    else
      var done :- FinishLevel(fs, levels[|levels| - 1], here, |levels|);
      FinishLevels(fs, levels[..|levels| - 1], done)
  }

  /** Finish the walk, the last name found having been followed already. */
  ghost function FinishParse(fs: FileSystem, levels: seq<Level>, names: seq<Name>, here: Location, flags: Flags): Result<Location>
    requires ValidLevels(fs, levels)
  {
    var done :- FinishLevels(fs, levels, here);
    ResolveFrom(fs, names, done, flags)
  }

  /** Finish the walk, the last name found having been looked up only. */
  ghost function FinishWalk(fs: FileSystem, levels: seq<Level>, names: seq<Name>, here: Location, flags: Flags): Result<Location>
    requires ValidLevels(fs, levels)
  {
    if levels == [] then
      ResolvePath(fs, names, here, flags)
    else
      var next :- Follow(fs, here, |levels|);
      FinishParse(fs, levels, names, next, flags)
  }

  /** Finish the walk, `name` being the next name to resolve. */
  ghost function FinishName(fs: FileSystem, name: Name, levels: seq<Level>, names: seq<Name>, here: Location, flags: Flags): Result<Location>
    requires ValidLevels(fs, levels)
  {
    var found :- ResolveName(fs, name, here, levels != [] || flags.lookupLast || names != []);
    FinishWalk(fs, levels, names, found, flags)
  }

  /** Where reading continues after the name `text[start..end]`: past the
      separator that ends it, if one does. */
  function AfterName(text: seq<char>, end: nat): nat {
    if At(text, end) == SEPARATOR then end + 1 else end
  }

  lemma NamesAfterName(text: seq<char>, end: nat)
    requires end <= |text| && NUL !in text
    ensures AfterName(text, end) <= |text|
    ensures NamesFrom(text, AfterName(text, end)) == NamesFrom(text, end)
  {
    if At(text, end) == SEPARATOR {
      SkipThrough(text, end, end + 1);
    }
  }

  /** Reading one name off the innermost level keeps what the walk yields. */
  lemma TakeName(fs: FileSystem, levels: seq<Level>, names: seq<Name>, here: Location, flags: Flags, start: nat, end: nat)
    requires ValidLevels(fs, levels) && levels != []
    requires levels[|levels| - 1].inode !in fs.badData
    requires var level := levels[|levels| - 1];
             var text := LinkText(fs, level.inode);
             && start == SkipSeparators(text, level.pos) < |text|
             && end == NameEnd(text, start)
             && end - start <= NAME_MAX
    ensures var last := |levels| - 1;
            var text := LinkText(fs, levels[last].inode);
            var levels' := levels[last := Level(levels[last].inode, AfterName(text, end))];
            && ValidLevels(fs, levels')
            && FinishParse(fs, levels, names, here, flags)
               == FinishName(fs, text[start..end], levels', names, LevelStart(fs, levels[last], here), flags)
  {
    var last := |levels| - 1;
    var level := levels[last];
    var text := LinkText(fs, level.inode);
    var levels' := levels[last := Level(level.inode, AfterName(text, end))];
    NamesAfterName(text, end);
    assert levels'[..last] == levels[..last];
    hide FinishLevel, NamesFrom, SkipSeparators, NameEnd, AfterName, LinkStart, ResolveName, ResolveNames, Follow, LevelStart;
    LevelTakesName(fs, level, here, |levels|, start, end);
  }

  /** A level resolves its next name, follows what that finds, and goes on. */
  lemma LevelTakesName(fs: FileSystem, level: Level, here: Location, depth: nat, start: nat, end: nat)
    requires ValidLevel(fs, level) && level.inode !in fs.badData && depth <= SYMLOOP_MAX
    requires var text := LinkText(fs, level.inode);
             && start == SkipSeparators(text, level.pos) < |text|
             && end == NameEnd(text, start)
             && end - start <= NAME_MAX
    ensures var text := LinkText(fs, level.inode);
            var level' := Level(level.inode, AfterName(text, end));
            && ValidLevel(fs, level')
            && FinishLevel(fs, level, here, depth) ==
                 var found :- ResolveName(fs, text[start..end], LevelStart(fs, level, here), true);
                 var next :- Follow(fs, found, depth);
                 FinishLevel(fs, level', next, depth)
  {
    var text := LinkText(fs, level.inode);
    NamesAfterName(text, end);
    FirstName(text, level.pos, start, end);
    hide NamesFrom, SkipSeparators, NameEnd, AfterName, LinkStart, ResolveName, Follow, Text;
  }

  lemma FirstName(text: seq<char>, pos: nat, start: nat, end: nat)
    requires pos <= |text| && NUL !in text && start == SkipSeparators(text, pos) < |text| && end == NameEnd(text, start)
    ensures start < end && NamesFrom(text, pos) == [text[start..end]] + NamesFrom(text, end)
    ensures NamesFrom(text, pos)[1..] == NamesFrom(text, end)
    ensures AfterName(text, end) > 0
  {
    assert end > start;
  }

  /** A name over the limit stops the walk. */
  lemma RejectName(fs: FileSystem, levels: seq<Level>, names: seq<Name>, here: Location, flags: Flags)
    requires ValidLevels(fs, levels) && levels != []
    requires levels[|levels| - 1].inode !in fs.badData
    requires var level := levels[|levels| - 1];
             var text := LinkText(fs, level.inode);
             var start := SkipSeparators(text, level.pos);
             start < |text| && NameEnd(text, start) - start > NAME_MAX
    ensures FinishParse(fs, levels, names, here, flags) == Err(ENAMETOOLONG)
  {
    var level := levels[|levels| - 1];
    var text := LinkText(fs, level.inode);
    var start := SkipSeparators(text, level.pos);
    assert |NamesFrom(text, level.pos)[0]| > NAME_MAX;
  }

  /** An exhausted level is left; an empty target is an error. */
  lemma LeaveLevel(fs: FileSystem, levels: seq<Level>, names: seq<Name>, here: Location, flags: Flags)
    requires ValidLevels(fs, levels) && levels != []
    requires levels[|levels| - 1].inode !in fs.badData
    requires var level := levels[|levels| - 1];
             var text := LinkText(fs, level.inode);
             SkipSeparators(text, level.pos) == |text|
    ensures var level := levels[|levels| - 1];
            FinishParse(fs, levels, names, here, flags)
            == if LinkText(fs, level.inode) == [] then
                 Err(ENOENT)
               else
                 FinishParse(fs, levels[..|levels| - 1], names, LevelStart(fs, level, here), flags)
  {
  }

  /** Entering a symbolic link is what following it starts with. */
  lemma EnterLevel(fs: FileSystem, levels: seq<Level>, names: seq<Name>, here: Location, flags: Flags, grandparent: Inode)
    requires ValidLevels(fs, levels) && |levels| < SYMLOOP_MAX
    requires here.inode != INODE_ROOTDIR && here.inode != INODE_INVALID && IsLink(fs, here.inode)
    requires fs.DirParent(here.parent) == Ok(grandparent)
    requires flags.noFollow ==> names != []
    ensures var levels' := levels + [Level(here.inode, 0)];
            && ValidLevels(fs, levels')
            && FinishWalk(fs, levels, names, here, flags)
               == FinishParse(fs, levels', names, Location(here.parent, grandparent), flags)
  {
    var level := Level(here.inode, 0);
    var levels' := levels + [level];
    assert levels'[..|levels|] == levels;
    var dir := Location(here.parent, grandparent);
    var depth := |levels|;
    assert Follow(fs, here, depth) == FinishLevel(fs, level, dir, depth + 1);
    var done := Follow(fs, here, depth);
    if levels == [] && done.Ok? {
      assert FinishLevels(fs, levels, done.value) == done;
    }
  }

  /** One read of a symbolic link: a name and the byte after it. */
  const READ_MAX: nat := NAME_MAX + 1

  ghost function Window(target: seq<char>, pos: nat): seq<char>
    requires pos <= |target|
  {
    target[pos..if |target| - pos < READ_MAX then |target| else pos + READ_MAX]
  }

  /** The buffer holds, from `at` on, the name at `start` of `text`, or its
      first READ_MAX bytes when it is longer than a name may be. */
  ghost predicate Loaded(buffer: seq<char>, at: nat, text: seq<char>, start: nat)
    requires NUL !in text
  {
    && start <= |text|
    && at <= |buffer|
    && var end := NameEnd(text, start);
       var stop := NameEnd(buffer, at);
       && stop < |buffer|
       && (end - start <= NAME_MAX ==>
             stop - at == end - start && buffer[at..stop] == text[start..end] && buffer[stop] == At(text, end))
       && (end - start > NAME_MAX ==> stop - at == READ_MAX)
  }

  /** Wherever the window falls, once it need not be read again it holds the
      name: either the name ends inside it, or the name is over the limit. */
  lemma WindowLoads(target: seq<char>, pos: nat, buffer: seq<char>, at: nat)
    requires pos <= |Text(target)|
    requires |buffer| == READ_MAX + 1
    requires var window := Window(target, pos);
             && at <= |window|
             && buffer[..|window|] == window && buffer[|window|] == NUL
             && (at == 0 || !(|window| == READ_MAX && NameEnd(buffer, at) == |window|))
    requires buffer[at] != SEPARATOR && forall k | 0 <= k < at :: buffer[k] == SEPARATOR
    ensures SkipSeparators(Text(target), pos) == pos + at
    ensures Loaded(buffer, at, Text(target), pos + at)
  {
    hide Loaded, NameEnd, Text, SkipSeparators;
    var text := Text(target);
    var window := Window(target, pos);
    assert forall k | pos <= k < pos + |window| :: target[k] == window[k - pos] == buffer[k - pos];
    WithinText(target, pos, at);
    assert forall k | pos <= k < pos + at :: text[k] == buffer[k - pos];
    SkipSeparatorsIs(text, pos, pos + at);
    NameInWindow(target, pos, buffer, at);
  }

  /** Separators read into the buffer are separators of the text. */
  lemma SeparatorsInText(target: seq<char>, pos: nat, buffer: seq<char>, count: nat)
    requires pos <= |Text(target)| && count <= |Window(target, pos)| < |buffer|
    requires buffer[..|Window(target, pos)|] == Window(target, pos)
    requires forall k | 0 <= k < count :: buffer[k] == SEPARATOR
    ensures pos + count <= |Text(target)|
    ensures forall k | pos <= k < pos + count :: Text(target)[k] == SEPARATOR
  {
    var window := Window(target, pos);
    assert forall k | pos <= k < pos + |window| :: target[k] == window[k - pos] == buffer[k - pos];
    WithinText(target, pos, count);
  }

  lemma NameInWindow(target: seq<char>, pos: nat, buffer: seq<char>, at: nat)
    requires |buffer| == READ_MAX + 1
    requires pos <= |target| && at <= |Window(target, pos)| && pos + at <= |Text(target)|
    requires var window := Window(target, pos);
             && (forall k | pos <= k < pos + |window| :: target[k] == buffer[k - pos])
             && buffer[|window|] == NUL
             && (at == 0 || !(|window| == READ_MAX && NameEnd(buffer, at) == |window|))
    ensures Loaded(buffer, at, Text(target), pos + at)
  {
    hide Text;
    var text := Text(target);
    var stop := NameEnd(buffer, at);
    assert stop <= |Window(target, pos)|;
    WithinText(target, pos + at, stop - at);
    assert forall k | pos + at <= k < pos + stop :: text[k] == buffer[k - pos];
    if stop < READ_MAX {
      StopByte(target, pos, buffer, stop);
      NameLoads(text, pos, buffer, at);
    } else {
      assert at == 0;
      LongName(text, pos, pos + stop);
    }
  }

  /** The byte that ends a name in the window is the one that ends it in the text. */
  lemma StopByte(target: seq<char>, pos: nat, buffer: seq<char>, stop: nat)
    requires pos + stop <= |Text(target)| && stop <= |Window(target, pos)| < |buffer|
    requires stop < READ_MAX && EndsName(buffer[stop])
    requires forall k | pos <= k < pos + |Window(target, pos)| :: target[k] == buffer[k - pos]
    requires buffer[|Window(target, pos)|] == NUL
    ensures At(Text(target), pos + stop) == buffer[stop]
  {
    if stop < |Window(target, pos)| {
      assert target[pos + stop] == buffer[stop];
    }
  }

  lemma NameLoads(text: seq<char>, pos: nat, buffer: seq<char>, at: nat)
    requires NUL !in text && at <= |buffer|
    requires var stop := NameEnd(buffer, at);
             && stop < READ_MAX < |buffer|
             && pos + stop <= |text|
             && (forall k | pos + at <= k < pos + stop :: text[k] == buffer[k - pos])
             && At(text, pos + stop) == buffer[stop]
    ensures Loaded(buffer, at, text, pos + at)
  {
    var stop := NameEnd(buffer, at);
    NameEndIs(text, pos + at, pos + stop);
    assert buffer[at..stop] == text[pos + at..pos + stop];
  }

  lemma LongName(text: seq<char>, start: nat, end: nat)
    requires start <= end <= |text|
    requires forall k | start <= k < end :: !EndsName(text[k])
    ensures NameEnd(text, start) >= end
  {
  }

  /** Bytes that are not NUL stay within the text. */
  lemma WithinText(target: seq<char>, pos: nat, count: nat)
    requires pos <= |Text(target)| && pos + count <= |target|
    requires forall k | pos <= k < pos + count :: target[k] != NUL
    ensures pos + count <= |Text(target)|
  {
  }

  /** What one pass of the read loop establishes: either it stepped over
      separators and must read again, or the next name is loaded. */
  ghost predicate WindowRead(text: seq<char>, pos: nat, nameIdx: nat, readLen: nat, retry: bool, buffer: seq<char>)
    requires pos <= |text| && NUL !in text
  {
    && pos + nameIdx <= |text|
    && (forall k | pos <= k < pos + nameIdx :: text[k] == SEPARATOR)
    && (retry ==> nameIdx > 0)
    && (!retry ==>
          && pos + nameIdx == SkipSeparators(text, pos)
          && Loaded(buffer, nameIdx, text, pos + nameIdx)
          && (readLen == 0 ==> pos + nameIdx == |text|))
  }

  lemma WindowReads(target: seq<char>, pos: nat, buffer: seq<char>, nameIdx: nat, readLen: nat, retry: bool)
    requires pos <= |Text(target)| && |buffer| == READ_MAX + 1
    requires readLen == |Window(target, pos)| && nameIdx <= readLen
    requires buffer[..readLen] == Window(target, pos) && buffer[readLen] == NUL
    requires buffer[nameIdx] != SEPARATOR && forall k | 0 <= k < nameIdx :: buffer[k] == SEPARATOR
    requires retry == (nameIdx > 0 && readLen == READ_MAX && NameEnd(buffer, nameIdx) == readLen)
    ensures WindowRead(Text(target), pos, nameIdx, readLen, retry, buffer)
    ensures nameIdx > 0 <==> At(Text(target), pos) == SEPARATOR
  {
    SeparatorsInText(target, pos, buffer, nameIdx);
    if nameIdx == 0 && pos < |Text(target)| {
      assert target[pos] == buffer[0];
    }
    if !retry {
      WindowLoads(target, pos, buffer, nameIdx);
    }
  }

  /** The buffer starts with NUL exactly when the text is used up. */
  lemma LoadedNothing(buffer: seq<char>, at: nat, text: seq<char>, pos: nat)
    requires NUL !in text && pos <= |text|
    requires Loaded(buffer, at, text, SkipSeparators(text, pos))
    ensures at < |buffer|
    ensures buffer[at] == NUL <==> SkipSeparators(text, pos) == |text|
  {
    var start := SkipSeparators(text, pos);
    if start < |text| {
      assert NameEnd(text, start) > start;
    }
  }

  lemma UnreadableLevel(fs: FileSystem, levels: seq<Level>, names: seq<Name>, here: Location, flags: Flags)
    requires ValidLevels(fs, levels) && levels != []
    requires levels[|levels| - 1].inode in fs.badData
    ensures FinishParse(fs, levels, names, here, flags) == Err(EIO)
  {
  }

  /** A loaded name is the name of the text, unless that is over the limit. */
  lemma LoadedName(buffer: seq<char>, at: nat, text: seq<char>, start: nat)
    requires NUL !in text && Loaded(buffer, at, text, start)
    requires at < |buffer| && buffer[at] != NUL && start < |text| && text[start] != SEPARATOR
    ensures var end := NameEnd(text, start);
            var stop := NameEnd(buffer, at);
            && at < stop < |buffer|
            && (end - start > NAME_MAX <==> stop - at > NAME_MAX)
            && (stop - at <= NAME_MAX ==>
                  && stop - at == end - start
                  && buffer[at..stop] == text[start..end]
                  && buffer[stop] == At(text, end))
  {
    assert NameEnd(text, start) > start;
  }
}
