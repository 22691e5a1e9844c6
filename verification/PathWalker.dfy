/** The path walk of posix/path.c: a loop over names, with a fixed stack of
    partly read symbolic links and a buffer holding one name at a time. */
module PathWalker {
  import opened Errors
  import opened Constants
  import opened Components
  import opened FileSystem
  import opened Resolver
  import opened PathMeaning

  /** SYMLINKCTX::bIdx is a byte; its largest value means "not in a link". */
  const SYMLINK_IDX_NONE: nat := 255

  /** Where the current name is: nowhere, in the path, or in the name buffer. */
  datatype NameRef = NoName | InPath(at: nat) | InBuffer(at: nat)

  /** No more than `levels` is left of `before`, save for one level entered or
      read further: what makes the walk terminate. */
  ghost predicate Advanced(before: seq<Level>, after: seq<Level>) {
    var top := |after| - 1;
    && 0 <= top <= |before|
    && after[..top] == before[..top]
    && (top < |before| ==> after[top].inode == before[top].inode && after[top].pos > before[top].pos)
  }

  /** The innermost level has been read further. */
  ghost predicate TopAdvanced(before: seq<Level>, after: seq<Level>) {
    var top := |after| - 1;
    && 0 <= top == |before| - 1
    && after[..top] == before[..top]
    && after[top].inode == before[top].inode
    && after[top].pos > before[top].pos
  }

  lemma TakenAdvances(before: seq<Level>, after: seq<Level>, text: seq<char>, start: nat)
    requires before != [] && start <= |text| && NUL !in text
    requires var top := |before| - 1;
             && before[top].pos <= start < |text| && !EndsName(text[start])
             && after == before[top := Level(before[top].inode, AfterName(text, NameEnd(text, start)))]
    ensures TopAdvanced(before, after)
  {
    assert after[..|before| - 1] == before[..|before| - 1];
  }

  lemma AdvancesFrom(before: seq<Level>, entered: seq<Level>, left: seq<Level>, after: seq<Level>)
    requires entered == before || (|entered| == |before| + 1 && entered[..|before|] == before)
    requires left <= entered && TopAdvanced(left, after)
    ensures Advanced(before, after)
  {
    var top := |after| - 1;
    assert left[..top] == entered[..top] == before[..top];
    if top < |before| {
      assert before[top] == entered[top] == left[top];
    }
  }

  ghost predicate IdleAt(levels: seq<Level>, k: nat) {
    k >= |levels|
  }

  /** How much of a link's text the level has left; 0 for an idle level. */
  ghost function LeftAt(fs: FileSystem, levels: seq<Level>, k: nat): nat {
    if k < |levels| && ValidLevel(fs, levels[k]) then
      |LinkText(fs, levels[k].inode)| - levels[k].pos
    else
      0
  }

  /** Reading on from some level, whatever happens above it, decreases the
      stack lexicographically; an idle level counts as more than any text. */
  lemma AdvancedDecreases(fs: FileSystem, before: seq<Level>, after: seq<Level>)
    requires ValidLevels(fs, before) && ValidLevels(fs, after) && Advanced(before, after)
    ensures (IdleAt(before, 0), LeftAt(fs, before, 0), IdleAt(before, 1), LeftAt(fs, before, 1),
             IdleAt(before, 2), LeftAt(fs, before, 2), IdleAt(before, 3), LeftAt(fs, before, 3),
             IdleAt(before, 4), LeftAt(fs, before, 4), IdleAt(before, 5), LeftAt(fs, before, 5),
             IdleAt(before, 6), LeftAt(fs, before, 6), IdleAt(before, 7), LeftAt(fs, before, 7)
             decreases to
             IdleAt(after, 0), LeftAt(fs, after, 0), IdleAt(after, 1), LeftAt(fs, after, 1),
             IdleAt(after, 2), LeftAt(fs, after, 2), IdleAt(after, 3), LeftAt(fs, after, 3),
             IdleAt(after, 4), LeftAt(fs, after, 4), IdleAt(after, 5), LeftAt(fs, after, 5),
             IdleAt(after, 6), LeftAt(fs, after, 6), IdleAt(after, 7), LeftAt(fs, after, 7))
  {
    var top := |after| - 1;
    assert forall k | 0 <= k < top :: after[k] == after[..top][k] == before[k];
    assert ValidLevel(fs, after[top]);
    if top < |before| {
      assert ValidLevel(fs, before[top]);
    }
    assert forall k | 0 <= k < top :: LeftAt(fs, after, k) == LeftAt(fs, before, k);
  }

  /** `at` is where the last of the first `taken` names of `path` starts. */
  ghost predicate StartsName(path: seq<char>, at: nat, taken: nat)
    requires NUL !in path
  {
    if taken == 0 then
      at == 0
    else
      && at < |path| && path[at] != SEPARATOR
      && taken <= |Names(path)| && NamesFrom(path, at) == Names(path)[taken - 1..]
  }

  ghost predicate StartsLastName(path: seq<char>, at: nat)
    requires NUL !in path
  {
    StartsName(path, at, |Names(path)|)
  }

  lemma StartsNext(path: seq<char>, at: nat, taken: nat, ahead: seq<Name>)
    requires NUL !in path && taken < |Names(path)| && ahead == Names(path)[taken..]
    requires at < |path| && path[at] != SEPARATOR && NamesFrom(path, at) == ahead
    ensures StartsName(path, at, taken + 1)
    ensures ahead[1..] == Names(path)[taken + 1..]
  {
  }

  class Walker {
    const fs: FileSystem
    const path: seq<char>
    const flags: Flags
    var lastName: nat
    var name: NameRef
    var pathIdx: nat
    var inode: Inode
    var parent: Inode
    var bIdx: nat
    const stack: array<Level>
    const szName: array<char>

    ghost predicate Valid()
      reads this, stack, szName
    {
      && stack.Length == SYMLOOP_MAX
      && szName.Length == NAME_MAX + 2
      && NUL !in path
      && pathIdx <= |path|
      && (bIdx == SYMLINK_IDX_NONE || bIdx < SYMLOOP_MAX)
      && ValidLevels(fs, Levels())
      && ValidName()
    }

    ghost predicate ValidName()
      reads this, stack, szName
      requires pathIdx <= |path| && NUL !in path
    {
      match name
      case NoName => true
      case InPath(at) => at < |path| && !EndsName(path[at])
      case InBuffer(at) =>
        && at <= szName.Length
        && at < NameEnd(szName[..], at) < szName.Length
    }

    ghost function Levels(): seq<Level>
      reads this, stack
    {
      if bIdx < stack.Length then stack[..bIdx + 1] else []
    }

    ghost function Here(): Location
      reads this
    {
      Location(inode, parent)
    }

    /** The names of the path not yet reached. */
    ghost function Ahead(): seq<Name>
      requires pathIdx <= |path| && NUL !in path
      reads this
    {
      NamesFrom(path, pathIdx)
    }

    function TheName(): Name
      requires Valid() && !name.NoName?
      reads this, stack, szName
    {
      match name
      case InPath(at) => path[at..NameEnd(path, at)]
      case InBuffer(at) => szName[at..NameEnd(szName[..], at)]
    }

    /** Flags never stop the walk inside a link, nor right at one. */
    ghost predicate MayFollow()
      requires Valid()
      reads this, stack, szName
    {
      var more := Ahead() != [];
      && (Levels() != [] ==> inode != INODE_INVALID && (flags.lookupLast || more) && (flags.noFollow ==> more))
      && (inode != INODE_INVALID && IsLink(fs, inode) ==> flags.lookupLast || more)
      && (inode == INODE_INVALID ==> !more)
    }

    constructor (fs: FileSystem, dir: Inode, path: seq<char>, flags: Flags)
      requires NUL !in path
      ensures Valid() && Levels() == [] && name == NoName && pathIdx == 0 && lastName == 0
      ensures inode == dir && this.fs == fs && this.path == path && this.flags == flags
      ensures fresh(stack) && fresh(szName)
    {
      this.fs := fs;
      this.path := path;
      this.flags := flags;
      lastName := 0;
      name := NoName;
      pathIdx := 0;
      inode := dir;
      parent := INODE_INVALID;
      bIdx := SYMLINK_IDX_NONE;
      stack := new Level[SYMLOOP_MAX](_ => Level(INODE_INVALID, 0));
      szName := new char[NAME_MAX + 2](_ => NUL);
    }

    /** RedNameLen() on a name in the buffer. */
    method NameLength(at: nat) returns (length: nat)
      requires at < szName.Length
      requires exists k :: at <= k < szName.Length && EndsName(szName[k])
      ensures at + length == NameEnd(szName[..], at) < szName.Length
    {
      length := 0;
      while szName[at + length] != NUL && szName[at + length] != SEPARATOR
        invariant at + length < szName.Length
        invariant forall k | at <= k < at + length :: !EndsName(szName[k])
        decreases szName.Length - at - length
      {
        length := length + 1;
      }
      NameEndIs(szName[..], at, at + length);
    }

    method PathHasMoreComponents() returns (more: bool)
      requires pathIdx <= |path| && NUL !in path
      ensures more == (Ahead() != [])
    {
      var i := pathIdx;
      while At(path, i) == SEPARATOR
        invariant pathIdx <= i <= |path|
        invariant forall k | pathIdx <= k < i :: path[k] == SEPARATOR
        decreases |path| - i
      {
        i := i + 1;
      }
      SkipSeparatorsIs(path, pathIdx, i);
      more := At(path, i) != NUL;
    }

    method SkipInBuffer(readLen: nat) returns (nameIdx: nat)
      requires 0 < readLen < szName.Length && szName[0] == SEPARATOR && szName[readLen] == NUL
      ensures 0 < nameIdx <= readLen && szName[nameIdx] != SEPARATOR
      ensures forall k | 0 <= k < nameIdx :: szName[k] == SEPARATOR
    {
      nameIdx := 1;
      while szName[nameIdx] == SEPARATOR
        invariant 0 < nameIdx <= readLen
        invariant forall k | 0 <= k < nameIdx :: szName[k] == SEPARATOR
        decreases readLen - nameIdx
      {
        nameIdx := nameIdx + 1;
      }
    }

    /** The innermost level of the stack. */
    method Top() returns (level: Level)
      requires Valid() && bIdx != SYMLINK_IDX_NONE
      ensures |Levels()| == bIdx + 1 && level == Levels()[bIdx] == stack[bIdx]
      ensures ValidLevel(fs, level)
    {
      level := stack[bIdx];
      assert level == Levels()[bIdx];
    }

    /** Move the innermost level to a new position. */
    method SetTop(pos: nat)
      requires Valid() && bIdx != SYMLINK_IDX_NONE
      requires ValidLevel(fs, Level(stack[bIdx].inode, pos))
      modifies stack
      ensures Valid()
      ensures |old(Levels())| == bIdx + 1
      ensures Levels() == old(Levels())[bIdx := Level(old(stack[bIdx]).inode, pos)]
    {
      stack[bIdx] := stack[bIdx].(pos := pos);
      assert Levels() == old(Levels())[bIdx := stack[bIdx]];
    }

    /** Read from a symbolic link into the buffer, and terminate it. */
    method FillBuffer(level: Level) returns (status: Status, readLen: nat)
      requires szName.Length == NAME_MAX + 2 && ValidLevel(fs, level)
      modifies szName
      ensures status == if level.inode in fs.badData then Failure(EIO) else Success
      ensures status.Success? ==>
                && level.pos <= |fs.nodes[level.inode].target|
                && readLen == |Window(fs.nodes[level.inode].target, level.pos)| <= READ_MAX
                && szName[..readLen] == Window(fs.nodes[level.inode].target, level.pos)
                && szName[readLen] == NUL
    {
      var data := fs.ReadLink(level.inode, level.pos, NAME_MAX + 1);
      if data.Err? {
        return Failure(data.error), 0;
      }
      readLen := |data.value|;
      forall i | 0 <= i < readLen {
        szName[i] := data.value[i];
      }
      szName[readLen] := NUL;
      assert szName[..readLen] == data.value;
      status := Success;
    }

    /** The separators that a link's text starts with take the walk to the root. */
    method FromRoot(pos: nat)
      requires Valid()
      modifies this`inode, this`parent
      ensures Valid() && Levels() == old(Levels())
      ensures Here() == if pos == 0 then Location(INODE_ROOTDIR, INODE_INVALID) else old(Here())
    {
      if pos == 0 {
        parent := INODE_INVALID;
        inode := INODE_ROOTDIR;
      }
    }

    /** One pass of the read loop of SymlinkNext(): fill the buffer at the
        level's position, step over leading separators, and tell whether the
        name must be read again. */
    method ReadWindow(level: Level) returns (status: Status, readLen: nat, nameIdx: nat, retry: bool)
      requires Valid() && name == NoName && bIdx != SYMLINK_IDX_NONE
      requires ValidLevel(fs, level) && level == stack[bIdx]
      modifies this`inode, this`parent, stack, szName
      ensures Valid()
      ensures |old(Levels())| == bIdx + 1
      ensures status == if level.inode in fs.badData then Failure(EIO) else Success
      ensures status.Failure? ==> !retry
      ensures status.Success? ==>
                && WindowRead(LinkText(fs, level.inode), level.pos, nameIdx, readLen, retry, szName[..])
                && Levels() == old(Levels())[bIdx := Level(level.inode, level.pos + nameIdx)]
                && Here() == LevelStart(fs, level, old(Here()))
    {
      hide Loaded, SkipSeparators, NameEnd, Text, Window, WindowRead, ValidLevels;
      nameIdx, retry := 0, false;
      assert level == Levels()[bIdx];
      status, readLen := FillBuffer(level);
      if status.Failure? {
        return;
      }
      ghost var target := fs.nodes[level.inode].target;
      if readLen > 0 && szName[0] == SEPARATOR {
        FromRoot(level.pos);
        nameIdx := SkipInBuffer(readLen);
        SeparatorsInText(target, level.pos, szName[..], nameIdx);
        SetTop(level.pos + nameIdx);
        if readLen == NAME_MAX + 1 {
          var length := NameLength(nameIdx);
          retry := nameIdx + length == readLen;
        }
      }
      WindowReads(target, level.pos, szName[..], nameIdx, readLen, retry);
    }

    /** The read loop of SymlinkNext(): load the next name of the innermost
        link, however many separators precede it. */
    method ReadName(level: Level) returns (status: Status, readLen: nat, nameIdx: nat)
      requires Valid() && name == NoName && bIdx != SYMLINK_IDX_NONE
      requires ValidLevel(fs, level) && level == stack[bIdx]
      modifies this`inode, this`parent, stack, szName
      ensures Valid()
      ensures |old(Levels())| == bIdx + 1
      ensures status == if level.inode in fs.badData then Failure(EIO) else Success
      ensures status.Success? ==>
                var text := LinkText(fs, level.inode);
                var start := SkipSeparators(text, level.pos);
                && Levels() == old(Levels())[bIdx := Level(level.inode, start)]
                && Here() == LevelStart(fs, level, old(Here()))
                && Loaded(szName[..], nameIdx, text, start)
                && (readLen == 0 ==> start == |text|)
    {
      hide Loaded, SkipSeparators, NameEnd, Text;
      ghost var text := LinkText(fs, level.inode);
      var here := level;
      var retry := true;
      assert level == Levels()[bIdx];
      status, readLen, nameIdx := Success, 0, 0;
      while retry && status.Success?
        invariant Valid() && |old(Levels())| == bIdx + 1
        invariant level.pos <= here.pos <= |text| && here.inode == level.inode
        invariant status.Success? ==> Levels() == old(Levels())[bIdx := here]
        invariant status.Success? ==> Here() == if here.pos == level.pos && retry then old(Here()) else LevelStart(fs, level, old(Here()))
        invariant forall k | level.pos <= k < here.pos :: text[k] == SEPARATOR
        invariant status == if !retry && level.inode in fs.badData then Failure(EIO) else Success
        invariant !retry && status.Success? ==>
                    && here.pos == SkipSeparators(text, level.pos)
                    && Loaded(szName[..], nameIdx, text, here.pos)
                    && (readLen == 0 ==> here.pos == |text|)
        decreases |text| - here.pos, retry
      {
        assert here == Levels()[bIdx];
        SkipThrough(text, level.pos, here.pos);
        status, readLen, nameIdx, retry := ReadWindow(here);
        if status.Success? {
          here := Level(here.inode, here.pos + nameIdx);
        }
      }
    }

    /** Flags never stop the walk inside a link. */
    ghost predicate LinksContinue()
      requires Valid()
      reads this, stack, szName
    {
      Levels() != [] ==> (flags.lookupLast || Ahead() != []) && (flags.noFollow ==> Ahead() != [])
    }

    /** What the rest of the walk yields, before the last name found is followed. */
    ghost function ToWalk(): Result<Location>
      requires Valid()
      reads this, stack, szName
    {
      FinishWalk(fs, Levels(), Ahead(), Here(), flags)
    }

    /** What the rest of the walk yields, once it has been followed. */
    ghost function ToParse(): Result<Location>
      requires Valid()
      reads this, stack, szName
    {
      FinishParse(fs, Levels(), Ahead(), Here(), flags)
    }

    /** What the rest of the walk yields, the next name having been found. */
    ghost function ToFollow(): Result<Location>
      requires Valid() && !name.NoName?
      reads this, stack, szName
    {
      FinishName(fs, TheName(), Levels(), Ahead(), Here(), flags)
    }

    /** The first half of SymlinkNext(): if the last name found is a symbolic
        link to be followed, push it and step back to its directory. */
    method EnterLink() returns (status: Status)
      requires Valid() && name == NoName && inode != INODE_INVALID && MayFollow()
      modifies this`inode, this`parent, this`bIdx, stack
      ensures status.Failure? ==> old(ToWalk()) == Err(status.error)
      ensures status.Success? ==> Valid() && LinksContinue()
      ensures status.Success? ==> old(ToWalk()) == ToParse()
      ensures status.Success? ==> Levels() == old(Levels()) || Levels() == old(Levels()) + [Level(old(inode), 0)]
    {
      status := Success;
      if inode != INODE_ROOTDIR {
        var node := fs.Stat(inode);
        if node.Err? {
          return Failure(node.error);
        }
        if node.value.Symlink? {
          var follow := true;
          if flags.noFollow {
            follow := PathHasMoreComponents();
          }
          if follow {
            status := PushLink();
          }
        }
      }
    }

    method PushLink() returns (status: Status)
      requires Valid() && name == NoName && MayFollow()
      requires inode != INODE_INVALID && inode != INODE_ROOTDIR && IsLink(fs, inode)
      requires flags.noFollow ==> Ahead() != []
      modifies this`inode, this`parent, this`bIdx, stack
      ensures status.Failure? ==> old(ToWalk()) == Err(status.error)
      ensures status.Success? ==> Valid() && LinksContinue()
      ensures status == Failure(ELOOP) <==> |old(Levels())| == SYMLOOP_MAX
      ensures status.Success? ==> Levels() == old(Levels()) + [Level(old(inode), 0)]
      ensures status.Success? ==> old(ToWalk()) == ToParse()
    {
      ghost var levels := Levels();
      bIdx := (bIdx + 1) % 256;
      if bIdx >= stack.Length {
        return Failure(ELOOP);
      }
      stack[bIdx] := Level(inode, 0);
      inode := parent;
      var grandparent := fs.DirParent(inode);
      if grandparent.Err? {
        return Failure(grandparent.error);
      }
      parent := grandparent.value;
      assert Levels() == levels + [Level(old(inode), 0)];
      EnterLevel(fs, levels, Ahead(), old(Here()), flags, parent);
      status := Success;
    }

    /** One turn of the loop of SymlinkNext(): take the next name of the
        innermost link, or leave the link if it is exhausted. */
    method TakeOrLeave() returns (status: Status)
      requires Valid() && name == NoName && bIdx != SYMLINK_IDX_NONE && LinksContinue()
      modifies this`inode, this`parent, this`bIdx, this`name, stack, szName
      ensures status.Failure? ==> old(ToParse()) == Err(status.error)
      ensures status.Success? ==> Valid() && LinksContinue()
      ensures status.Success? && name.NoName? ==> old(ToParse()) == ToParse() && Levels() < old(Levels())
      ensures status.Success? && !name.NoName? ==>
                name.InBuffer? && Levels() != [] && old(ToParse()) == ToFollow() && TopAdvanced(old(Levels()), Levels())
    {
      hide Loaded, SkipSeparators, NameEnd, Text, FinishName, FinishParse, FinishLevels, TopAdvanced, NamesFrom;
      ghost var levels := Levels();
      ghost var here := Here();
      var level := Top();
      var readLen, nameIdx;
      status, readLen, nameIdx := ReadName(level);
      if status.Failure? {
        UnreadableLevel(fs, levels, Ahead(), here, flags);
        return;
      }
      LoadedNothing(szName[..], nameIdx, LinkText(fs, level.inode), level.pos);
      if readLen == 0 || szName[nameIdx] == NUL {
        LeaveLevel(fs, levels, Ahead(), here, flags);
        status := LeaveLink(levels);
      } else {
        ghost var text := LinkText(fs, level.inode);
        ghost var start := SkipSeparators(text, level.pos);
        assert Levels()[bIdx] == Level(level.inode, start) == stack[bIdx];
        status := TakeFromBuffer(nameIdx, text, start);
        if status.Failure? {
          RejectName(fs, levels, Ahead(), here, flags);
        } else {
          TakeName(fs, levels, Ahead(), here, flags, start, NameEnd(text, start));
          TakenAdvances(levels, Levels(), text, start);
        }
      }
    }

    /** The innermost link is exhausted: an empty one is an error. */
    method LeaveLink(ghost levels: seq<Level>) returns (status: Status)
      requires Valid() && name == NoName && bIdx != SYMLINK_IDX_NONE && |levels| == bIdx + 1
      requires Levels() == levels[bIdx := stack[bIdx]]
      modifies this`bIdx
      ensures status == if old(stack[bIdx]).pos == 0 then Failure(ENOENT) else Success
      ensures status.Success? ==> Valid() && Levels() == levels[..|levels| - 1]
    {
      if stack[bIdx].pos == 0 {
        return Failure(ENOENT);
      }
      bIdx := (bIdx + 255) % 256;
      status := Success;
      assert Levels() == levels[..|levels| - 1];
    }

    /** The next name is in the buffer: refuse it if it is too long, otherwise
        make it the current name and move the link past it. */
    method TakeFromBuffer(nameIdx: nat, ghost text: seq<char>, ghost start: nat) returns (status: Status)
      requires Valid() && name == NoName && bIdx != SYMLINK_IDX_NONE
      requires text == LinkText(fs, Levels()[bIdx].inode)
      requires start == stack[bIdx].pos < |text|
      requires Loaded(szName[..], nameIdx, text, start)
      requires nameIdx < szName.Length && szName[nameIdx] != NUL && text[start] != SEPARATOR
      modifies this`name, stack
      ensures status == if NameEnd(text, start) - start > NAME_MAX then Failure(ENAMETOOLONG) else Success
      ensures status.Success? ==> Valid() && name.InBuffer? && |old(Levels())| == bIdx + 1
      ensures status.Success? ==> TheName() == text[start..NameEnd(text, start)]
      ensures status.Success? ==>
                Levels() == old(Levels())[bIdx := Level(old(stack[bIdx]).inode, AfterName(text, NameEnd(text, start)))]
    {
      ghost var buffer := szName[..];
      ghost var end := NameEnd(text, start);
      LoadedName(buffer, nameIdx, text, start);
      hide Loaded, NameEnd, Text, SkipSeparators;
      var length := NameLength(nameIdx);
      if length > NAME_MAX {
        return Failure(ENAMETOOLONG);
      }
      var next := stack[bIdx].pos + length;
      if szName[nameIdx + length] == SEPARATOR {
        next := next + 1;
      }
      assert next == AfterName(text, end);
      NamesAfterName(text, end);
      PointAt(next, nameIdx);
      status := Success;
    }

    /** Make the name at `nameIdx` of the buffer the current one. */
    method PointAt(pos: nat, nameIdx: nat)
      requires Valid() && bIdx != SYMLINK_IDX_NONE && ValidLevel(fs, Level(stack[bIdx].inode, pos))
      requires nameIdx <= szName.Length && nameIdx < NameEnd(szName[..], nameIdx) < szName.Length
      modifies this`name, stack
      ensures Valid() && name == InBuffer(nameIdx) && |old(Levels())| == bIdx + 1
      ensures Levels() == old(Levels())[bIdx := Level(old(stack[bIdx]).inode, pos)]
    {
      hide NameEnd;
      SetTop(pos);
      name := InBuffer(nameIdx);
    }

    /** SymlinkNext(): the next name of a symbolic link, if there is one. */
    method SymlinkNext() returns (status: Status)
      requires Valid() && name == NoName && inode != INODE_INVALID && MayFollow()
      modifies this`inode, this`parent, this`bIdx, this`name, stack, szName
      ensures status.Failure? ==> old(ToWalk()) == Err(status.error)
      ensures status.Success? ==> Valid() && LinksContinue()
      ensures status.Success? && name.NoName? ==> Levels() == [] && old(ToWalk()) == ToParse()
      ensures status.Success? && !name.NoName? ==>
                name.InBuffer? && Levels() != [] && old(ToWalk()) == ToFollow() && Advanced(old(Levels()), Levels())
    {
      hide FinishName, FinishParse, FinishLevels, TopAdvanced, Advanced;
      ghost var whole := ToWalk();
      status := EnterLink();
      ghost var entered := Levels();
      while status.Success? && bIdx != SYMLINK_IDX_NONE && name == NoName
        invariant status.Success? ==> Valid() && LinksContinue()
        invariant status.Failure? ==> whole == Err(status.error)
        invariant status.Success? && name.NoName? ==> whole == ToParse() && Levels() <= entered
        invariant status.Success? && !name.NoName? ==>
                    name.InBuffer? && Levels() != [] && whole == ToFollow() && Advanced(old(Levels()), Levels())
        decreases if status.Success? && name.NoName? then 1 + |Levels()| else 0
      {
        ghost var levels := Levels();
        status := TakeOrLeave();
        if status.Success? && !name.NoName? {
          AdvancesFrom(old(Levels()), entered, levels, Levels());
        }
      }
    }

    /** PathWalkNext(): the next name, from the innermost link or the path. */
    method PathWalkNext() returns (status: Status)
      requires Valid() && MayFollow()
      modifies this, stack, szName
      ensures status.Failure? ==> old(ToWalk()) == Err(status.error)
      ensures status.Success? ==> Valid() && LinksContinue()
      ensures status.Success? && name.NoName? ==> Levels() == [] && Ahead() == [] && old(ToWalk()) == Ok(Here())
      ensures status.Success? && !name.NoName? ==> old(ToWalk()) == ToFollow()
      ensures status.Success? && !name.InPath? ==>
                pathIdx >= old(pathIdx) && Ahead() == old(Ahead()) && lastName == old(lastName)
      ensures status.Success? && name.InBuffer? ==>
                pathIdx == old(pathIdx) && Advanced(old(Levels()), Levels())
      ensures status.Success? && name.InPath? ==>
                && pathIdx > old(pathIdx) && lastName < |path| && path[lastName] != SEPARATOR
                && old(Ahead()) != [] && Ahead() == old(Ahead())[1..]
                && NamesFrom(path, lastName) == old(Ahead())
    {
      hide FinishName, FinishParse, FinishLevels, Advanced, NamesFrom;
      ghost var whole := ToWalk();
      if inode == INODE_INVALID {
        assert whole == Ok(Here());
        name := NoName;
        return Success;
      }
      hide FinishWalk;
      name := NoName;
      assert ToWalk() == whole;
      status := SymlinkNext();
      if status.Success? && name == NoName {
        TakeFromPath();
        assert !name.NoName? ==> ToFollow() == whole;
      }
    }

    /** The second half of PathWalkNext(): the next name of the path itself. */
    method TakeFromPath()
      requires Valid() && name == NoName && Levels() == []
      modifies this`pathIdx, this`name, this`lastName
      ensures Valid()
      ensures name.NoName? ==> Ahead() == old(Ahead()) == [] && lastName == old(lastName)
      ensures name.NoName? ==> pathIdx >= old(pathIdx) && old(ToParse()) == Ok(Here())
      ensures !name.NoName? ==>
                && name.InPath? && old(ToParse()) == ToFollow()
                && pathIdx > old(pathIdx) && lastName < |path| && path[lastName] != SEPARATOR
                && old(Ahead()) != [] && Ahead() == old(Ahead())[1..]
                && NamesFrom(path, lastName) == old(Ahead())
    {
      ghost var names := Ahead();
      var i := pathIdx;
      while At(path, i) == SEPARATOR
        invariant pathIdx <= i <= |path|
        invariant forall k | pathIdx <= k < i :: path[k] == SEPARATOR
        decreases |path| - i
      {
        i := i + 1;
      }
      SkipThrough(path, pathIdx, i);
      pathIdx := i;
      if At(path, i) != NUL {
        name := InPath(i);
        lastName := i;
        pathIdx := NameEnd(path, i);
        assert names == [path[i..pathIdx]] + Ahead();
        assert names[1..] == Ahead();
      }
    }

    /** The character `k` places into the current name. */
    function CharAt(k: nat): char
      requires Valid() && !name.NoName?
      reads this, stack, szName
    {
      match name
      case InPath(at) => At(path, at + k)
      case InBuffer(at) => At(szName[..], at + k)
    }

    method IsDotName() returns (dot: bool)
      requires Valid() && !name.NoName?
      ensures dot == IsDot(TheName())
    {
      dot := CharAt(0) == '.' && (CharAt(1) == NUL || CharAt(1) == SEPARATOR);
      DotNames(if name.InPath? then path else szName[..], name.at);
    }

    method IsDotDotName() returns (dotDot: bool)
      requires Valid() && !name.NoName?
      ensures dotDot == IsDotDot(TheName())
    {
      dotDot := CharAt(0) == '.' && CharAt(1) == '.' && (CharAt(2) == NUL || CharAt(2) == SEPARATOR);
      DotNames(if name.InPath? then path else szName[..], name.at);
    }

    /** PathWalkFollow(): step to the current name. */
    method PathWalkFollow() returns (status: Status)
      requires Valid() && !name.NoName? && LinksContinue()
      modifies this`inode, this`parent
      ensures status.Failure? ==> old(ToFollow()) == Err(status.error)
      ensures status.Success? ==> Valid() && MayFollow() && old(ToFollow()) == ToWalk()
    {
      hide FinishWalk, NamesFrom;
      var dot := IsDotName();
      var dotDot := IsDotDotName();
      if dot {
        var node := fs.SearchableDirectory(inode);
        status := if node.Err? then Failure(node.error) else Success;
      } else if dotDot {
        status := StepUp();
      } else {
        status := StepDown();
      }
    }

    method StepDown() returns (status: Status)
      requires Valid() && !name.NoName? && LinksContinue() && !IsDot(TheName()) && !IsDotDot(TheName())
      modifies this`inode, this`parent
      ensures status.Failure? ==> old(ToFollow()) == Err(status.error)
      ensures status.Success? ==> Valid() && MayFollow() && old(ToFollow()) == ToWalk()
    {
      hide FinishWalk, NamesFrom, NameEnd, Text;
      ghost var name := TheName();
      parent := inode;
      var lookup := true;
      if !flags.lookupLast {
        lookup := PathHasMoreComponents();
      }
      if lookup {
        var found := fs.Lookup(parent, TheName());
        if found.Err? {
          return Failure(found.error);
        }
        inode := found.value;
      } else {
        inode := INODE_INVALID;
      }
      status := Success;
    }

    method StepUp() returns (status: Status)
      requires Valid() && !name.NoName? && LinksContinue() && IsDotDot(TheName())
      modifies this`inode, this`parent
      ensures status.Failure? ==> old(ToFollow()) == Err(status.error)
      ensures status.Success? ==> Valid() && MayFollow() && old(ToFollow()) == ToWalk()
    {
      hide FinishWalk, NamesFrom;
      var node := fs.SearchableDirectory(inode);
      if node.Err? {
        return Failure(node.error);
      }
      if inode != INODE_ROOTDIR {
        inode := parent;
      }
      var up := fs.DirParent(inode);
      if up.Err? {
        return Failure(up.error);
      }
      parent := up.value;
      status := Success;
    }

    /** The main loop of PathWalk().  It ends because each turn takes a name
        off the path, or off some link on the stack while leaving the links
        below it alone; entering a link only adds a level. */
    method Run() returns (status: Status)
      requires Valid() && MayFollow() && Levels() == [] && pathIdx == 0 && lastName == 0 && name == NoName
      modifies this, stack, szName
      ensures status.Failure? ==> old(ToWalk()) == Err(status.error)
      ensures status.Success? ==> old(ToWalk()) == Ok(Here()) && StartsLastName(path, lastName)
    {
      hide FinishName, FinishWalk, FinishParse, FinishLevels, NamesFrom, Advanced, IdleAt, LeftAt, ValidLevels, ValidName, MayFollow, NameEnd, Resolve, ResolvePath;
      assert StartsName(path, lastName, 0);
      hide StartsName;
      ghost var whole := ToWalk();
      ghost var names := Names(path);
      ghost var taken := 0;
      ghost var held, ahead := Levels(), |path|;
      status := Success;
      while status.Success?
        invariant status.Failure? ==> whole == Err(status.error)
        invariant status.Success? ==> Valid() && MayFollow() && whole == ToWalk()
        invariant status.Success? ==> held == Levels() && ahead == |path| - pathIdx
        invariant status.Success? ==> taken <= |names| && Ahead() == names[taken..]
        invariant status.Success? ==> StartsName(path, lastName, taken)
        decreases status.Success?, ahead,
                  IdleAt(held, 0), LeftAt(fs, held, 0), IdleAt(held, 1), LeftAt(fs, held, 1),
                  IdleAt(held, 2), LeftAt(fs, held, 2), IdleAt(held, 3), LeftAt(fs, held, 3),
                  IdleAt(held, 4), LeftAt(fs, held, 4), IdleAt(held, 5), LeftAt(fs, held, 5),
                  IdleAt(held, 6), LeftAt(fs, held, 6), IdleAt(held, 7), LeftAt(fs, held, 7)
      {
        status := PathWalkNext();
        if status.Success? {
          if name == NoName {
            break;
          }
          if name.InPath? {
            StartsNext(path, lastName, taken, names[taken..]);
            taken := taken + 1;
          } else {
            AdvancedDecreases(fs, held, Levels());
          }
          held, ahead := Levels(), |path| - pathIdx;
          status := PathWalkFollow();
        }
      }
    }
  }

  /** What a successful walk hands back. */
  datatype Walked = Walked(parent: Inode, lastName: nat, inode: Inode)

  /** What PathWalk() is to return, by resolving the names of the path. */
  ghost predicate WalkResult(result: Result<Walked>, fs: FileSystem, dir: Inode, path: seq<char>, noFollow: bool,
                             rootDirError: Status, wantParent: bool, wantInode: bool)
    requires NUL !in path
  {
    if dir == INODE_INVALID || (wantParent && rootDirError.Success?) then
      result == Err(EINVAL)
    else
      match Resolve(fs, dir, path, Flags(wantInode, noFollow))
      case Err(error) => result == Err(error)
      case Ok(location) =>
        if wantParent && location.parent == INODE_INVALID then
          result == Err(rootDirError.error)
        else
          && result.Ok?
          && Location(result.value.inode, result.value.parent) == location
          && StartsLastName(path, result.value.lastName)
  }

  /** PathWalk().  A caller that passes no parent or inode pointer is
      `!wantParent` or `!wantInode`; a `rootDirError` of zero is `Success`. */
  method PathWalk(fs: FileSystem, dir: Inode, path: seq<char>, noFollow: bool,
                  rootDirError: Status, wantParent: bool, wantInode: bool)
    returns (result: Result<Walked>)
    requires NUL !in path
    ensures WalkResult(result, fs, dir, path, noFollow, rootDirError, wantParent, wantInode)
  {
    if dir == INODE_INVALID || (wantParent && rootDirError.Success?) {
      return Err(EINVAL);
    }
    var w := new Walker(fs, dir, path, Flags(wantInode, noFollow));
    var parent := fs.DirParent(w.inode);
    if parent.Err? {
      return Err(parent.error);
    }
    w.parent := parent.value;
    var status := w.Run();
    if status.Failure? {
      return Err(status.error);
    }
    if wantParent && w.parent == INODE_INVALID {
      return Err(rootDirError.error);
    }
    result := Ok(Walked(w.parent, w.lastName, w.inode));
  }
}
