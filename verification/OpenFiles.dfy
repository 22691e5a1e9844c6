/** Handles, open inodes, tasks and mounts: the state of posix/posix.c. */
module OpenFiles {
  import opened Errors
  import opened Constants
  import opened References
  import opened Descriptors

  /** REDCONF_TASK_COUNT. */
  type TaskCount = n: nat | 1 <= n witness 1
  const TASK_COUNT: TaskCount
  const OPEN_INODE_COUNT: nat := HANDLE_COUNT + TASK_COUNT

  /** REDHANDLE: the open inode it points to, -1 if the handle is free. */
  datatype Handle = Handle(slot: int, directory: bool, symlink: bool)

  /** TASKSLOT: the owner, 0 if the slot is free, and the working directory. */
  datatype Task = Task(id: nat, cwd: int)

  datatype Mount = Mount(mounted: bool, readOnly: bool, generation: nat)

  /** What RedCoreFreeOrphan() was called for. */
  datatype Orphan = Orphan(vol: nat, inode: nat)

  ghost function Pointers(handles: seq<Handle>, tasks: seq<Task>): (ptrs: seq<int>)
    ensures |ptrs| == |handles| + |tasks|
  {
    seq(|handles|, i requires 0 <= i < |handles| => handles[i].slot) + seq(|tasks|, j requires 0 <= j < |tasks| => tasks[j].cwd)
  }

  lemma PointHandle(handles: seq<Handle>, tasks: seq<Task>, h: nat, handle: Handle)
    requires h < |handles|
    ensures Pointers(handles, tasks)[h] == handles[h].slot
    ensures Pointers(handles[h := handle], tasks) == Pointers(handles, tasks)[h := handle.slot]
  {
  }

  lemma SamePointer(handles: seq<Handle>, tasks: seq<Task>, h: nat, handle: Handle)
    requires h < |handles| && handle.slot == handles[h].slot
    ensures Pointers(handles[h := handle], tasks) == Pointers(handles, tasks)
  {
  }

  lemma PointTask(handles: seq<Handle>, tasks: seq<Task>, t: nat, task: Task)
    requires t < |tasks|
    ensures Pointers(handles, tasks)[|handles| + t] == tasks[t].cwd
    ensures Pointers(handles, tasks[t := task]) == Pointers(handles, tasks)[|handles| + t := task.cwd]
  {
  }

  /** A handle is open only on a mounted volume. */
  ghost predicate HandlesOk(handles: seq<Handle>, slots: seq<OpenInode>, mounts: seq<Mount>) {
    forall h | 0 <= h < |handles| && handles[h].slot != -1 ::
      0 <= handles[h].slot < |slots| && OnMounted(slots[handles[h].slot], mounts)
  }

  predicate OnMounted(o: OpenInode, mounts: seq<Mount>) {
    o.vol < |mounts| && mounts[o.vol].mounted
  }

  lemma MountedFor(handles: seq<Handle>, slots: seq<OpenInode>, mounts: seq<Mount>, h: nat)
    requires HandlesOk(handles, slots, mounts) && h < |handles| && handles[h].slot != -1
    ensures 0 <= handles[h].slot < |slots| && OnMounted(slots[handles[h].slot], mounts)
  {
  }

  /** A slot given to an inode is one that no handle points to. */
  lemma OpenedKeepsHandles(handles: seq<Handle>, slots: seq<OpenInode>, mounts: seq<Mount>, ptrs: seq<int>, s: nat, vol: nat, inode: nat, now: seq<OpenInode>)
    requires HandlesOk(handles, slots, mounts) && Balanced(slots, ptrs)
    requires |handles| <= |ptrs| && forall h | 0 <= h < |handles| :: ptrs[h] == handles[h].slot
    requires s < |slots| && Opened(slots, s, vol, inode, now)
    ensures HandlesOk(handles, now, mounts)
  {
    forall h | 0 <= h < |handles| && handles[h].slot != -1
      ensures OnMounted(now[handles[h].slot], mounts)
    {
      if handles[h].slot == s {
        assert SlotOk(slots, ptrs, s);
        OccursCounted(ptrs, h);
      }
    }
  }

  /** A task's pointer moved from one slot to another. */
  lemma MovedPointer(handles: seq<Handle>, tasks: seq<Task>, before: seq<OpenInode>, slots: seq<OpenInode>, mounts: seq<Mount>,
                     t: nat, s: nat, vol: nat, inode: nat, now: seq<OpenInode>)
    requires t < |tasks| && 0 <= tasks[t].cwd < |before| == |slots| && s < |slots|
    requires Balanced(before, Pointers(handles, tasks)) && before[tasks[t].cwd].refs > 0
    requires slots == before[tasks[t].cwd := Dereferenced(before[tasks[t].cwd])]
    requires Balanced(slots, Pointers(handles, tasks)[|handles| + t := -1]) && HandlesOk(handles, slots, mounts)
    requires Opened(slots, s, vol, inode, now) && Balanced(now, Pointers(handles, tasks)[|handles| + t := -1][|handles| + t := s])
    requires OwnersDiffer(tasks)
    ensures HandlesOk(handles, now, mounts) && Balanced(now, Pointers(handles, tasks[t := tasks[t].(cwd := s)]))
    ensures OwnersDiffer(tasks[t := tasks[t].(cwd := s)])
    ensures forall u | 0 <= u < |tasks| && u != t && 0 <= tasks[u].cwd < |now| :: SameInode(before[tasks[u].cwd], now[tasks[u].cwd])
    ensures forall h | 0 <= h < |handles| && 0 <= handles[h].slot < |now| :: SameInode(before[handles[h].slot], now[handles[h].slot])
  {
    var ptrs, k := Pointers(handles, tasks), |handles| + t;
    OpenedKeepsHandles(handles, slots, mounts, ptrs[k := -1], s, vol, inode, now);
    PointTask(handles, tasks, t, tasks[t].(cwd := s));
    assert ptrs[k := -1][k := s] == ptrs[k := s];
    forall u | 0 <= u < |tasks| && u != t && 0 <= tasks[u].cwd < |now|
      ensures SameInode(before[tasks[u].cwd], now[tasks[u].cwd])
    {
      OthersStand(before, ptrs, k, s, vol, inode, now, |handles| + u);
    }
    forall h | 0 <= h < |handles| && 0 <= handles[h].slot < |now|
      ensures SameInode(before[handles[h].slot], now[handles[h].slot])
    {
      OthersStand(before, ptrs, k, s, vol, inode, now, h);
    }
  }

  lemma NothingPoints(slots: seq<OpenInode>, handles: seq<Handle>, tasks: seq<Task>)
    requires |handles| + |tasks| <= |slots|
    requires forall h | 0 <= h < |handles| :: handles[h].slot == -1
    requires forall t | 0 <= t < |tasks| :: tasks[t].cwd == -1
    requires forall s | 0 <= s < |slots| :: slots[s].refs == 0 && slots[s].inode == INODE_INVALID
    ensures Balanced(slots, Pointers(handles, tasks))
  {
    var ptrs := Pointers(handles, tasks);
    forall s | 0 <= s < |slots|
      ensures SlotOk(slots, ptrs, s)
    {
      if Count(ptrs, s) > 0 {
        var k := CountedOccurs(ptrs, s);
      }
    }
  }

  /** No task is registered twice. */
  ghost predicate OwnersDiffer(tasks: seq<Task>) {
    forall t, u | 0 <= t < u < |tasks| && tasks[t].id == tasks[u].id :: tasks[t].id == 0
  }

  datatype FileType = DirectoryType | FileType | SymlinkType

  /** RedFileTypeCheck() of util/ftype.c. */
  function TypeCheck(actual: FileType, expected: set<FileType>): Status {
    if actual in expected then Success
    else if actual == SymlinkType || expected == {SymlinkType} then Failure(ENOLINK)
    else if actual == DirectoryType then Failure(EISDIR)
    else Failure(ENOTDIR)
  }

  /** The answer to a file of a type where others are expected. */
  ghost predicate TypeAnswer(actual: FileType, expected: set<FileType>, status: Status) {
    && (status.Success? <==> actual in expected)
    && (status == Failure(ENOLINK) <==> actual !in expected && (actual.SymlinkType? || expected == {SymlinkType}))
    && (status == Failure(EISDIR) <==> actual !in expected && actual.DirectoryType? && expected != {SymlinkType})
    && (status == Failure(ENOTDIR) <==> actual !in expected && actual.FileType? && expected != {SymlinkType})
  }

  /** Whether OpenInoDeref() frees the inode: it was orphaned, and this was its
      last reference; cleanup is wanted, and the current volume is writable. */
  predicate FreesOrphan(o: OpenInode, cleanup: bool, readOnly: bool) {
    o.refs == 1 && o.orphan && cleanup && !readOnly
  }

  /** Before anything is opened, only the root of volume zero is in use. */
  predicate AtFirst(o: OpenInode) {
    (o.inode == INODE_INVALID || o.Is(0, INODE_ROOTDIR)) && !o.orphan && !o.reserved
  }

  /** What OpenInoDeref() adds to the calls that free an orphan. */
  ghost predicate Settled(o: OpenInode, cleanup: bool, readOnly: bool, before: seq<Orphan>, after: seq<Orphan>) {
    && (after == before || after == before + [Orphan(o.vol, o.inode)])
    && (after != before ==> FreesOrphan(o, cleanup, readOnly))
    && (FreesOrphan(o, cleanup, readOnly) && !o.reserved ==> after != before)
  }

  /** What may be added of the calls that free an orphan when a reference is
      dropped with cleanup: they are made as the orphan's own volume permits if
      and only if the volume that is current permits the same, or there is
      nothing to free. */
  lemma SettledAsOwnVolumePermits(o: OpenInode, mounts: seq<Mount>, current: nat, before: seq<Orphan>, after: seq<Orphan>)
    requires o.vol < |mounts| && current < |mounts| && !o.reserved
    requires Settled(o, true, mounts[current].readOnly, before, after)
    ensures FreedIffOwn(o, mounts, before, after) <==>
              mounts[current].readOnly == mounts[o.vol].readOnly || !(o.refs == 1 && o.orphan)
  {
  }

  /** The orphan is freed exactly if this was its last reference and its own
      volume is writable. */
  ghost predicate FreedIffOwn(o: OpenInode, mounts: seq<Mount>, before: seq<Orphan>, after: seq<Orphan>)
    requires o.vol < |mounts|
  {
    after != before <==> o.refs == 1 && o.orphan && !mounts[o.vol].readOnly
  }

  /** An orphan that is to be freed with its last reference. */
  predicate IsOrphan(o: OpenInode, vol: nat) {
    o.vol == vol && o.inode != INODE_INVALID && o.orphan && !o.reserved
  }

  /** Every orphan of a volume is still open as one, or has been freed. */
  ghost predicate OrphansKept(before: seq<OpenInode>, now: seq<OpenInode>, vol: nat, freed: seq<Orphan>) {
    && |before| == |now|
    && forall s | 0 <= s < |before| && IsOrphan(before[s], vol) ::
         Orphan(vol, before[s].inode) in freed || (IsOrphan(now[s], vol) && now[s].inode == before[s].inode)
  }

  /** Nothing but the root is open on a volume. */
  ghost predicate OnlyRoot(slots: seq<OpenInode>, vol: nat) {
    forall s | 0 <= s < |slots| && slots[s].vol == vol && slots[s].inode != INODE_INVALID :: slots[s].inode == INODE_ROOTDIR
  }

  /** Every orphan that was open on a volume has been freed. */
  ghost predicate NoOrphanLeft(before: seq<OpenInode>, vol: nat, freed: seq<Orphan>) {
    forall s | 0 <= s < |before| && IsOrphan(before[s], vol) && before[s].inode != INODE_ROOTDIR :: Orphan(vol, before[s].inode) in freed
  }

  lemma OrphansFreed(before: seq<OpenInode>, now: seq<OpenInode>, vol: nat, freed: seq<Orphan>)
    requires OrphansKept(before, now, vol, freed) && OnlyRoot(now, vol)
    ensures NoOrphanLeft(before, vol, freed)
  {
  }

  lemma NothingLost(slots: seq<OpenInode>, vol: nat, freed: seq<Orphan>)
    ensures OrphansKept(slots, slots, vol, freed)
  {
  }

  lemma SettledKeepsOrphans(before: seq<OpenInode>, slots: seq<OpenInode>, s: nat, vol: nat, was: seq<Orphan>, freed: seq<Orphan>)
    requires OrphansKept(before, slots, vol, was) && s < |slots| && slots[s].refs > 0
    requires Settled(slots[s], true, false, was, freed)
    ensures OrphansKept(before, slots[s := Dereferenced(slots[s])], vol, freed)
  {
  }

  lemma OpenedKeepsOrphans(before: seq<OpenInode>, slots: seq<OpenInode>, s: nat, vol: nat, on: nat, inode: nat, now: seq<OpenInode>, freed: seq<Orphan>)
    requires OrphansKept(before, slots, vol, freed) && s < |slots| && Opened(slots, s, on, inode, now)
    ensures OrphansKept(before, now, vol, freed)
  {
  }

  /** With no handle left on a volume and every task at the root there, nothing
      but the root is open. */
  lemma OnlyRootsLeft(handles: seq<Handle>, tasks: seq<Task>, slots: seq<OpenInode>, vol: nat)
    requires Balanced(slots, Pointers(handles, tasks))
    requires forall h | 0 <= h < |handles| && 0 <= handles[h].slot < |slots| :: slots[handles[h].slot].vol != vol
    requires forall t | 0 <= t < |tasks| && 0 <= tasks[t].cwd < |slots| :: slots[tasks[t].cwd].vol == vol ==> slots[tasks[t].cwd].inode == INODE_ROOTDIR
    ensures OnlyRoot(slots, vol)
  {
    var ptrs := Pointers(handles, tasks);
    forall s | 0 <= s < |slots| && slots[s].vol == vol && slots[s].inode != INODE_INVALID
      ensures slots[s].inode == INODE_ROOTDIR
    {
      assert SlotOk(slots, ptrs, s);
      var k := CountedOccurs(ptrs, s);
    }
  }

  /** Dropping a reference does not move the slots of other handles. */
  lemma DroppedKeepsHandles(handles: seq<Handle>, slots: seq<OpenInode>, mounts: seq<Mount>, s: nat)
    requires HandlesOk(handles, slots, mounts) && s < |slots| && slots[s].refs > 0
    ensures HandlesOk(handles, slots[s := Dereferenced(slots[s])], mounts)
    ensures forall h | 0 <= h < |handles| :: HandlesOk(handles[h := handles[h].(slot := -1)], slots[s := Dereferenced(slots[s])], mounts)
  {
  }

  lemma UnmountedKeepsHandles(handles: seq<Handle>, slots: seq<OpenInode>, mounts: seq<Mount>, v: nat)
    requires HandlesOk(handles, slots, mounts) && v < |mounts|
    requires forall h | 0 <= h < |handles| && 0 <= handles[h].slot < |slots| :: slots[handles[h].slot].vol != v
    ensures HandlesOk(handles, slots, mounts[v := mounts[v].(mounted := false)])
  {
  }

  lemma MountedKeepsHandles(handles: seq<Handle>, slots: seq<OpenInode>, mounts: seq<Mount>, v: nat, mount: Mount)
    requires HandlesOk(handles, slots, mounts) && v < |mounts| && mount.mounted
    ensures HandlesOk(handles, slots, mounts[v := mount])
  {
  }

  class Posix {
    const openInos: array<OpenInode>
    const handles: array<Handle>
    const tasks: array<Task>
    const mounts: array<Mount>
    /** gbRedVolNum. */
    var current: nat
    ghost var freed: seq<Orphan>
    /** The volumes that RedCoreVolTransact() was called for. */
    ghost var transacted: seq<nat>
    /** How often each volume has been mounted. */
    ghost var mountings: seq<nat>

    ghost function Ptrs(): seq<int>
      reads this, handles, tasks
    {
      Pointers(handles[..], tasks[..])
    }

    /** All of the state but the tasks and open inodes, which CwdClose() and
        red_chdir() put out of balance for a moment. */
    ghost predicate Sized()
      reads this
    {
      && openInos.Length == OPEN_INODE_COUNT && handles.Length == HANDLE_COUNT
      && tasks.Length == TASK_COUNT && mounts.Length == VOLUME_COUNT && |mountings| == VOLUME_COUNT
      && current < VOLUME_COUNT
    }

    ghost predicate Valid()
      reads this, openInos, handles, tasks, mounts
    {
      && Sized()
      && Balanced(openInos[..], Ptrs())
      && (forall t | 0 <= t < TASK_COUNT :: 0 <= tasks[t].cwd < OPEN_INODE_COUNT)
      && (forall h | 0 <= h < HANDLE_COUNT :: -1 <= handles[h].slot < OPEN_INODE_COUNT)
      && HandlesOk(handles[..], openInos[..], mounts[..])
      && (forall s | 0 <= s < OPEN_INODE_COUNT :: openInos[s].vol < VOLUME_COUNT)
      && (forall v | 0 <= v < VOLUME_COUNT :: mounts[v].generation == Generation(mountings[v]))
      && (forall v | 0 <= v < VOLUME_COUNT && mounts[v].mounted :: mountings[v] > 0)
      && OwnersDiffer(tasks[..])
    }

    /** The cleared arrays that red_init() starts from. */
    constructor ()
      ensures Blank() && freed == [] && mountings == seq(VOLUME_COUNT, _ => 0) && current == 0
      ensures fresh(openInos) && fresh(handles) && fresh(tasks) && fresh(mounts)
    {
      openInos := new OpenInode[OPEN_INODE_COUNT](_ => OpenInode(INODE_INVALID, 0, false, false, 0));
      handles := new Handle[HANDLE_COUNT](_ => Handle(-1, false, false));
      tasks := new Task[TASK_COUNT](_ => Task(0, -1));
      mounts := new Mount[VOLUME_COUNT](_ => Mount(false, true, 0));
      current := 0;
      freed, transacted := [], [];
      mountings := seq(VOLUME_COUNT, _ => 0);
    }

    /** Nothing is open, and no task has a working directory. */
    ghost predicate Blank()
      reads this, openInos, handles, tasks, mounts
    {
      && Sized()
      && (forall h | 0 <= h < HANDLE_COUNT :: handles[h].slot == -1)
      && (forall t | 0 <= t < TASK_COUNT :: tasks[t] == Task(0, -1))
      && (forall s | 0 <= s < OPEN_INODE_COUNT :: openInos[s] == OpenInode(INODE_INVALID, 0, false, false, 0))
      && (forall v | 0 <= v < VOLUME_COUNT :: !mounts[v].mounted && mounts[v].generation == Generation(mountings[v]))
    }

    /** CwdResetAll(), when no task has a working directory yet. */
    method CwdResetAll()
      requires Blank()
      modifies openInos, tasks
      ensures Valid()
      ensures forall t | 0 <= t < TASK_COUNT :: tasks[t].id == 0 && openInos[tasks[t].cwd].Is(0, INODE_ROOTDIR)
      ensures forall s | 0 <= s < OPEN_INODE_COUNT :: AtFirst(openInos[s])
    {
      hide Balanced, Pointers;
      NothingPoints(openInos[..], handles[..], tasks[..]);
      var t := 0;
      while t < TASK_COUNT
        invariant 0 <= t <= TASK_COUNT && Balanced(openInos[..], Ptrs())
        invariant forall u | t <= u < TASK_COUNT :: tasks[u] == Task(0, -1)
        invariant forall u | 0 <= u < t :: tasks[u].id == 0 && 0 <= tasks[u].cwd < OPEN_INODE_COUNT && openInos[tasks[u].cwd].Is(0, INODE_ROOTDIR)
        invariant forall s | 0 <= s < OPEN_INODE_COUNT :: openInos[s].vol == 0
        invariant forall s | 0 <= s < OPEN_INODE_COUNT :: AtFirst(openInos[s])
      {
        PointTask(handles[..], tasks[..], t, tasks[t]);
        var s := OpenInoRef(0, INODE_ROOTDIR, Ptrs(), HANDLE_COUNT + t);
        PointTask(handles[..], tasks[..], t, Task(0, s));
        tasks[t] := Task(0, s);
        t := t + 1;
      }
    }

    /** OpenInoFind(): the slot of the inode; else, if wanted, a free slot given
        to it; -1 if there is none. */
    method OpenInoFind(vol: nat, inode: nat, alloc: bool) returns (s: int)
      requires inode != INODE_INVALID
      modifies openInos
      ensures -1 <= s < openInos.Length
      ensures s == -1 ==>
                && openInos[..] == old(openInos[..])
                && (forall t | 0 <= t < openInos.Length :: !openInos[t].Is(vol, inode))
                && (alloc ==> forall t | 0 <= t < openInos.Length :: openInos[t].inode != INODE_INVALID)
      ensures s != -1 && old(openInos[s].Is(vol, inode)) ==> openInos[..] == old(openInos[..])
      ensures s != -1 && !old(openInos[s].Is(vol, inode)) ==>
                && alloc && old(openInos[s].inode) == INODE_INVALID
                && openInos[..] == old(openInos[..])[s := OpenInode(inode, vol, false, false, 0)]
                && forall t | 0 <= t < openInos.Length :: !old(openInos[t].Is(vol, inode))
    {
      s := -1;
      var free, i := -1, 0;
      while i < openInos.Length && s == -1
        invariant 0 <= i <= openInos.Length
        invariant s == -1 ==> forall t | 0 <= t < i :: !openInos[t].Is(vol, inode)
        invariant s != -1 ==> 0 <= s < openInos.Length && openInos[s].Is(vol, inode)
        invariant -1 <= free < i && (free != -1 ==> openInos[free].inode == INODE_INVALID)
        invariant free == -1 ==> forall t | 0 <= t < i :: openInos[t].inode != INODE_INVALID || s != -1
      {
        if openInos[i].Is(vol, inode) {
          s := i;
        } else if free == -1 && openInos[i].inode == INODE_INVALID {
          free := i;
        }
        i := i + 1;
      }
      if s == -1 && alloc && free != -1 {
        s := free;
        openInos[s] := OpenInode(inode, vol, false, false, 0);
      }
    }

    /** Find or allocate the inode's slot for pointer `k`, and reference it.  By
        counting, a slot is always available. */
    method OpenInoRef(vol: nat, inode: nat, ghost ptrs: seq<int>, ghost k: nat) returns (s: int)
      requires inode != INODE_INVALID && Balanced(openInos[..], ptrs) && k < |ptrs| && ptrs[k] == -1
      modifies openInos
      ensures 0 <= s < openInos.Length && openInos[s].Is(vol, inode)
      ensures Opened(old(openInos[..]), s, vol, inode, openInos[..])
      ensures Balanced(openInos[..], ptrs[k := s])
    {
      ghost var before := openInos[..];
      SomeSlotFree(before, ptrs, k);
      s := OpenInoFind(vol, inode, true);
      assert SlotOk(before, ptrs, s);
      openInos[s] := openInos[s].(refs := openInos[s].refs + 1);
      OpenedBalances(before, ptrs, k, s, vol, inode, openInos[..]);
    }

    /** RedCoreFileUnreserve() or RedCoreFreeOrphan(): either may fail. */
    method CoreMayFail() returns (status: Status)
      ensures status.Failure? ==> status == Failure(EIO)
    {
      var good: bool := *;
      status := if good then Success else Failure(EIO);
    }

    /** OpenInoDeref() of the slot that pointer `k` points to.  It is the volume
        that is current before the call whose read-only state decides. */
    method OpenInoDeref(s: nat, cleanup: bool, propagate: bool, ghost ptrs: seq<int>, ghost k: nat) returns (status: Status)
      requires Sized() && Balanced(openInos[..], ptrs) && k < |ptrs| && ptrs[k] == s && openInos[s].vol < VOLUME_COUNT
      modifies openInos, this`current, this`freed
      ensures Sized()
      ensures !cleanup || !propagate || old(mounts[current].readOnly) ==> status.Success?
      ensures status.Failure? ==> status == Failure(EIO) && openInos[..] == old(openInos[..])
      ensures old(openInos[s]).refs > 0
      ensures status.Success? ==>
                && openInos[..] == old(openInos[..])[s := Dereferenced(old(openInos[s]))]
                && Balanced(openInos[..], ptrs[k := -1])
      ensures current == old(current) || current == old(openInos[s].vol)
      ensures Settled(old(openInos[s]), cleanup, old(mounts[current].readOnly), old(freed), freed)
    {
      DroppedBalances(openInos[..], ptrs, k);
      status := Success;
      if openInos[s].refs == 1 {
        if cleanup && !mounts[current].readOnly {
          current := openInos[s].vol;
          if openInos[s].reserved {
            status := CoreMayFail();
          }
          if status.Success? && openInos[s].orphan {
            status := CoreMayFail();
            freed := freed + [Orphan(current, openInos[s].inode)];
          }
          if !propagate {
            status := Success;
          }
        }
        if status.Success? {
          openInos[s] := openInos[s].(inode := INODE_INVALID);
        }
      }
      if status.Success? {
        openInos[s] := openInos[s].(refs := openInos[s].refs - 1);
      }
    }

    /** Set the flags of a handle. */
    method SetFlags(h: nat, directory: bool, symlink: bool)
      requires Valid() && h < HANDLE_COUNT
      modifies handles
      ensures Valid() && handles[..] == old(handles[..])[h := Handle(old(handles[h].slot), directory, symlink)]
    {
      SamePointer(handles[..], tasks[..], h, Handle(handles[h].slot, directory, symlink));
      handles[h] := Handle(handles[h].slot, directory, symlink);
    }

    /** HandleFindFree(): the first free handle, or -1. */
    method HandleFindFree() returns (h: int)
      requires Valid()
      modifies handles
      ensures Valid()
      ensures -1 <= h < HANDLE_COUNT
      ensures h == -1 ==> forall i | 0 <= i < HANDLE_COUNT :: handles[i].slot != -1
      ensures h == -1 ==> handles[..] == old(handles[..])
      ensures h != -1 ==>
                && old(handles[h].slot) == -1 && handles[..] == old(handles[..])[h := Handle(-1, false, false)]
                && forall i | 0 <= i < h :: handles[i].slot != -1
    {
      h := -1;
      var i := 0;
      while i < HANDLE_COUNT && h == -1
        invariant 0 <= i <= HANDLE_COUNT && -1 <= h < i && Valid()
        invariant h == -1 ==> handles[..] == old(handles[..]) && forall j | 0 <= j < i :: handles[j].slot != -1
        invariant h != -1 ==>
                    && old(handles[h].slot) == -1 && handles[..] == old(handles[..])[h := Handle(-1, false, false)]
                    && forall j | 0 <= j < h :: handles[j].slot != -1
      {
        if handles[i].slot == -1 {
          h := i;
          SetFlags(h, false, false);
        }
        i := i + 1;
      }
    }

    /** HandleOpen(): it never fails on a free handle. */
    method HandleOpen(h: nat, inode: nat)
      requires Valid() && h < HANDLE_COUNT && handles[h].slot == -1
      requires inode != INODE_INVALID && mounts[current].mounted
      modifies openInos, handles
      ensures Valid()
      ensures var s := handles[h].slot;
              && 0 <= s < OPEN_INODE_COUNT && openInos[s].Is(current, inode)
              && Opened(old(openInos[..]), s, current, inode, openInos[..])
              && handles[..] == old(handles[..])[h := old(handles[h]).(slot := s)]
    {
      hide Balanced, OwnersDiffer;
      ghost var ptrs, slots := Ptrs(), openInos[..];
      PointHandle(handles[..], tasks[..], h, handles[h]);
      var s := OpenInoRef(current, inode, ptrs, h);
      OpenedKeepsHandles(handles[..], slots, mounts[..], ptrs, s, current, inode, openInos[..]);
      PointHandle(handles[..], tasks[..], h, handles[h].(slot := s));
      handles[h] := handles[h].(slot := s);
    }

    /** The end of FildesOpen(): give the inode a handle and a descriptor. */
    method OpenDescriptor(inode: nat, directory: bool, symlink: bool) returns (fd: Result<int>)
      requires Valid() && inode != INODE_INVALID && mounts[current].mounted
      modifies openInos, handles
      ensures Valid()
      ensures fd.Err? ==>
                && fd.error == EMFILE && openInos[..] == old(openInos[..]) && handles[..] == old(handles[..])
                && forall i | 0 <= i < HANDLE_COUNT :: handles[i].slot != -1
      ensures fd.Ok? ==> FD_MIN <= fd.value < 0x8000_0000
      ensures fd.Ok? ==>
                var f := Unpack(fd.value);
                && f.index < HANDLE_COUNT && f.vol == current && f.generation == mounts[current].generation
                && old(handles[f.index].slot) == -1 && Descriptor(fd.value)
                && openInos[handles[f.index].slot].Is(current, inode)
                && handles[f.index].directory == directory && handles[f.index].symlink == (symlink && !directory)
                && forall i | 0 <= i < HANDLE_COUNT && i != f.index :: handles[i] == old(handles[i])
    {
      var h := HandleFindFree();
      if h == -1 {
        return Err(EMFILE);
      }
      HandleOpen(h, inode);
      SetFlags(h, directory, symlink && !directory);
      UnpackInvertsPack(Fields(h, current, mounts[current].generation));
      fd := Ok(Pack(Fields(h, current, mounts[current].generation)));
    }

    /** What FildesToHandle() asks of a descriptor, its type apart. */
    predicate Descriptor(fd: int)
      reads this, openInos, handles, mounts
      requires Sized() && forall h | 0 <= h < HANDLE_COUNT :: -1 <= handles[h].slot < OPEN_INODE_COUNT
    {
      && fd >= FD_MIN
      && var f := Unpack(fd);
         && f.index < HANDLE_COUNT && f.vol < VOLUME_COUNT
         && handles[f.index].slot != -1
         && openInos[handles[f.index].slot].vol == f.vol
         && mounts[f.vol].generation == f.generation
    }

    /** FildesToHandle(). */
    method FildesToHandle(fd: int, expected: set<FileType>) returns (status: Status, h: nat)
      requires Valid()
      ensures status == Failure(EBADF) <==> !Descriptor(fd)
      ensures Descriptor(fd) ==>
                && h == Unpack(fd).index < HANDLE_COUNT
                && (handles[h].directory ==> TypeAnswer(DirectoryType, expected, status))
                && (!handles[h].directory && handles[h].symlink ==> TypeAnswer(SymlinkType, expected, status))
                && (!handles[h].directory && !handles[h].symlink ==> TypeAnswer(FileType, expected, status))
    {
      if fd < FD_MIN {
        return Failure(EBADF), 0;
      }
      var f := Unpack(fd);
      h := f.index;
      if f.index >= HANDLE_COUNT || f.vol >= VOLUME_COUNT || handles[f.index].slot == -1
        || openInos[handles[f.index].slot].vol != f.vol || mounts[f.vol].generation != f.generation
      {
        return Failure(EBADF), h;
      }
      status := TypeCheck(TypeOf(handles[h]), expected);
    }

    /** Open an inode of some type, and use the descriptor for another: what was
        opened is accepted exactly where its type is among those expected. */
    method OpenAndUse(inode: nat, kind: FileType, expected: set<FileType>) returns (fd: Result<int>, status: Status, h: nat)
      requires Valid() && inode != INODE_INVALID && mounts[current].mounted
      modifies openInos, handles
      ensures Valid()
      ensures fd.Err? <==> old(forall i | 0 <= i < HANDLE_COUNT :: handles[i].slot != -1)
      ensures fd.Ok? ==>
                && h < HANDLE_COUNT && 0 <= handles[h].slot < OPEN_INODE_COUNT && openInos[handles[h].slot].Is(current, inode)
                && (status.Success? <==> kind in expected)
                && TypeAnswer(kind, expected, status)
    {
      hide Balanced, HandlesOk, Pointers, OwnersDiffer, Pack, Unpack;
      status, h := Success, 0;
      fd := OpenDescriptor(inode, kind == DirectoryType, kind == SymlinkType);
      if fd.Ok? {
        status, h := FildesToHandle(fd.value, expected);
      }
    }

    /** A descriptor from an earlier mount of its volume is refused, until the
        volume has been mounted FD_GEN_MAX times since; and no descriptor is
        accepted while its volume is not mounted. */
    lemma StaleDescriptor(f: Fields, mounting: nat)
      requires Valid() && Packable(f) && f.generation == Generation(mounting)
      ensures mounting < mountings[f.vol] < mounting + FD_GEN_MAX ==> !Descriptor(Pack(f))
      ensures !mounts[f.vol].mounted ==> !Descriptor(Pack(f))
      ensures Descriptor(Pack(f)) ==> mounting == mountings[f.vol] || FD_GEN_MAX <= Distance(mounting, mountings[f.vol])
    {
      UnpackInvertsPack(f);
      if Descriptor(Pack(f)) {
        assert OnMounted(openInos[handles[f.index].slot], mounts[..]);
        if mounting < mountings[f.vol] {
          SameGeneration(mounting, mountings[f.vol]);
        } else {
          SameGeneration(mountings[f.vol], mounting);
        }
      }
    }

    /** RedCoreTransMaskGet(), but for the mask. */
    method TransMaskGet() returns (status: Status)
      requires current < VOLUME_COUNT == mounts.Length
      ensures status == if mounts[current].mounted then Success else Failure(EINVAL)
    {
      status := if !mounts[current].mounted then Failure(EINVAL) else Success;
    }

    /** The start of HandleClose(): go to the handle's volume and get its mask. */
    method StartClose(h: nat) returns (status: Status)
      requires Valid() && h < HANDLE_COUNT && handles[h].slot != -1
      modifies this`current
      ensures status.Success? && current == openInos[handles[h].slot].vol
    {
      hide Balanced, HandlesOk, Pointers, OwnersDiffer;
      MountedFor(handles[..], openInos[..], mounts[..], h);
      current := openInos[handles[h].slot].vol;
      status := Success;
      if !mounts[current].readOnly {
        status := TransMaskGet();
      }
    }

    /** HandleClose(); `transact` is whether a close transaction may follow.  The
        mask is always there, as the volume of an open handle is mounted. */
    method HandleClose(h: nat, transact: bool) returns (status: Status)
      requires Valid() && h < HANDLE_COUNT
      modifies openInos, handles, this`current, this`freed, this`transacted
      ensures Valid()
      ensures old(handles[h].slot) == -1 ==>
                && status == Failure(EBADF) && handles[..] == old(handles[..]) && openInos[..] == old(openInos[..])
                && freed == old(freed) && current == old(current)
      ensures transacted == if old(handles[h].slot) != -1 == handles[h].slot && transact && !mounts[current].readOnly
                            then old(transacted) + [current] else old(transacted)
      ensures old(handles[h].slot) != -1 ==>
                var o := old(openInos[handles[h].slot]);
                && current == o.vol && o.refs > 0
                && Settled(o, true, mounts[o.vol].readOnly, old(freed), freed)
                && (handles[h].slot == -1 ==> openInos[..] == old(openInos[..])[old(handles[h].slot) := Dereferenced(o)])
                && (handles[h].slot != -1 ==> openInos[..] == old(openInos[..]) && status == Failure(EIO) && transact)
      ensures handles[h].slot == -1 ==> handles[..] == old(handles[..])[h := old(handles[h]).(slot := -1)]
      ensures handles[h].slot != -1 ==> handles[..] == old(handles[..])
      ensures !transact && old(handles[h].slot) != -1 ==> status.Success?
    {
      hide Balanced, HandlesOk, Pointers, OwnersDiffer;
      if handles[h].slot == -1 {
        return Failure(EBADF);
      }
      status := StartClose(h);
      var transacting := transact && !mounts[current].readOnly;
      if status.Success? {
        status := Release(h, transacting);
      }
      if status.Success? && transacting && !mounts[current].readOnly {
        transacted := transacted + [current];
        status := CoreMayFail();
      }
    }

    /** The part of HandleClose() that drops the reference and frees the handle. */
    method Release(h: nat, transacting: bool) returns (status: Status)
      requires Valid() && h < HANDLE_COUNT && handles[h].slot != -1 && current == openInos[handles[h].slot].vol
      modifies openInos, handles, this`current, this`freed
      ensures Valid() && current == old(current)
      ensures var o := old(openInos[handles[h].slot]);
              && o.refs > 0
              && Settled(o, true, mounts[o.vol].readOnly, old(freed), freed)
              && openInos[..] == (if status.Success? then old(openInos[..])[old(handles[h].slot) := Dereferenced(o)] else old(openInos[..]))
      ensures handles[..] == if status.Success? then old(handles[..])[h := old(handles[h]).(slot := -1)] else old(handles[..])
      ensures status.Failure? ==> status == Failure(EIO) && transacting
    {
      hide Balanced, HandlesOk, Pointers, OwnersDiffer;
      ghost var ptrs, slots := Ptrs(), openInos[..];
      PointHandle(handles[..], tasks[..], h, handles[h].(slot := -1));
      var s := handles[h].slot;
      status := OpenInoDeref(s, true, transacting, ptrs, h);
      if status.Success? {
        DroppedKeepsHandles(handles[..], slots, mounts[..], s);
        handles[h] := handles[h].(slot := -1);
      }
    }

    /** Point the working directory of a task elsewhere: dereference the old one,
        ignoring errors of its cleanup, then find or allocate the new one. */
    method MoveCwd(t: nat, cleanup: bool, vol: nat, inode: nat)
      requires Valid() && t < TASK_COUNT && vol < VOLUME_COUNT && inode != INODE_INVALID
      modifies openInos, tasks, this`current, this`freed
      ensures Valid()
      ensures current == old(current) || current == old(openInos[tasks[t].cwd].vol)
      ensures tasks[..] == old(tasks[..])[t := Task(old(tasks[t].id), tasks[t].cwd)]
      ensures openInos[tasks[t].cwd].Is(vol, inode)
      ensures forall u | 0 <= u < TASK_COUNT && u != t :: SameInode(old(openInos[tasks[u].cwd]), openInos[tasks[u].cwd])
      ensures forall h | 0 <= h < HANDLE_COUNT && handles[h].slot != -1 ::
                SameInode(old(openInos[handles[h].slot]), openInos[handles[h].slot])
      ensures Settled(old(openInos[tasks[t].cwd]), cleanup, mounts[old(current)].readOnly, old(freed), freed)
      ensures old(openInos[tasks[t].cwd]).refs > 0
      ensures Opened(old(openInos[..])[old(tasks[t].cwd) := Dereferenced(old(openInos[tasks[t].cwd]))], tasks[t].cwd, vol, inode, openInos[..])
    {
      hide Balanced, HandlesOk, Pointers, OwnersDiffer;
      ghost var ptrs, k, before := Ptrs(), HANDLE_COUNT + t, openInos[..];
      PointTask(handles[..], tasks[..], t, tasks[t]);
      var s0 := tasks[t].cwd;
      var status := OpenInoDeref(s0, cleanup, false, ptrs, k);
      DroppedKeepsHandles(handles[..], before, mounts[..], s0);
      ghost var slots := openInos[..];
      var s := OpenInoRef(vol, inode, ptrs[k := -1], k);
      MovedPointer(handles[..], tasks[..], before, slots, mounts[..], t, s, vol, inode, openInos[..]);
      tasks[t] := tasks[t].(cwd := s);
    }

    /** CwdClose(): back to a root directory. */
    method CwdClose(t: nat, clearVol: bool, reset: bool)
      requires Valid() && t < TASK_COUNT && (clearVol || openInos[tasks[t].cwd].vol == current)
      modifies openInos, tasks, this`current, this`freed
      ensures Valid()
      ensures !clearVol ==> current == old(current)
      ensures tasks[..] == old(tasks[..])[t := Task(old(tasks[t].id), tasks[t].cwd)]
      ensures openInos[tasks[t].cwd].Is(if clearVol then 0 else current, INODE_ROOTDIR)
      ensures forall u | 0 <= u < TASK_COUNT && u != t :: SameInode(old(openInos[tasks[u].cwd]), openInos[tasks[u].cwd])
      ensures forall h | 0 <= h < HANDLE_COUNT && handles[h].slot != -1 ::
                SameInode(old(openInos[handles[h].slot]), openInos[handles[h].slot])
      ensures Settled(old(openInos[tasks[t].cwd]), !reset, mounts[old(current)].readOnly, old(freed), freed)
      ensures old(openInos[tasks[t].cwd]).refs > 0
      ensures Opened(old(openInos[..])[old(tasks[t].cwd) := Dereferenced(old(openInos[tasks[t].cwd]))],
                     tasks[t].cwd, if clearVol then 0 else old(current), INODE_ROOTDIR, openInos[..])
    {
      MoveCwd(t, !reset, if clearVol then 0 else current, INODE_ROOTDIR);
    }

    /** What red_chdir() does once the new directory is known, when the volume
        of that directory is the current one.  It is that volume which has to
        be writable for the old directory to be freed if it is an orphan. */
    method ChangeDirectory(t: nat, inode: nat)
      requires Valid() && t < TASK_COUNT && inode != INODE_INVALID
      modifies openInos, tasks, this`current, this`freed
      ensures Valid()
      ensures tasks[..] == old(tasks[..])[t := Task(old(tasks[t].id), tasks[t].cwd)]
      ensures openInos[tasks[t].cwd].Is(old(current), inode)
      ensures current == old(current) || current == old(openInos[tasks[t].cwd].vol)
      ensures forall u | 0 <= u < TASK_COUNT && u != t :: SameInode(old(openInos[tasks[u].cwd]), openInos[tasks[u].cwd])
      ensures Settled(old(openInos[tasks[t].cwd]), true, mounts[old(current)].readOnly, old(freed), freed)
      ensures var o := old(openInos[tasks[t].cwd]);
              !o.reserved ==>
                (FreedIffOwn(o, mounts[..], old(freed), freed) <==>
                   mounts[old(current)].readOnly == mounts[o.vol].readOnly || !(o.refs == 1 && o.orphan))
      ensures old(openInos[tasks[t].cwd]).refs > 0
      ensures Opened(old(openInos[..])[old(tasks[t].cwd) := Dereferenced(old(openInos[tasks[t].cwd]))],
                     tasks[t].cwd, old(current), inode, openInos[..])
    {
      ghost var o := openInos[tasks[t].cwd];
      ghost var was := freed;
      ghost var volume := current;
      MoveCwd(t, true, current, inode);
      if !o.reserved {
        SettledAsOwnVolumePermits(o, mounts[..], volume, was, freed);
      }
    }

    /** CwdCloseVol(): no task is left in a directory of the current volume other
        than its root. */
    method CwdCloseVol(reset: bool, ghost before: seq<OpenInode>)
      requires Valid() && OrphansKept(before, openInos[..], current, freed)
      modifies openInos, tasks, this`freed, this`current
      ensures Valid() && current == old(current)
      ensures !reset && !mounts[current].readOnly ==> OrphansKept(before, openInos[..], current, freed)
      ensures forall t | 0 <= t < TASK_COUNT :: tasks[t].id == old(tasks[t].id)
      ensures forall t | 0 <= t < TASK_COUNT :: AtRoot(t)
      ensures forall h | 0 <= h < HANDLE_COUNT && handles[h].slot != -1 ::
                SameInode(old(openInos[handles[h].slot]), openInos[handles[h].slot])
      ensures reset ==> freed == old(freed)
    {
      hide Balanced, HandlesOk, Pointers, OwnersDiffer, OrphansKept;
      var t := 0;
      while t < TASK_COUNT
        invariant 0 <= t <= TASK_COUNT && Valid() && current == old(current)
        invariant forall h | 0 <= h < HANDLE_COUNT && handles[h].slot != -1 ::
                    SameInode(old(openInos[handles[h].slot]), openInos[handles[h].slot])
        invariant forall u | 0 <= u < TASK_COUNT :: tasks[u].id == old(tasks[u].id)
        invariant forall u | 0 <= u < t :: AtRoot(u)
        invariant reset ==> freed == old(freed)
        invariant !reset && !mounts[current].readOnly ==> OrphansKept(before, openInos[..], current, freed)
      {
        if openInos[tasks[t].cwd].vol == current {
          label closing:
          CloseOne(t, reset, before);
          forall u | 0 <= u < t
            ensures AtRoot(u)
          {
            assert old@closing(AtRoot(u));
            assert SameInode(old@closing(openInos[tasks[u].cwd]), openInos[tasks[u].cwd]);
          }
        }
        t := t + 1;
      }
    }

    /** One step of CwdCloseVol(). */
    method CloseOne(t: nat, reset: bool, ghost before: seq<OpenInode>)
      requires Valid() && t < TASK_COUNT && openInos[tasks[t].cwd].vol == current
      modifies openInos, tasks, this`current, this`freed
      ensures Valid() && current == old(current)
      ensures tasks[..] == old(tasks[..])[t := Task(old(tasks[t].id), tasks[t].cwd)]
      ensures openInos[tasks[t].cwd].Is(current, INODE_ROOTDIR)
      ensures forall u | 0 <= u < TASK_COUNT && u != t :: SameInode(old(openInos[tasks[u].cwd]), openInos[tasks[u].cwd])
      ensures forall h | 0 <= h < HANDLE_COUNT && handles[h].slot != -1 ::
                SameInode(old(openInos[handles[h].slot]), openInos[handles[h].slot])
      ensures reset ==> freed == old(freed)
      ensures !reset && !mounts[current].readOnly && old(OrphansKept(before, openInos[..], current, freed)) ==>
                OrphansKept(before, openInos[..], current, freed)
    {
      hide Balanced, HandlesOk, Pointers, OwnersDiffer, OrphansKept, Opened;
      ghost var slots, s, was := openInos[..], tasks[t].cwd, freed;
      CwdClose(t, false, reset);
      if !reset && !mounts[current].readOnly && OrphansKept(before, slots, current, was) {
        SettledKeepsOrphans(before, slots, s, current, was, freed);
        OpenedKeepsOrphans(before, slots[s := Dereferenced(slots[s])], tasks[t].cwd, current, current, INODE_ROOTDIR, openInos[..], freed);
      }
    }

    predicate AtRoot(t: nat)
      reads this, openInos, tasks
      requires t < tasks.Length && 0 <= tasks[t].cwd < openInos.Length
    {
      openInos[tasks[t].cwd].vol == current ==> openInos[tasks[t].cwd].inode == INODE_ROOTDIR
    }

    /** TaskRegister(): the task's slot, or else a free one given to it. */
    method TaskRegister(id: nat) returns (t: int)
      requires Valid() && id != 0
      modifies tasks
      ensures Valid()
      ensures -1 <= t < TASK_COUNT
      ensures t == -1 <==> old(forall u | 0 <= u < TASK_COUNT :: tasks[u].id != 0 && tasks[u].id != id)
      ensures t == -1 ==> tasks[..] == old(tasks[..])
      ensures t != -1 ==>
                && tasks[..] == old(tasks[..])[t := Task(id, old(tasks[t].cwd))]
                && (old(tasks[t].id) == id || (old(tasks[t].id) == 0 && forall u | 0 <= u < TASK_COUNT :: old(tasks[u].id) != id))
    {
      t := -1;
      var free, i := -1, 0;
      while i < TASK_COUNT && t == -1
        invariant 0 <= i <= TASK_COUNT && -1 <= free < i
        invariant t == -1 ==> forall u | 0 <= u < i :: tasks[u].id != id
        invariant t != -1 ==> 0 <= t < TASK_COUNT && tasks[t].id == id
        invariant free != -1 ==> tasks[free].id == 0
        invariant free == -1 && t == -1 ==> forall u | 0 <= u < i :: tasks[u].id != 0
      {
        if tasks[i].id == id {
          t := i;
        } else if free == -1 && tasks[i].id == 0 {
          free := i;
        }
        i := i + 1;
      }
      if t == -1 && free != -1 {
        t := free;
        SetOwner(t, id);
      }
    }

    method SetOwner(t: nat, id: nat)
      requires Valid() && t < TASK_COUNT && (id == 0 || forall u | 0 <= u < TASK_COUNT :: tasks[u].id != id)
      modifies tasks
      ensures Valid() && tasks[..] == old(tasks[..])[t := Task(id, old(tasks[t].cwd))]
    {
      PointTask(handles[..], tasks[..], t, tasks[t].(id := id));
      assert Ptrs()[HANDLE_COUNT + t := tasks[t].cwd] == Ptrs();
      tasks[t] := tasks[t].(id := id);
    }

    /** TaskFind(). */
    method TaskFind(id: nat) returns (t: int)
      requires Valid() && id != 0
      ensures -1 <= t < TASK_COUNT
      ensures if t == -1 then forall u | 0 <= u < TASK_COUNT :: tasks[u].id != id else tasks[t].id == id
    {
      t := 0;
      while t < TASK_COUNT
        invariant 0 <= t <= TASK_COUNT && forall u | 0 <= u < t :: tasks[u].id != id
      {
        if tasks[t].id == id {
          return;
        }
        t := t + 1;
      }
      t := -1;
    }

    /** TaskUnregister().  An orphan that was the task's working directory is
        freed if the volume that happens to be current is writable. */
    method TaskUnregister(id: nat) returns (status: Status, t: int)
      requires Valid() && id != 0
      modifies openInos, tasks, this`current, this`freed
      ensures Valid() && -1 <= t < TASK_COUNT
      ensures t == -1 ==>
                && status == Failure(ENOENT) && (forall u | 0 <= u < TASK_COUNT :: tasks[u].id != id)
                && tasks[..] == old(tasks[..]) && openInos[..] == old(openInos[..]) && freed == old(freed) && current == old(current)
      ensures t != -1 ==>
                && status == Success && old(tasks[t].id) == id
                && tasks[..] == old(tasks[..])[t := Task(0, tasks[t].cwd)]
                && openInos[tasks[t].cwd].Is(0, INODE_ROOTDIR)
      ensures t != -1 ==>
                var o := old(openInos[tasks[t].cwd]);
                && Settled(o, true, mounts[old(current)].readOnly, old(freed), freed)
                && (!o.reserved ==>
                      (FreedIffOwn(o, mounts[..], old(freed), freed) <==>
                         mounts[old(current)].readOnly == mounts[o.vol].readOnly || !(o.refs == 1 && o.orphan)))
    {
      t := TaskFind(id);
      if t == -1 {
        return Failure(ENOENT), t;
      }
      ghost var o := openInos[tasks[t].cwd];
      ghost var was := freed;
      ghost var volume := current;
      SetOwner(t, 0);
      CwdClose(t, true, false);
      if !o.reserved {
        SettledAsOwnVolumePermits(o, mounts[..], volume, was, freed);
      }
      status := Success;
    }

    /** InodeUnlinkCheck(), given the inode's link count or why it cannot be had. */
    method InodeUnlinkCheck(inode: nat, links: Result<nat>) returns (status: Status)
      requires Valid() && inode != INODE_INVALID
      modifies openInos
      ensures Valid() && openInos[..] == old(openInos[..])
      ensures status ==
                if !exists s :: 0 <= s < OPEN_INODE_COUNT && openInos[s].Is(current, inode) then Success
                else if links.Err? then Failure(links.error)
                else if links.value == 1 then Failure(EBUSY)
                else Success
    {
      var s := OpenInoFind(current, inode, false);
      status := Success;
      if s != -1 {
        if links.Err? {
          status := Failure(links.error);
        } else if links.value == 1 {
          status := Failure(EBUSY);
        }
      }
    }

    /** InodeOrphaned(): its last link was removed; it is freed when its last
        reference is dropped. */
    method InodeOrphaned(inode: nat)
      requires Valid() && inode != INODE_INVALID
      modifies openInos
      ensures Valid()
      ensures forall s | 0 <= s < OPEN_INODE_COUNT ::
                openInos[s] == if old(openInos[s].Is(current, inode)) then old(openInos[s]).(orphan := true) else old(openInos[s])
    {
      ghost var ptrs := Ptrs();
      ghost var slots := openInos[..];
      var s := OpenInoFind(current, inode, false);
      if s != -1 {
        assert SlotOk(slots, ptrs, s);
        openInos[s] := openInos[s].(orphan := true);
        FlaggedBalances(slots, ptrs, s);
      }
    }

    /** RedCoreVolSetCurrent(). */
    method SetCurrent(vol: nat)
      requires Valid() && vol < VOLUME_COUNT
      modifies this`current
      ensures Valid() && current == vol
    {
      current := vol;
    }

    /** red_mount2(), given what RedCoreVolMount() returns. */
    method Mount2(readOnly: bool, core: Status) returns (status: Status)
      requires Valid()
      modifies mounts, this`mountings
      ensures Valid()
      ensures status == if old(mounts[current].mounted) then Failure(EBUSY) else core
      ensures status.Failure? ==> mounts[..] == old(mounts[..]) && mountings == old(mountings)
      ensures status.Success? ==>
                && mountings == old(mountings)[current := old(mountings)[current] + 1]
                && mounts[..] == old(mounts[..])[current := Mount(true, readOnly, Generation(mountings[current]))]
    {
      hide Balanced, HandlesOk, Pointers, OwnersDiffer;
      if mounts[current].mounted {
        return Failure(EBUSY);
      }
      status := core;
      if status.Success? {
        var generation := mounts[current].generation + 1;
        if generation > FD_GEN_MAX {
          generation := 1;
        }
        mountings := mountings[current := mountings[current] + 1];
        MountedKeepsHandles(handles[..], openInos[..], mounts[..], current, Mount(true, readOnly, generation));
        mounts[current] := Mount(true, readOnly, generation);
      }
    }

    predicate OpenOn(h: nat, vol: nat)
      reads this, handles, openInos
      requires h < handles.Length && -1 <= handles[h].slot < openInos.Length
    {
      handles[h].slot != -1 && openInos[handles[h].slot].vol == vol
    }

    /** One step of the sweep of red_umount2(), when closing is forced. */
    method SweepHandle(h: nat, ghost slots: seq<OpenInode>)
      requires Valid() && h < HANDLE_COUNT && OpenOn(h, current)
      requires !mounts[current].readOnly ==> OrphansKept(slots, openInos[..], current, freed)
      modifies openInos, handles, this`current, this`freed, this`transacted
      ensures Valid() && current == old(current) && transacted == old(transacted)
      ensures !mounts[current].readOnly ==> OrphansKept(slots, openInos[..], current, freed)
      ensures handles[..] == old(handles[..])[h := old(handles[h]).(slot := -1)]
      ensures !OpenOn(h, current)
      ensures forall i | 0 <= i < HANDLE_COUNT && i != h :: handles[i] == old(handles[i]) && OpenOn(i, current) == old(OpenOn(i, current))
    {
      hide Balanced, HandlesOk, Pointers, OwnersDiffer, OrphansKept, Settled;
      ghost var now, was, s := openInos[..], freed, handles[h].slot;
      var _ := HandleClose(h, false);
      if !mounts[current].readOnly {
        SettledKeepsOrphans(slots, now, s, current, was, freed);
      }
      forall i | 0 <= i < HANDLE_COUNT && i != h
        ensures handles[i] == old(handles[i]) && OpenOn(i, current) == old(OpenOn(i, current))
      {
        assert handles[i] == handles[..][i] == old(handles[..])[i];
      }
    }

    /** The sweep of red_umount2() over the handles: close those of the current
        volume, or refuse. */
    method CloseHandles(force: bool) returns (status: Status)
      requires Valid()
      modifies openInos, handles, this`current, this`freed, this`transacted
      ensures Valid() && current == old(current) && transacted == old(transacted)
      ensures !mounts[current].readOnly ==> OrphansKept(old(openInos[..]), openInos[..], current, freed)
      ensures status.Success? ==> forall h | 0 <= h < HANDLE_COUNT :: !OpenOn(h, current)
      ensures forall h | 0 <= h < HANDLE_COUNT && !old(OpenOn(h, current)) :: handles[h] == old(handles[h])
      ensures force ==> status.Success?
      ensures !force ==> handles[..] == old(handles[..]) && openInos[..] == old(openInos[..]) && freed == old(freed)
      ensures !force ==>
                status == if old(exists h :: 0 <= h < HANDLE_COUNT && OpenOn(h, current)) then Failure(EBUSY) else Success
    {
      hide Balanced, HandlesOk, Pointers, OwnersDiffer, OrphansKept;
      ghost var slots := openInos[..];
      NothingLost(slots, current, freed);
      var h := 0;
      while h < HANDLE_COUNT
        invariant 0 <= h <= HANDLE_COUNT && Valid() && current == old(current) && transacted == old(transacted)
        invariant !mounts[current].readOnly ==> OrphansKept(slots, openInos[..], current, freed)
        invariant forall i | 0 <= i < h :: !OpenOn(i, current)
        invariant forall i | 0 <= i < HANDLE_COUNT && !old(OpenOn(i, current)) :: handles[i] == old(handles[i])
        invariant forall i | h <= i < HANDLE_COUNT :: handles[i] == old(handles[i]) && OpenOn(i, current) == old(OpenOn(i, current))
        invariant !force ==> handles[..] == old(handles[..]) && openInos[..] == old(openInos[..]) && freed == old(freed)
      {
        if OpenOn(h, current) {
          if !force {
            assert old(OpenOn(h, current));
            return Failure(EBUSY);
          }
          SweepHandle(h, slots);
        }
        h := h + 1;
      }
      assert !force ==> forall i | 0 <= i < HANDLE_COUNT :: OpenOn(i, current) == old(OpenOn(i, current));
      status := Success;
    }

    /** What red_umount2() does before it unmounts: no handle and no working
        directory is left on the volume, and if it is writable no orphan. */
    method Vacate(force: bool) returns (status: Status)
      requires Valid()
      modifies openInos, handles, tasks, this`current, this`freed, this`transacted
      ensures Valid() && current == old(current) && transacted == old(transacted)
      ensures status.Success? ==> forall t | 0 <= t < TASK_COUNT :: AtRoot(t)
      ensures status.Success? ==> forall h | 0 <= h < HANDLE_COUNT :: !OpenOn(h, current)
      ensures status.Success? && !mounts[current].readOnly ==> NoOrphanLeft(old(openInos[..]), current, freed)
      ensures status == Failure(EBUSY) ==> !force && handles[..] == old(handles[..]) && openInos[..] == old(openInos[..])
      ensures !force && old(exists h :: 0 <= h < HANDLE_COUNT && OpenOn(h, current)) ==> status == Failure(EBUSY)
    {
      hide Balanced, HandlesOk, Pointers, OwnersDiffer, OrphansKept, NoOrphanLeft;
      ghost var before := openInos[..];
      status := CloseHandles(force);
      if status.Success? {
        label swept:
        if mounts[current].readOnly {
          before := openInos[..];
          NothingLost(before, current, freed);
        }
        CwdCloseVol(false, before);
        forall h | 0 <= h < HANDLE_COUNT
          ensures !OpenOn(h, current)
        {
          assert !old@swept(OpenOn(h, current));
          assert handles[h].slot != -1 ==> SameInode(old@swept(openInos[handles[h].slot]), openInos[handles[h].slot]);
        }
        Vacated();
        if !mounts[current].readOnly {
          OrphansFreed(before, openInos[..], current, freed);
        }
      }
    }

    lemma Vacated()
      requires Valid() && forall t | 0 <= t < TASK_COUNT :: AtRoot(t)
      requires forall h | 0 <= h < HANDLE_COUNT :: !OpenOn(h, current)
      ensures OnlyRoot(openInos[..], current)
      ensures forall h | 0 <= h < |handles[..]| && 0 <= handles[..][h].slot < |openInos[..]| :: openInos[..][handles[..][h].slot].vol != current
    {
      hide Balanced, Pointers, OwnersDiffer;
      forall h | 0 <= h < |handles[..]| && 0 <= handles[..][h].slot < |openInos[..]|
        ensures openInos[..][handles[..][h].slot].vol != current
      {
        assert !OpenOn(h, current);
      }
      forall t | 0 <= t < |tasks[..]| && 0 <= tasks[..][t].cwd < |openInos[..]|
        ensures openInos[..][tasks[..][t].cwd].vol == current ==> openInos[..][tasks[..][t].cwd].inode == INODE_ROOTDIR
      {
        assert AtRoot(t);
      }
      OnlyRootsLeft(handles[..], tasks[..], openInos[..], current);
    }

    /** red_umount2(). */
    method Umount2(force: bool) returns (status: Status)
      requires Valid()
      modifies openInos, handles, tasks, mounts, this`current, this`freed, this`transacted
      ensures Valid() && current == old(current) && transacted == old(transacted)
      ensures !old(mounts[current].mounted) ==> status == Failure(EINVAL)
      ensures status.Success? ==> mounts[..] == old(mounts[..])[current := old(mounts[current]).(mounted := false)]
      ensures status.Success? ==> forall t | 0 <= t < TASK_COUNT :: AtRoot(t)
      ensures status.Success? && !mounts[current].readOnly ==> NoOrphanLeft(old(openInos[..]), current, freed)
      ensures status.Failure? ==> mounts[..] == old(mounts[..])
      ensures status == Failure(EBUSY) ==> !force && handles[..] == old(handles[..]) && openInos[..] == old(openInos[..])
      ensures old(mounts[current].mounted) && !force && old(exists h :: 0 <= h < HANDLE_COUNT && OpenOn(h, current)) ==>
                status == Failure(EBUSY)
      ensures status.Success? ==> forall h | 0 <= h < HANDLE_COUNT :: !OpenOn(h, current)
    {
      hide Balanced, HandlesOk, Pointers, OwnersDiffer, NoOrphanLeft;
      if !mounts[current].mounted {
        return Failure(EINVAL);
      }
      status := Vacate(force);
      if status.Success? {
        status := CoreMayFail();
      }
      if status.Success? {
        Vacated();
        UnmountedKeepsHandles(handles[..], openInos[..], mounts[..], current);
        mounts[current] := mounts[current].(mounted := false);
      }
    }
  }

  /** red_init(): every task starts at the root of volume zero. */
  method RedInit() returns (p: Posix)
    ensures fresh(p) && fresh(p.openInos) && fresh(p.handles) && fresh(p.tasks) && fresh(p.mounts)
    ensures p.Valid() && p.freed == [] && p.mountings == seq(VOLUME_COUNT, _ => 0) && p.current == 0
    ensures forall s | 0 <= s < OPEN_INODE_COUNT :: AtFirst(p.openInos[s])
    ensures forall h | 0 <= h < HANDLE_COUNT :: p.handles[h].slot == -1
    ensures forall t | 0 <= t < TASK_COUNT :: p.tasks[t].id == 0 && p.openInos[p.tasks[t].cwd].Is(0, INODE_ROOTDIR)
    ensures forall v | 0 <= v < VOLUME_COUNT :: !p.mounts[v].mounted
  {
    hide Balanced, Pointers, HandlesOk, OwnersDiffer;
    p := new Posix();
    p.CwdResetAll();
  }

  /** Volume zero mounted writable and volume one read-only. */
  method TwoMounts() returns (p: Posix)
    requires VOLUME_COUNT >= 2
    ensures fresh(p) && fresh(p.openInos) && fresh(p.tasks) && p.Valid() && p.current == 0 && p.freed == []
    ensures p.mounts[0].mounted && !p.mounts[0].readOnly && p.mounts[1].mounted && p.mounts[1].readOnly
    ensures forall t | 0 <= t < TASK_COUNT :: p.tasks[t].id == 0 && p.openInos[p.tasks[t].cwd].Is(0, INODE_ROOTDIR)
    ensures forall s | 0 <= s < OPEN_INODE_COUNT :: AtFirst(p.openInos[s])
  {
    hide Balanced, HandlesOk, Pointers, OwnersDiffer;
    p := RedInit();
    var writable := p.Mount2(false, Success);
    p.SetCurrent(1);
    var readable := p.Mount2(true, Success);
    p.SetCurrent(0);
  }

  /** The same, with a task in a directory other than the root. */
  method EnterDirectory(task: nat, inode: nat) returns (p: Posix, t: nat)
    requires VOLUME_COUNT >= 2 && task != 0 && inode != INODE_INVALID && inode != INODE_ROOTDIR
    ensures fresh(p) && fresh(p.openInos) && fresh(p.tasks) && p.Valid() && p.current == 0 && p.freed == []
    ensures p.mounts[0].mounted && !p.mounts[0].readOnly && p.mounts[1].mounted && p.mounts[1].readOnly
    ensures t < TASK_COUNT && p.tasks[t].id == task && p.openInos[p.tasks[t].cwd] == OpenInode(inode, 0, false, false, 1)
  {
    hide Balanced, HandlesOk, Pointers, OwnersDiffer;
    p := TwoMounts();
    assert p.tasks[0].id == 0;
    var slot := p.TaskRegister(task);
    t := slot;
    p.ChangeDirectory(t, inode);
    assert p.tasks[t].id == task;
  }

  /** That directory is removed, and the task goes to the volume that is
      read-only: the orphan is not freed, and nothing refers to it any more. */
  method OrphanLeftBehind(task: nat, inode: nat) returns (p: Posix)
    requires VOLUME_COUNT >= 2 && task != 0 && inode != INODE_INVALID && inode != INODE_ROOTDIR
    ensures fresh(p) && p.Valid() && p.mounts[0].mounted && !p.mounts[0].readOnly
    ensures p.freed == [] && forall s | 0 <= s < OPEN_INODE_COUNT :: !p.openInos[s].Is(0, inode)
    ensures exists t :: 0 <= t < TASK_COUNT && p.tasks[t].id == task && p.openInos[p.tasks[t].cwd].Is(1, INODE_ROOTDIR)
  {
    hide Balanced, HandlesOk, Pointers, OwnersDiffer;
    var t;
    p, t := EnterDirectory(task, inode);
    ghost var slot := p.tasks[t].cwd;
    p.InodeOrphaned(inode);
    p.SetCurrent(1);
    OnlySlot(p.openInos[..], p.Ptrs(), slot, inode);
    p.ChangeDirectory(t, INODE_ROOTDIR);
    assert p.tasks[t].id == task;
  }

  /** No other slot is that of the same inode. */
  lemma OnlySlot(slots: seq<OpenInode>, ptrs: seq<int>, s: nat, inode: nat)
    requires Balanced(slots, ptrs) && s < |slots| && slots[s].Is(0, inode) && inode != INODE_INVALID
    ensures forall u | 0 <= u < |slots| && u != s :: !slots[u].Is(0, inode)
  {
  }

  function TypeOf(h: Handle): FileType {
    if h.directory then DirectoryType else if h.symlink then SymlinkType else FileType
  }

  function Distance(m: nat, n: nat): nat {
    if m < n then n - m else m - n
  }
}
