/** The directory operations of core/driver/dir.c, on one directory's data. */
module Directories {
  import opened Errors
  import opened Constants
  import opened Components
  import opened Arithmetic
  import opened DirLayout
  import opened DirEntries

  type InodeCount = n: nat | 1 <= n witness 1
  /** The volume's ulInodeCount. */
  const INODE_COUNT: InodeCount

  predicate InodeIsValid(inode: nat) {
    INODE_FIRST_VALID <= inode < INODE_FIRST_VALID + INODE_COUNT
  }

  /** The entry stored at a byte offset; zeros where nothing was written. */
  function Stored(data: map<nat, Dirent>, offset: nat): Dirent {
    if offset in data then data[offset] else FREE
  }

  ghost function Entries(data: map<nat, Dirent>, n: nat): (es: seq<Dirent>)
    ensures |es| == n
  {
    seq(n, i requires i >= 0 => Stored(data, IndexToOffset(i)))
  }

  /** A name as passed to these functions ends at a NUL or a separator. */
  function NameOf(path: seq<char>): Name {
    path[..NameEnd(path, 0)]
  }

  /** What RedDirEntryLookup() reports as the first available entry. */
  function FreeIndex(es: seq<Dirent>): nat {
    if FirstFree(es, 0) < DIRENTS_MAX then FirstFree(es, 0) else DIR_INDEX_INVALID
  }

  /** The first free entry, if it comes before index `i`. */
  function FreeBefore(es: seq<Dirent>, i: nat): nat {
    if FirstFree(es, 0) < i then FirstFree(es, 0) else DIR_INDEX_INVALID
  }

  /** The blocks that are not sparse are those the size takes up. */
  ghost predicate Dense(present: set<nat>, size: nat) {
    forall b: nat :: b in present <==> b < BlocksOf(size)
  }

  /** The index at which the block of index `i` starts. */
  function BlockStart(i: nat): nat {
    BlockOf(i) * DIRENTS_PER_BLOCK
  }

  lemma BlockStartIs(i: nat)
    ensures BlockStart(i) + i % DIRENTS_PER_BLOCK == i && BlockStart(i) % DIRENTS_PER_BLOCK == 0
    ensures BlockStart(i) == BlockOf(i) * DIRENTS_PER_BLOCK
  {
    QuotientIs(BlockStart(i), DIRENTS_PER_BLOCK, BlockOf(i), 0);
  }

  /** CINODE, for a directory: its data as the entries at their byte offsets,
      and which of its blocks are not sparse. */
  class Directory {
    const inode: nat
    var mounted: bool
    var branched: bool
    const isDirectory: bool
    var size: nat
    var data: map<nat, Dirent>
    var present: set<nat>
    /** RedPermCheck(RED_X_OK) and RedPermCheck(RED_W_OK). */
    const searchable: bool
    const writable: bool
    /** Whether the disk never fails and has room for every write. */
    const sound: bool

    /** A directory just created: it has no data. */
    constructor (inode: nat, searchable: bool, writable: bool, sound: bool)
      ensures Valid() && IsDirty() && isDirectory && List() == [] && Map() == map[]
      ensures this.inode == inode && this.searchable == searchable && this.writable == writable && this.sound == sound
    {
      this.inode, this.searchable, this.writable, this.sound := inode, searchable, writable, sound;
      mounted, branched, isDirectory := true, true, true;
      size, data, present := 0, map[], {};
      CountOfSize(0);
      BlocksOfSize(0);
    }

    predicate IsDirty()
      reads this
    {
      mounted && branched
    }

    ghost function List(): seq<Dirent>
      reads this
    {
      Entries(data, OffsetToIndex(size))
    }

    ghost function Map(): map<Name, nat>
      reads this
    {
      Bindings(List())
    }

    /** The size is that of the entries, and no block of them is sparse. */
    ghost predicate Laid()
      reads this
    {
      && size == SizeOf(|List()|)
      && Dense(present, size)
    }

    ghost predicate Valid()
      reads this
    {
      Laid() && Packed(List())
    }

    /** RedInodeDataSeekAndRead(): the entries of one block. */
    method SeekAndRead(block: nat) returns (status: Status, slots: seq<Dirent>)
      ensures status == Failure(ENODATA) ==> block !in present
      ensures status.Failure? ==> status == Failure(ENODATA) || (status == Failure(EIO) && !sound)
      ensures status.Success? ==> |slots| == DIRENTS_PER_BLOCK
      ensures status.Success? ==> forall k | 0 <= k < DIRENTS_PER_BLOCK :: slots[k] == Stored(data, SlotOffset(block, k))
    {
      var good: bool := *;
      if !good && !sound {
        return Failure(EIO), [];
      }
      if block !in present {
        return Failure(ENODATA), [];
      }
      var d := data;
      status, slots := Success, seq(DIRENTS_PER_BLOCK, k requires k >= 0 => Stored(d, SlotOffset(block, k)));
    }

    /** RedInodeDataWrite() of an entry. */
    method DataWrite(offset: nat, e: Dirent) returns (status: Status)
      requires IsDirty() && offset + DIRENT_SIZE <= INODE_SIZE_MAX && offset % BLOCK_SIZE + DIRENT_SIZE <= BLOCK_SIZE
      modifies this`data, this`size, this`present
      ensures status.Failure? ==> data == old(data) && size == old(size) && present == old(present)
      ensures status.Failure? ==> !sound && (status == Failure(EIO) || status == Failure(ENOSPC))
      ensures status.Success? ==>
                && data == old(data)[offset := e]
                && size == (if offset + DIRENT_SIZE > old(size) then offset + DIRENT_SIZE else old(size))
                && present == old(present) + {offset / BLOCK_SIZE}
    {
      hide UsedSpace;
      var error: Errno :| error == EIO || error == ENOSPC;
      var good: bool := *;
      if !good && !sound {
        return Failure(error);
      }
      data := data[offset := e];
      if offset + DIRENT_SIZE > size {
        size := offset + DIRENT_SIZE;
      }
      present := present + {offset / BLOCK_SIZE};
      status := Success;
    }

    /** RedInodeDataTruncate() to a smaller size: nothing is said of what lies
        beyond that size afterwards.  Lack of space shows before any block is
        freed, but a failing read may come after some were. */
    method DataTruncate(newSize: nat) returns (status: Status)
      requires mounted && newSize < size
      modifies this`data, this`size, this`present
      ensures status.Failure? ==> !sound && (status == Failure(EIO) || status == Failure(ENOSPC))
      ensures status.Failure? ==>
                && size == old(size) && present <= old(present)
                && (status == Failure(ENOSPC) ==> present == old(present))
                && (present == old(present) ==> data == old(data))
                && (forall o: nat :: Stored(data, o) == Stored(old(data), o) ||
                                     (o / BLOCK_SIZE >= BlocksOf(newSize) && Stored(data, o) == FREE))
      ensures status.Success? ==>
                && size == newSize
                && (forall o: nat | o + DIRENT_SIZE <= newSize :: Stored(data, o) == Stored(old(data), o))
                && present == (set b | b in old(present) && b < BlocksOf(newSize))
    {
      var error: Errno :| error == EIO || error == ENOSPC;
      var good: bool := *;
      if !good && !sound {
        if error == EIO {
          var chosen: set<nat> := *;
          var freed := set b | b in present && b in chosen && b >= BlocksOf(newSize);
          present := present - freed;
          data := map o | o in data && o / BLOCK_SIZE !in freed :: data[o];
        }
        return Failure(error);
      }
      data := map o | o in data && o + DIRENT_SIZE <= newSize :: data[o];
      present := set b | b in present && b < BlocksOf(newSize);
      size := newSize;
      status := Success;
    }

    /** The inner loop of RedDirEntryLookup(): search the block that starts at
        index `start`. */
    method SearchBlock(slots: seq<Dirent>, start: nat, count: nat, path: seq<char>, free0: nat, ghost es: seq<Dirent>)
      returns (k: nat, free: nat)
      requires count <= |slots| && start + count <= |es| <= DIRENTS_MAX
      requires slots[..count] == es[start..start + count]
      requires free0 == FreeBefore(es, start)
      ensures k <= count && free == FreeBefore(es, start + k)
      ensures forall i | start <= i < start + k :: !(es[i].Live() && Matches(es[i], path, NameEnd(path, 0)))
      ensures k < count ==> es[start + k].Live() && Matches(es[start + k], path, NameEnd(path, 0))
    {
      k, free := 0, free0;
      while k < count
        invariant k <= count && free == FreeBefore(es, start + k)
        invariant forall i | start <= i < start + k :: !(es[i].Live() && Matches(es[i], path, NameEnd(path, 0)))
      {
        assert slots[k] == slots[..count][k] == es[start + k];
        if slots[k].Live() {
          if Matches(slots[k], path, NameEnd(path, 0)) {
            return;
          }
        } else if free == DIR_INDEX_INVALID {
          free := start + k;
        }
        k := k + 1;
      }
    }

    /** The entries that a block holds. */
    lemma BlockHolds(b: nat, k: nat)
      requires k < DIRENTS_PER_BLOCK && b * DIRENTS_PER_BLOCK + k < OffsetToIndex(size)
      ensures List()[b * DIRENTS_PER_BLOCK + k] == Stored(data, SlotOffset(b, k))
    {
      SlotIs(b * DIRENTS_PER_BLOCK + k, b, k);
    }

    /** No block that holds an entry is sparse. */
    lemma NotSparse(i: nat)
      requires Laid() && i < |List()|
      ensures BlockOf(i) in present
    {
      hide IndexToOffset, SlotOffset, OffsetToIndex;
      var n := |List()|;
      BlocksOfSize(n);
      var b, k := Slot(i);
      SlotIs(i, b, k);
      var c, l := Slot(n - 1);
      SlotIs(n - 1, c, l);
      if c < b {
        ProductGrows(c, b, DIRENTS_PER_BLOCK);
      }
    }

    /** Block `b` of a directory, up to the last entry, is a run of its list. */
    lemma BlockIsRun(b: nat, start: nat, count: nat, slots: seq<Dirent>)
      requires count <= DIRENTS_PER_BLOCK == |slots| && start + count <= |List()| && start == b * DIRENTS_PER_BLOCK
      requires forall k | 0 <= k < DIRENTS_PER_BLOCK :: slots[k] == Stored(data, SlotOffset(b, k))
      ensures slots[..count] == List()[start..start + count]
    {
      hide SlotOffset, OffsetToIndex, IndexToOffset;
      forall k | 0 <= k < count
        ensures slots[k] == List()[start + k]
      {
        BlockHolds(b, k);
      }
    }

    /** A block read for an index: never sparse, and holding that entry. */
    method ReadBlock(index: nat) returns (status: Status, slots: seq<Dirent>, count: nat, ghost start: nat)
      requires Laid() && index < |List()|
      ensures status.Failure? ==> status == Failure(EIO) && !sound
      ensures status.Success? ==>
                && start + index % DIRENTS_PER_BLOCK == index < start + count <= |List()|
                && start % DIRENTS_PER_BLOCK == 0
                && count == (if DIRENTS_PER_BLOCK <= |List()| - start then DIRENTS_PER_BLOCK else |List()| - start)
                && count <= |slots| && slots[..count] == List()[start..start + count]
    {
      hide IndexToOffset, SlotOffset, OffsetToIndex, SizeOf, BlocksOf, BlockStart;
      NotSparse(index);
      BlockStartIs(index);
      status, slots := SeekAndRead(BlockOf(index));
      count, start := 0, 0;
      if status == Failure(ENODATA) {
        assert false;
      } else if status.Success? {
        start := BlockStart(index);
        var left := OffsetToIndex(size) - BlockStart(index);
        count := if DIRENTS_PER_BLOCK <= left then DIRENTS_PER_BLOCK else left;
        BlockIsRun(BlockOf(index), start, count, slots);
      }
    }

    /** The same for the first index of a block: the run of entries from there. */
    method ReadFrom(index: nat) returns (status: Status, slots: seq<Dirent>, count: nat)
      requires Laid() && index < |List()| && StartsBlock(index)
      ensures status.Failure? ==> status == Failure(EIO) && !sound
      ensures status.Success? ==>
                && 0 < count <= |slots| && index + count <= |List()| && slots[..count] == List()[index..index + count]
                && (index + count == |List()| || StartsBlock(index + count))
    {
      hide IndexToOffset, OffsetToIndex, SizeOf, Dense, Entries;
      ghost var start;
      status, slots, count, start := ReadBlock(index);
      if status.Success? {
        AdvanceBlock(index, count, |List()|);
      }
    }

    predicate StartsBlock(i: nat) {
      i % DIRENTS_PER_BLOCK == 0
    }

    lemma FirstStarts()
      ensures StartsBlock(0)
    {
    }

    /** The outer loop of RedDirEntryLookup(). */
    method Search(path: seq<char>) returns (status: Status, index: nat, free: nat, inode: nat)
      requires Valid() && 1 <= NameEnd(path, 0) <= NAME_MAX
      ensures status.Failure? ==> status == Failure(EIO) && !sound
      ensures status.Success? && index == |List()| ==>
                && free == FreeBefore(List(), |List()|)
                && forall i | 0 <= i < |List()| :: !(List()[i].Live() && Matches(List()[i], path, NameEnd(path, 0)))
      ensures status.Success? && index != |List()| ==>
                && index < |List()| && List()[index].inode == inode
                && List()[index].Live() && Matches(List()[index], path, NameEnd(path, 0))
    {
      hide StartsBlock;
      FirstStarts();
      ghost var es := List();
      var total := OffsetToIndex(size);
      index, free, inode := 0, DIR_INDEX_INVALID, INODE_INVALID;
      while index < total
        invariant index <= total && (index == total || StartsBlock(index))
        invariant free == FreeBefore(es, index)
        invariant forall i | 0 <= i < index :: !(es[i].Live() && Matches(es[i], path, NameEnd(path, 0)))
      {
        var slots, count, k;
        status, slots, count := ReadFrom(index);
        if status.Failure? {
          return;
        }
        k, free := SearchBlock(slots, index, count, path, free, es);
        if k < count {
          assert slots[k] == slots[..count][k];
          inode := slots[k].inode;
          index := index + k;
          return;
        }
        index := index + count;
      }
      status := Success;
    }

    lemma AdvanceBlock(start: nat, count: nat, total: nat)
      requires start % DIRENTS_PER_BLOCK == 0 && start <= total
      requires count == if DIRENTS_PER_BLOCK <= total - start then DIRENTS_PER_BLOCK else total - start
      ensures start + count == total || (start + count) % DIRENTS_PER_BLOCK == 0
    {
      if count == DIRENTS_PER_BLOCK {
        var b := start / DIRENTS_PER_BLOCK;
        QuotientIs(start + count, DIRENTS_PER_BLOCK, b + 1, 0);
      }
    }

    /** RedDirEntryLookup(): what the name is bound to, or else the first entry
        available for it. */
    method RedDirEntryLookup(path: seq<char>) returns (status: Status, index: nat, inode: nat)
      requires Valid()
      ensures status == LookupRefusal(path) || (LookupRefusal(path).Success? &&
                (status.Success? || status == Failure(ENOENT) || (status == Failure(EIO) && !sound)))
      ensures status.Success? ==>
                && Binds(List(), index, NameOf(path)) && inode == List()[index].inode
                && NameOf(path) in Map() && inode == Map()[NameOf(path)]
      ensures status == Failure(ENOENT) ==> NameOf(path) !in Map() && index == FreeIndex(List())
      ensures sound && mounted && isDirectory && ProperName(NameOf(path)) ==>
                (status.Success? <==> searchable && NameOf(path) in Map())
      ensures status == Failure(ENOTDIR) <==> mounted && !isDirectory
      ensures status == Failure(EACCES) <==> mounted && isDirectory && !searchable
      ensures status == Failure(EINVAL) <==> !mounted || (isDirectory && searchable && NameOf(path) == "")
      ensures status == Failure(ENAMETOOLONG) <==> mounted && isDirectory && searchable && |NameOf(path)| > NAME_MAX
    {
      ProperLength(path);
      status, index, inode := LookupRefusal(path), DIR_INDEX_INVALID, INODE_INVALID;
      if status.Success? {
        var free;
        status, index, free, inode := Search(path);
        if status.Success? {
          SearchDecides(path, index);
          if index == OffsetToIndex(size) {
            if free == DIR_INDEX_INVALID && index < DIRENTS_MAX {
              free := index;
            }
            index := free;
            status := Failure(ENOENT);
          }
        }
      }
    }

    /** What RedDirEntryLookup() refuses outright. */
    function LookupRefusal(path: seq<char>): Status
      reads this
    {
      if !mounted then Failure(EINVAL)
      else if !isDirectory then Failure(ENOTDIR)
      else if !searchable then Failure(EACCES)
      else if NameEnd(path, 0) == 0 then Failure(EINVAL)
      else if NameEnd(path, 0) > NAME_MAX then Failure(ENAMETOOLONG)
      else Success
    }

    /** What the search compares decides what the map holds. */
    lemma SearchDecides(path: seq<char>, index: nat)
      requires Valid() && 1 <= NameEnd(path, 0) <= NAME_MAX
      requires index < |List()| ==> List()[index].Live() && Matches(List()[index], path, NameEnd(path, 0))
      ensures index < |List()| ==>
                && Binds(List(), index, NameOf(path))
                && NameOf(path) in Map() && Map()[NameOf(path)] == List()[index].inode
      ensures (forall i | 0 <= i < |List()| :: !(List()[i].Live() && Matches(List()[i], path, NameEnd(path, 0)))) ==>
                NameOf(path) !in Map()
    {
      hide OffsetToIndex, Matches, NameEnd;
      var es := List();
      if index < |es| {
        assert es[index] in es;
        MatchIsEquality(es[index], path);
        BindingsAt(es, index);
      }
      if NameOf(path) in Map() {
        var i := BindingsFrom(es, NameOf(path));
        assert es[i] in es;
        MatchIsEquality(es[i], path);
      }
    }

    /** DirEntryWrite(). */
    method DirEntryWrite(index: nat, inode: nat, path: seq<char>, length: nat) returns (status: Status)
      requires Laid() && index <= |List()| && length <= |path|
      modifies this`data, this`size, this`present
      ensures Laid()
      ensures status.Failure? ==> List() == old(List()) && present == old(present)
      ensures status == WriteRefusal(index, inode, length) || (WriteRefusal(index, inode, length).Success? && !sound &&
                (status == Failure(EIO) || status == Failure(ENOSPC)))
      ensures status == Failure(EINVAL) <==>
                || !IsDirty() || index >= DIRENTS_MAX || length > NAME_MAX
                || !(if length == 0 then inode == INODE_INVALID else InodeIsValid(inode))
      ensures status == Failure(ENOTDIR) ==> !isDirectory
      ensures status.Success? ==>
                && isDirectory && WriteRefusal(index, inode, length).Success?
                && List() == Written(old(List()), index, Dirent(inode, Padded(path[..length])))
    {
      status := WriteRefusal(index, inode, length);
      if status.Success? {
        hide IndexToOffset, SlotOffset, OffsetToIndex, SizeOf, BlocksOf, Dense;
        EntryFits(index);
        ghost var before, n, blocks := data, |List()|, present;
        status := DataWrite(IndexToOffset(index), Dirent(inode, Padded(path[..length])));
        if status.Success? {
          WrittenData(before, n, index, Dirent(inode, Padded(path[..length])));
          WrittenBlocks(blocks, n, index);
        }
      }
    }

    function WriteRefusal(index: nat, inode: nat, length: nat): (status: Status)
      reads this
      ensures status.Success? ==> length <= NAME_MAX && index < DIRENTS_MAX
    {
      if !IsDirty() || index >= DIRENTS_MAX || (!InodeIsValid(inode) && inode != INODE_INVALID)
        || length > NAME_MAX || (length == 0) != (inode == INODE_INVALID)
      then Failure(EINVAL)
      else if !isDirectory then Failure(ENOTDIR)
      else Success
    }

    /** The inner loop of RedDirEntryRead(): forwards through a block. */
    method NextLiveIn(slots: seq<Dirent>, from: nat, ghost start: nat, ghost es: seq<Dirent>) returns (k: nat)
      requires from <= |slots| && start + |slots| <= |es| && slots == es[start..start + |slots|]
      ensures from <= k <= |slots| && (k < |slots| ==> slots[k].Live())
      ensures NextLive(es, start + k) == NextLive(es, start + from)
    {
      k := from;
      while k < |slots| && !slots[k].Live()
        invariant from <= k <= |slots|
        invariant NextLive(es, start + k) == NextLive(es, start + from)
      {
        k := k + 1;
      }
    }

    /** The outer loop of RedDirEntryRead(). */
    method SeekLive(pos: nat) returns (status: Status, index: nat, entry: Dirent)
      requires Laid()
      ensures status.Failure? ==> status == Failure(EIO) && !sound
      ensures status.Success? ==> pos <= index && (pos <= |List()| ==> index <= |List()| && NextLive(List(), pos) == NextLive(List(), index))
      ensures status.Success? && index < |List()| ==> List()[index].Live() && entry == List()[index]
    {
      hide OffsetToIndex, Dense, SizeOf, NextLive, Entries;
      ghost var es := List();
      status, index, entry := Success, pos, FREE;
      while index < OffsetToIndex(size)
        invariant status.Success? && pos <= index && (pos <= |es| ==> index <= |es| && NextLive(es, pos) == NextLive(es, index))
      {
        var slots, count;
        ghost var start;
        status, slots, count, start := ReadBlock(index);
        if status.Failure? {
          return;
        }
        var k := NextLiveIn(slots[..count], index % DIRENTS_PER_BLOCK, start, es);
        index := index - index % DIRENTS_PER_BLOCK + k;
        if k < count {
          assert slots[k] == slots[..count][k];
          entry := slots[k];
          return;
        }
      }
    }

    /** RedDirEntryRead(): the next of what the directory lists. */
    method RedDirEntryRead(pos: nat) returns (status: Status, next: nat, name: Name, inode: nat)
      requires Valid()
      ensures !mounted ==> status == Failure(EINVAL)
      ensures mounted && !isDirectory ==> status == Failure(ENOTDIR)
      ensures mounted && isDirectory ==> status.Success? || status == Failure(ENOENT) || (status == Failure(EIO) && !sound)
      ensures status.Success? ==>
                && pos < next <= |List()|
                && Listing(List(), pos) == [Listed(name, inode)] + Listing(List(), next)
      ensures status == Failure(ENOENT) ==> next == |List()| && (pos <= |List()| ==> Listing(List(), pos) == [])
    {
      status, next, name, inode := Success, pos, "", INODE_INVALID;
      if !mounted {
        status := Failure(EINVAL);
      } else if !isDirectory {
        status := Failure(ENOTDIR);
      } else {
        var index, entry;
        status, index, entry := SeekLive(pos);
        if status.Success? {
          if pos <= OffsetToIndex(size) {
            ListingFrom(List(), pos, index);
          }
          if index < OffsetToIndex(size) {
            next, name, inode := index + 1, entry.Name(), entry.inode;
          } else {
            next := OffsetToIndex(size);
            status := Failure(ENOENT);
          }
        }
      }
    }

    /** The inner loop of that search: backwards through a block. */
    method LastLiveIn(slots: seq<Dirent>, from: nat) returns (k: int)
      requires from < |slots|
      ensures -1 <= k <= from && (k >= 0 ==> slots[k].Live())
      ensures forall j | k < j <= from :: !slots[j].Live()
    {
      k := from;
      while k >= 0 && !slots[k].Live()
        invariant -1 <= k <= from
        invariant forall j | k < j <= from :: !slots[j].Live()
      {
        k := k - 1;
      }
    }

    /** The search of RedDirEntryDelete(): the entry after the last live one
        before `index`, where the directory is to be cut off. */
    method FindCut(index: nat) returns (status: Status, cut: nat)
      requires Laid() && index < |List()|
      ensures status.Failure? ==> status == Failure(EIO) && !sound
      ensures status.Success? ==>
                && cut <= index
                && (cut > 0 ==> List()[cut - 1].Live())
                && forall k | cut <= k < index :: !List()[k].Live()
    {
      ghost var es := List();
      status := Success;
      var last: int := index - 1;
      var done := false;
      while last != -1 && !done
        invariant status.Success? && -1 <= last < index
        invariant forall k | last < k < index :: !es[k].Live()
        invariant done ==> last >= 0 && es[last].Live()
        decreases !done, last
      {
        var slots, count;
        ghost var start;
        status, slots, count, start := ReadBlock(last);
        if status.Failure? {
          return status, 0;
        }
        var k := LastLiveIn(slots[..count], last % DIRENTS_PER_BLOCK);
        forall j | start + k < j < index
          ensures !es[j].Live()
        {
          assert j <= last ==> slots[..count][j - start] == es[j];
        }
        done := k >= 0;
        last := last - (last % DIRENTS_PER_BLOCK - k);
      }
      cut := last + 1;
    }

    /** Cut the directory off at its first `n` entries.  If that fails part way,
        some blocks beyond are sparse, and so their entries free. */
    method CutOff(n: nat) returns (status: Status)
      requires Laid() && mounted && n < |List()|
      modifies this`data, this`size, this`present
      ensures status.Failure? ==> !sound && (status == Failure(EIO) || status == Failure(ENOSPC))
      ensures status == Failure(ENOSPC) ==> present == old(present)
      ensures status.Failure? ==> Eroded(old(List()), n, List()) && (Laid() <==> present == old(present))
      ensures status.Failure? && present == old(present) ==> List() == old(List())
      ensures status.Success? ==> Laid() && List() == old(List())[..n]
    {
      hide IndexToOffset, OffsetToIndex, SizeOf, BlocksOf, TruncatedSize;
      TruncatedSizeIs(n);
      CutSizes(n, |List()|);
      ghost var before, count, blocks := data, |List()|, present;
      status := DataTruncate(TruncatedSize(n));
      if status.Success? {
        CutData(before, data, n, count);
        CutBlocks(blocks, n, count);
      } else {
        ErodedData(before, data, n, count);
      }
    }

    /** What RedDirEntryDelete() refuses outright. */
    function DeleteRefusal(index: nat, permitted: bool): Status
      reads this
    {
      if !IsDirty() then Failure(EINVAL)
      else if !isDirectory then Failure(ENOTDIR)
      else if index >= DIRENTS_MAX || IndexToOffset(index) >= size then Failure(EINVAL)
      else if !permitted then Failure(EACCES)
      else Success
    }

    /** The two ways in which RedDirEntryDelete() removes an entry. */
    method Remove(index: nat) returns (status: Status)
      requires Laid() && index < |List()| <= DIRENTS_MAX && IsDirty() && isDirectory
      modifies this`data, this`size, this`present
      ensures status.Failure? ==> !sound && (status == Failure(EIO) || status == Failure(ENOSPC))
      ensures status == Failure(ENOSPC) ==> present == old(present)
      ensures status.Failure? ==> Interrupted(old(List()), index, List()) && (Laid() <==> present == old(present))
      ensures status.Failure? && present == old(present) ==> List() == old(List())
      ensures status.Success? ==> Laid() && Removed(old(List()), index, List())
    {
      hide IndexToOffset, OffsetToIndex, SizeOf, Dense, Entries;
      Located(index, |List()|);
      if IndexToOffset(index) + DIRENT_SIZE == size {
        var cut;
        status, cut := FindCut(index);
        if status.Success? {
          ghost var es := List();
          status := CutOff(cut);
          if status.Failure? {
            ErodedFrom(es, cut, index, List());
          }
        }
      } else {
        assert ""[..0] == "";
        status := DirEntryWrite(index, INODE_INVALID, "", 0);
      }
    }

    /** RedDirEntryDelete(): `permitted` is RedPermCheckUnlink(), or true if the
        caller passes no inode.  If it fails having freed some blocks, they are
        sparse, and the entry may be gone all the same. */
    method RedDirEntryDelete(index: nat, permitted: bool) returns (status: Status)
      requires Valid()
      modifies this`data, this`size, this`present
      ensures status != Failure(EIO) ==> Valid()
      ensures status == old(DeleteRefusal(index, permitted)) || (old(DeleteRefusal(index, permitted)).Success? && !sound &&
                (status == Failure(EIO) || status == Failure(ENOSPC)))
      ensures status.Failure? && status != Failure(EIO) ==> List() == old(List())
      ensures sound && IsDirty() && isDirectory ==>
                (status.Success? <==> index < |old(List())| && index < DIRENTS_MAX && permitted)
      ensures status == Failure(ENOTDIR) <==> IsDirty() && !isDirectory
      ensures status == Failure(EINVAL) <==> !IsDirty() || (isDirectory && !(index < |old(List())| && index < DIRENTS_MAX))
      ensures status == Failure(EACCES) <==> IsDirty() && isDirectory && index < |old(List())| && index < DIRENTS_MAX && !permitted
      ensures status == Failure(EIO) ==>
                && (Valid() <==> present == old(present)) && (Valid() ==> List() == old(List()))
                && index < old(|List()|)
                && (Map() == old(Map()) || (old(List()[index].Live()) && Map() == old(Map()) - {old(List()[index].Name())}))
      ensures status.Success? ==>
                && index < old(|List()|)
                && List() == Trimmed(old(List())[index := FREE])
                && Map() == if old(List()[index].Live()) then old(Map()) - {old(List()[index].Name())} else old(Map())
    {
      Located(index, |List()|);
      status := DeleteRefusal(index, permitted);
      if status.Success? {
        ghost var es := List();
        status := Remove(index);
        if status.Success? {
          DeletedIs(es, index, List());
        } else {
          InterruptedIs(es, index, List());
        }
      }
    }

    /** What RedDirEntryCreate() refuses outright. */
    function CreateRefusal(path: seq<char>, inode: nat): Status
      reads this
    {
      if !IsDirty() || !InodeIsValid(inode) then Failure(EINVAL)
      else if !isDirectory then Failure(ENOTDIR)
      else if !searchable || !writable then Failure(EACCES)
      else if NameEnd(path, 0) == 0 then Failure(EINVAL)
      else if NameEnd(path, 0) > NAME_MAX then Failure(ENAMETOOLONG)
      else if IsDots(NameOf(path)) then Failure(EINVAL)
      else Success
    }

    /** RedDirEntryCreate(). */
    method RedDirEntryCreate(path: seq<char>, inode: nat) returns (status: Status)
      requires Valid()
      modifies this`data, this`size, this`present
      ensures Valid()
      ensures status.Failure? ==> List() == old(List())
      ensures CreateRefusal(path, inode).Failure? ==> status == CreateRefusal(path, inode)
      ensures CreateRefusal(path, inode).Success? ==>
                && (NameOf(path) in old(Map()) ==> status == Failure(EEXIST) || status == Failure(EIO))
                && (NameOf(path) !in old(Map()) && FreeIndex(old(List())) == DIR_INDEX_INVALID ==>
                      status == Failure(ENOSPC) || status == Failure(EIO))
                && (status.Failure? ==> status == Failure(EEXIST) || status == Failure(EIO) || status == Failure(ENOSPC))
                && (status == Failure(EEXIST) ==> NameOf(path) in old(Map()))
      ensures sound && CreateRefusal(path, inode).Success? ==>
                status == (if NameOf(path) in old(Map()) then Failure(EEXIST)
                           else if FreeIndex(old(List())) == DIR_INDEX_INVALID then Failure(ENOSPC)
                           else Success)
      ensures sound && IsDirty() && isDirectory && InodeIsValid(inode) && ProperName(NameOf(path)) ==>
                (status.Success? <==> searchable && writable && NameOf(path) !in old(Map()) && HasRoom(old(List())))
      ensures status == Failure(ENOTDIR) <==> IsDirty() && InodeIsValid(inode) && !isDirectory
      ensures status == Failure(EACCES) <==> IsDirty() && InodeIsValid(inode) && isDirectory && !(searchable && writable)
      ensures status == Failure(ENAMETOOLONG) <==>
                IsDirty() && InodeIsValid(inode) && isDirectory && searchable && writable && |NameOf(path)| > NAME_MAX
      ensures status == Failure(EINVAL) <==>
                || !IsDirty() || !InodeIsValid(inode)
                || (isDirectory && searchable && writable && (NameOf(path) == "" || IsDots(NameOf(path))) && |NameOf(path)| <= NAME_MAX)
      ensures status.Success? ==>
                && NameOf(path) !in old(Map()) && Map() == old(Map())[NameOf(path) := inode]
                && List() == Written(old(List()), FreeIndex(old(List())), Dirent(inode, Padded(NameOf(path))))
    {
      ProperLength(path);
      RoomIs(List());
      status := CreateRefusal(path, inode);
      if status.Success? {
        ghost var es := List();
        var index, bound;
        status, index, bound := RedDirEntryLookup(path);
        if status.Success? {
          status := Failure(EEXIST);
        } else if status == Failure(ENOENT) {
          if index == DIR_INDEX_INVALID {
            status := Failure(ENOSPC);
          } else {
            status := DirEntryWrite(index, inode, path, NameEnd(path, 0));
            if status.Success? {
              CreatedIs(es, index, path, inode, List());
            }
          }
        }
      }
    }
  }

  /** The name of a path has the length that is measured. */
  lemma ProperLength(path: seq<char>)
    ensures |NameOf(path)| == NameEnd(path, 0)
  {
  }

  /** A name that is bound may be looked up. */
  lemma BoundName(dir: Directory, name: seq<char>)
    requires dir.Valid() && NameOf(name) in dir.Map()
    ensures 1 <= NameEnd(name, 0) <= NAME_MAX && !IsDots(NameOf(name))
  {
    var i := BindingsFrom(dir.List(), NameOf(name));
    assert dir.List()[i] in dir.List();
  }

  /** A directory has an entry to offer exactly if one is free or may be added. */
  ghost predicate HasRoom(es: seq<Dirent>) {
    |es| < DIRENTS_MAX || exists i :: 0 <= i < |es| && i < DIRENTS_MAX && !es[i].Live()
  }

  lemma RoomIs(es: seq<Dirent>)
    ensures FreeIndex(es) != DIR_INDEX_INVALID <==> HasRoom(es)
  {
  }

  /** Writing an entry's bytes changes that entry and no other. */
  lemma WrittenData(data: map<nat, Dirent>, n: nat, i: nat, e: Dirent)
    requires i <= n
    ensures Entries(data[IndexToOffset(i) := e], if i == n then n + 1 else n) == Written(Entries(data, n), i, e)
  {
    hide IndexToOffset;
    forall k: nat | k != i
      ensures IndexToOffset(k) != IndexToOffset(i)
    {
      if k < i {
        OffsetsApart(k, i);
      } else {
        OffsetsApart(i, k);
      }
    }
  }

  /** The size, and the blocks of it, after writing an entry. */
  lemma WrittenBlocks(present: set<nat>, n: nat, i: nat)
    requires i <= n && Dense(present, SizeOf(n))
    ensures var m := if i == n then n + 1 else n;
            && SizeOf(m) == (if IndexToOffset(i) + DIRENT_SIZE > SizeOf(n) then IndexToOffset(i) + DIRENT_SIZE else SizeOf(n))
            && OffsetToIndex(SizeOf(m)) == m
            && OffsetToIndex(SizeOf(n)) == n
            && Dense(present + {BlockOf(i)}, SizeOf(m))
  {
    hide IndexToOffset, OffsetToIndex, BlocksOf, BlockOf;
    CountOfSize(n);
    CountOfSize(n + 1);
    BlocksOfSize(n);
    BlocksOfSize(n + 1);
    if i < n {
      if i < n - 1 {
        OffsetsApart(i, n - 1);
      }
      BlockOfGrows(i, n - 1);
    } else if n > 0 {
      OffsetsApart(n - 1, n);
      BlockOfGrows(n - 1, n);
    } else {
      BlockOfGrows(0, 0);
    }
  }

  lemma CutSizes(n: nat, count: nat)
    requires n < count
    ensures SizeOf(n) < SizeOf(count)
  {
    if n > 0 {
      OffsetsApart(n - 1, count - 1);
    }
  }

  lemma CutData(before: map<nat, Dirent>, after: map<nat, Dirent>, n: nat, count: nat)
    requires n < count
    requires forall o: nat | o + DIRENT_SIZE <= SizeOf(n) :: Stored(after, o) == Stored(before, o)
    ensures OffsetToIndex(SizeOf(n)) == n && OffsetToIndex(SizeOf(count)) == count
    ensures Entries(after, n) == Entries(before, count)[..n]
  {
    hide IndexToOffset;
    CountOfSize(n);
    CountOfSize(count);
    forall i | 0 <= i < n
      ensures Entries(after, n)[i] == Entries(before, count)[i]
    {
      if i < n - 1 {
        OffsetsApart(i, n - 1);
      }
    }
  }

  lemma ErodedData(before: map<nat, Dirent>, after: map<nat, Dirent>, n: nat, count: nat)
    requires n < count
    requires forall o: nat :: Stored(after, o) == Stored(before, o) ||
                              (o / BLOCK_SIZE >= BlocksOf(SizeOf(n)) && Stored(after, o) == FREE)
    ensures Eroded(Entries(before, count), n, Entries(after, count))
  {
    hide IndexToOffset, SizeOf, BlocksOf, BlockOf;
    forall i | 0 <= i < n
      ensures Entries(after, count)[i] == Entries(before, count)[i]
    {
      EntryInBlock(i);
      BlocksOfSize(n);
      BlockOfGrows(i, n - 1);
    }
  }

  lemma CutBlocks(present: set<nat>, n: nat, count: nat)
    requires n < count && Dense(present, SizeOf(count))
    ensures Dense((set b | b in present && b < BlocksOf(SizeOf(n))), SizeOf(n))
  {
    hide BlocksOf, BlockOf, IndexToOffset;
    BlocksOfSize(n);
    BlocksOfSize(count);
    if n > 0 {
      BlockOfGrows(n - 1, count - 1);
    }
  }

  /** An offset is below the size exactly if its index is below the count, and
      ends at the size exactly if it is the last. */
  lemma Located(i: nat, count: nat)
    ensures IndexToOffset(i) < SizeOf(count) <==> i < count
    ensures i < count ==> (IndexToOffset(i) + DIRENT_SIZE == SizeOf(count) <==> i == count - 1)
  {
    hide IndexToOffset;
    if i + 1 < count {
      OffsetsApart(i, count - 1);
    } else if 0 < count <= i {
      OffsetsApart(count - 1, i);
    }
  }

  /** The last entry is removed with the free ones before it, any other freed. */
  ghost predicate Removed(es: seq<Dirent>, index: nat, now: seq<Dirent>)
    requires index < |es|
  {
    if index == |es| - 1 then
      && |now| <= index && now == es[..|now|]
      && (now != [] ==> es[|now| - 1].Live())
      && forall k | |now| <= k < index :: !es[k].Live()
    else
      now == es[index := FREE]
  }

  /** From entry `n` on, some entries have become free. */
  ghost predicate Eroded(es: seq<Dirent>, n: nat, now: seq<Dirent>) {
    |now| == |es| && forall i | 0 <= i < |es| :: now[i] == es[i] || (n <= i && now[i] == FREE)
  }

  /** Nothing happened but, at most, that some free entries, and the entry to be
      deleted, which is the last, were zeroed. */
  ghost predicate Interrupted(es: seq<Dirent>, index: nat, now: seq<Dirent>) {
    now == es ||
    (index == |es| - 1 && |now| == |es| &&
     forall i | 0 <= i < |es| :: now[i] == es[i] || (now[i] == FREE && (i == index || !es[i].Live())))
  }

  lemma ErodedFrom(es: seq<Dirent>, n: nat, index: nat, now: seq<Dirent>)
    requires Eroded(es, n, now) && n <= index == |es| - 1
    requires forall k | n <= k < index :: !es[k].Live()
    ensures Interrupted(es, index, now)
  {
  }

  lemma InterruptedIs(es: seq<Dirent>, index: nat, now: seq<Dirent>)
    requires UniqueNames(es) && index < |es| && Interrupted(es, index, now)
    ensures Bindings(now) == Bindings(es) || (es[index].Live() && Bindings(now) == Bindings(es) - {es[index].Name()})
  {
    var left := es[index := now[index]];
    if now[index] == es[index] {
      assert left == es;
    } else {
      FreedRemoves(es, index);
    }
    forall k, name | Binds(now, k, name)
      ensures Binds(left, k, name) && name in Bindings(left) && Bindings(left)[name] == now[k].inode
    {
      assert now[k] == left[k];
      BindingsAt(left, k);
    }
    forall name | name in Bindings(left)
      ensures exists k :: Binds(now, k, name)
    {
      var k := BindingsFrom(left, name);
      assert Binds(now, k, name);
    }
    StillUnique(left, now);
    BindingsIs(now, Bindings(left));
  }

  lemma StillUnique(es: seq<Dirent>, now: seq<Dirent>)
    requires UniqueNames(es)
    requires forall k, name {:trigger Binds(now, k, name)} | Binds(now, k, name) :: Binds(es, k, name)
    ensures UniqueNames(now)
  {
  }

  /** Both ways of deleting an entry: cutting the directory off after the last
      live entry left, or freeing the entry where it is. */
  lemma DeletedIs(es: seq<Dirent>, index: nat, now: seq<Dirent>)
    requires Packed(es) && index < |es|
    requires Removed(es, index, now)
    ensures now == Trimmed(es[index := FREE]) && Packed(now)
    ensures Bindings(now) == if es[index].Live() then Bindings(es) - {es[index].Name()} else Bindings(es)
  {
    FreedRemoves(es, index);
    TrimmedKeeps(es[index := FREE]);
    FreedTrims(es, index, now);
    FreedFits(es, index);
    hide Bindings, Text, Removed, Trimmed, UniqueNames;
  }

  lemma FreedTrims(es: seq<Dirent>, index: nat, now: seq<Dirent>)
    requires index < |es| && Removed(es, index, now) && (es != [] ==> es[|es| - 1].Live())
    ensures now == Trimmed(es[index := FREE])
  {
    if index == |es| - 1 {
      var freed := es[index := FREE];
      assert freed[..|now|] == es[..|now|];
      TrimmedIs(freed, |now|);
    }
  }

  lemma FreedFits(es: seq<Dirent>, index: nat)
    requires index < |es| && forall e | e in es :: WellFormed(e)
    ensures forall e | e in es[index := FREE] :: WellFormed(e)
  {
    PaddedText("");
  }

  lemma CreatedIs(es: seq<Dirent>, index: nat, path: seq<char>, inode: nat, now: seq<Dirent>)
    requires Packed(es) && 1 <= NameEnd(path, 0) <= NAME_MAX && !IsDots(NameOf(path))
    requires NameOf(path) !in Bindings(es) && index == FreeIndex(es) != DIR_INDEX_INVALID && inode != INODE_INVALID
    requires now == Written(es, index, Dirent(inode, Padded(NameOf(path))))
    ensures Packed(now) && Bindings(now) == Bindings(es)[NameOf(path) := inode]
  {
    PaddedText(NameOf(path));
    WrittenAdds(es, index, Dirent(inode, Padded(NameOf(path))));
  }

  lemma ListingFrom(es: seq<Dirent>, pos: nat, index: nat)
    requires pos <= index <= |es| && NextLive(es, pos) == NextLive(es, index)
    requires index < |es| ==> es[index].Live()
    ensures index < |es| ==> Listing(es, pos) == [Listed(es[index].Name(), es[index].inode)] + Listing(es, index + 1)
    ensures index == |es| ==> Listing(es, pos) == []
  {
  }
}
