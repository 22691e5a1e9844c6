/** Where directory entries lie in a directory's data: core/driver/dir.c.

    Each block holds an optional node header, then a whole number of entries,
    then perhaps some space too small for another entry. */
module DirLayout {
  import opened Constants
  import opened Components
  import opened Arithmetic

  const UINT32_MAX: nat := 0xFFFF_FFFF

  /** The volume's layout is RED_DISK_LAYOUT_DIRCRC or later. */
  const DIRCRC: bool

  /** An inode number and a name, then any padding. */
  type EntrySize = n: nat | 4 + NAME_MAX <= n witness 4 + NAME_MAX
  const DIRENT_SIZE: EntrySize

  const DIRENTS_OFFSET: nat := if DIRCRC then NODEHEADER_SIZE else 0

  /** A block is any number of entries and any space too small for another: so
      is every REDCONF_BLOCK_SIZE with room for an entry. */
  type EntryCount = n: nat | 1 <= n witness 1
  const DIRENTS_PER_BLOCK: EntryCount
  type TailSize = n: nat | n < DIRENT_SIZE witness 0
  const DIR_BLOCK_UNUSED_SPACE: TailSize
  const BLOCK_SIZE: nat := UsedSpace() + DIR_BLOCK_UNUSED_SPACE

  /** DIR_BLOCK_USED_SPACE. */
  function UsedSpace(): (used: nat)
    ensures used > DIRENTS_OFFSET
  {
    ProductGrows(0, DIRENTS_PER_BLOCK, DIRENT_SIZE);
    DIRENTS_OFFSET + DIRENTS_PER_BLOCK * DIRENT_SIZE
  }

  lemma EntriesPerBlock()
    ensures DIRENTS_PER_BLOCK == (BLOCK_SIZE - DIRENTS_OFFSET) / DIRENT_SIZE
  {
    QuotientIs(BLOCK_SIZE - DIRENTS_OFFSET, DIRENT_SIZE, DIRENTS_PER_BLOCK, DIR_BLOCK_UNUSED_SPACE);
  }

  type DataBlocks = n: nat | 1 <= n witness 1
  const INODE_DATA_BLOCKS: DataBlocks

  const DIRENTS_MAX: nat :=
    if INODE_DATA_BLOCKS * DIRENTS_PER_BLOCK < UINT32_MAX then INODE_DATA_BLOCKS * DIRENTS_PER_BLOCK else UINT32_MAX
  const DIR_INDEX_INVALID: nat := UINT32_MAX

  /** The block that holds the entry at an index. */
  function BlockOf(i: nat): nat {
    i / DIRENTS_PER_BLOCK
  }

  lemma BlockOfGrows(i: nat, j: nat)
    requires i <= j
    ensures BlockOf(i) <= BlockOf(j)
    ensures j == i + 1 ==> BlockOf(j) <= BlockOf(i) + 1
    ensures i == 0 ==> BlockOf(i) == 0
  {
    QuotientGrows(i, j, DIRENTS_PER_BLOCK);
    QuotientIs(0, DIRENTS_PER_BLOCK, 0, 0);
  }

  /** DirEntryIndexToOffset(). */
  function IndexToOffset(i: nat): nat {
    SlotOffset(BlockOf(i), i % DIRENTS_PER_BLOCK)
  }

  function SlotOffset(block: nat, slot: nat): nat {
    block * BLOCK_SIZE + DIRENTS_OFFSET + slot * DIRENT_SIZE
  }

  /** DirOffsetToEntryIndex(). */
  function OffsetToIndex(offset: nat): nat {
    hide UsedSpace, IndexAt;
    IndexAt(offset / BLOCK_SIZE, offset % BLOCK_SIZE)
  }

  function IndexAt(block: nat, into: nat): nat {
    hide UsedSpace;
    Times(block, DIRENTS_PER_BLOCK) + (if into > DIRENTS_OFFSET then (into - DIRENTS_OFFSET) / DIRENT_SIZE else 0)
  }

  /** The size of a directory whose last entry is at index `n - 1`. */
  function SizeOf(n: nat): nat {
    if n == 0 then 0 else IndexToOffset(n - 1) + DIRENT_SIZE
  }

  /** The block and slot of an index. */
  lemma Slot(i: nat) returns (b: nat, k: nat)
    ensures i == b * DIRENTS_PER_BLOCK + k && k < DIRENTS_PER_BLOCK
    ensures IndexToOffset(i) == SlotOffset(b, k)
  {
    b, k := i / DIRENTS_PER_BLOCK, i % DIRENTS_PER_BLOCK;
  }

  /** Slot `k` of block `b` is index `i`. */
  lemma SlotIs(i: nat, b: nat, k: nat)
    requires i == b * DIRENTS_PER_BLOCK + k && k < DIRENTS_PER_BLOCK
    ensures BlockOf(i) == b && i % DIRENTS_PER_BLOCK == k
    ensures IndexToOffset(i) == SlotOffset(b, k)
  {
    QuotientIs(i, DIRENTS_PER_BLOCK, b, k);
  }

  /** An entry ends within its block: at its end, if at all, only the last. */
  lemma SlotEnds(b: nat, k: nat) returns (end: nat)
    requires k < DIRENTS_PER_BLOCK
    ensures SlotOffset(b, k) + DIRENT_SIZE == b * BLOCK_SIZE + end
    ensures DIRENTS_OFFSET < end <= UsedSpace() <= BLOCK_SIZE
    ensures end - DIRENTS_OFFSET == (k + 1) * DIRENT_SIZE && end - DIRENT_SIZE >= DIRENTS_OFFSET
    ensures if k + 1 == DIRENTS_PER_BLOCK then end == UsedSpace() else end < BLOCK_SIZE
  {
    NextProduct(k, DIRENTS_PER_BLOCK, DIRENT_SIZE);
    end := DIRENTS_OFFSET + (k + 1) * DIRENT_SIZE;
  }

  /** Entries do not overlap, and are in order. */
  lemma OffsetsApart(i: nat, j: nat)
    requires i < j
    ensures IndexToOffset(i) + DIRENT_SIZE <= IndexToOffset(j)
  {
    hide IndexToOffset, SlotOffset, UsedSpace;
    var b, k := Slot(i);
    var c, l := Slot(j);
    QuotientsOrder(b, k, c, l, DIRENTS_PER_BLOCK);
    if b < c {
      BlocksApart(b, k, c, l);
    } else {
      SlotsApart(b, k, l);
    }
  }

  lemma BlocksApart(b: nat, k: nat, c: nat, l: nat)
    requires b < c && k < DIRENTS_PER_BLOCK
    ensures SlotOffset(b, k) + DIRENT_SIZE <= SlotOffset(c, l)
  {
    hide SlotOffset, UsedSpace;
    var end := SlotEnds(b, k);
    SlotAt(c, l);
    ProductGrows(b, c, BLOCK_SIZE);
  }

  lemma SlotsApart(b: nat, k: nat, l: nat)
    requires k < l
    ensures SlotOffset(b, k) + DIRENT_SIZE <= SlotOffset(b, l)
  {
    hide SlotOffset, UsedSpace;
    SlotAt(b, k);
    SlotAt(b, l);
    ProductGrows(k, l, DIRENT_SIZE);
  }

  /** The number of entries can be recovered from the size, whether or not the
      blocks have a header, and whether or not they have an unusable tail. */
  lemma CountOfSize(n: nat)
    ensures OffsetToIndex(SizeOf(n)) == n
  {
    hide IndexToOffset, SlotOffset, IndexAt;
    if n == 0 {
      FirstOfBlock(0);
    } else {
      var b, k := Slot(n - 1);
      var end := SlotEnds(b, k);
      if end == BLOCK_SIZE {
        assert (b + 1) * BLOCK_SIZE == b * BLOCK_SIZE + BLOCK_SIZE;
        QuotientIs(SizeOf(n), BLOCK_SIZE, b + 1, 0);
        FirstOfBlock(b + 1);
        assert (b + 1) * DIRENTS_PER_BLOCK == b * DIRENTS_PER_BLOCK + DIRENTS_PER_BLOCK;
      } else {
        QuotientIs(SizeOf(n), BLOCK_SIZE, b, end);
        AfterSlot(b, k, end);
      }
    }
  }

  lemma FirstOfBlock(b: nat)
    ensures IndexAt(b, 0) == b * DIRENTS_PER_BLOCK
  {
  }

  lemma AfterSlot(b: nat, k: nat, end: nat)
    requires end - DIRENTS_OFFSET == (k + 1) * DIRENT_SIZE
    ensures IndexAt(b, end) == b * DIRENTS_PER_BLOCK + k + 1
  {
    QuotientIs(end - DIRENTS_OFFSET, DIRENT_SIZE, k + 1, 0);
  }

  /** The blocks that a size takes up. */
  function BlocksOf(size: nat): nat {
    (size + BLOCK_SIZE - 1) / BLOCK_SIZE
  }

  /** A directory's size takes up the blocks of its entries and no other. */
  lemma BlocksOfSize(n: nat)
    ensures BlocksOf(SizeOf(n)) == if n == 0 then 0 else BlockOf(n - 1) + 1
  {
    hide IndexToOffset, SlotOffset;
    if n == 0 {
      QuotientIs(BLOCK_SIZE - 1, BLOCK_SIZE, 0, BLOCK_SIZE - 1);
    } else {
      var b, k := Slot(n - 1);
      SlotIs(n - 1, b, k);
      var end := SlotEnds(b, k);
      assert (b + 1) * BLOCK_SIZE == b * BLOCK_SIZE + BLOCK_SIZE;
      QuotientIs(SizeOf(n) + BLOCK_SIZE - 1, BLOCK_SIZE, b + 1, end - 1);
    }
  }

  /** How RedDirEntryDelete() computes the new size from the first index to go. */
  function TruncatedSize(n: nat): nat {
    var offset := IndexToOffset(n);
    WithoutTail(if DIRCRC && n % DIRENTS_PER_BLOCK == 0 && offset >= NODEHEADER_SIZE then offset - NODEHEADER_SIZE else offset)
  }

  function WithoutTail(size: nat): nat {
    if DIR_BLOCK_UNUSED_SPACE > 0 && size >= BLOCK_SIZE && size % BLOCK_SIZE == 0 then
      size - DIR_BLOCK_UNUSED_SPACE
    else
      size
  }

  lemma SlotAt(b: nat, k: nat)
    ensures SlotOffset(b, k) == b * BLOCK_SIZE + DIRENTS_OFFSET + k * DIRENT_SIZE
    ensures SlotOffset(b, k) >= b * BLOCK_SIZE + DIRENTS_OFFSET
  {
  }

  /** It is the size of a directory of that many entries. */
  lemma TruncatedSizeIs(n: nat)
    ensures TruncatedSize(n) == SizeOf(n)
  {
    hide IndexToOffset, UsedSpace, SlotOffset, BlockOf;
    var b, k := Slot(n);
    SlotIs(n, b, k);
    SlotAt(b, k);
    if k > 0 {
      SlotIs(n - 1, b, k - 1);
      var end := SlotEnds(b, k - 1);
      assert k * DIRENT_SIZE == (k - 1) * DIRENT_SIZE + DIRENT_SIZE;
      QuotientIs(IndexToOffset(n), BLOCK_SIZE, b, end);
    } else if b > 0 {
      assert (b - 1) * DIRENTS_PER_BLOCK + DIRENTS_PER_BLOCK == b * DIRENTS_PER_BLOCK;
      SlotIs(n - 1, b - 1, DIRENTS_PER_BLOCK - 1);
      var end := SlotEnds(b - 1, DIRENTS_PER_BLOCK - 1);
      ProductGrows(b - 1, b, BLOCK_SIZE);
      assert (b - 1) * BLOCK_SIZE + BLOCK_SIZE == b * BLOCK_SIZE;
      QuotientIs(b * BLOCK_SIZE, BLOCK_SIZE, b, 0);
    }
  }

  const INODE_SIZE_MAX: nat := INODE_DATA_BLOCKS * BLOCK_SIZE

  lemma EntryInBlock(i: nat)
    ensures IndexToOffset(i) / BLOCK_SIZE == BlockOf(i)
    ensures DIRENTS_OFFSET <= IndexToOffset(i) % BLOCK_SIZE && IndexToOffset(i) % BLOCK_SIZE + DIRENT_SIZE <= BLOCK_SIZE
  {
    hide IndexToOffset, SlotOffset;
    var b, k := Slot(i);
    SlotIs(i, b, k);
    var end := SlotEnds(b, k);
    QuotientIs(IndexToOffset(i), BLOCK_SIZE, b, end - DIRENT_SIZE);
  }

  /** An entry that may be written lies within one block, and within the
      largest size. */
  lemma EntryFits(i: nat)
    requires i < DIRENTS_MAX
    ensures IndexToOffset(i) + DIRENT_SIZE <= INODE_SIZE_MAX
    ensures IndexToOffset(i) / BLOCK_SIZE == BlockOf(i)
    ensures DIRENTS_OFFSET <= IndexToOffset(i) % BLOCK_SIZE && IndexToOffset(i) % BLOCK_SIZE + DIRENT_SIZE <= BLOCK_SIZE
  {
    hide IndexToOffset, SlotOffset;
    EntryInBlock(i);
    var b, k := Slot(i);
    SlotIs(i, b, k);
    var end := SlotEnds(b, k);
    if b >= INODE_DATA_BLOCKS {
      if b > INODE_DATA_BLOCKS {
        ProductGrows(INODE_DATA_BLOCKS, b, DIRENTS_PER_BLOCK);
      }
    } else {
      ProductGrows(b, INODE_DATA_BLOCKS, BLOCK_SIZE);
    }
  }
}
