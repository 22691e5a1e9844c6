/** Allocation bits of two metaroots, the four states they give each block, and
    the counting of states: core/driver/imap.c. */
module AllocCounts {

  /** ulInodeTableStartBN; how many blocks of inodes and of the external imap
      precede the allocable ones; and how many of those there are. */
  const INODE_TABLE_START: nat
  const NODE_BLOCKS: nat
  type BlockTotal = n: nat | 1 <= n witness 1
  const BLOCKS_ALLOCABLE: BlockTotal
  const FIRST_ALLOCABLE: nat := INODE_TABLE_START + NODE_BLOCKS
  const BLOCK_COUNT: nat := FIRST_ALLOCABLE + BLOCKS_ALLOCABLE

  /** The bitmaps are whole bytes. */
  const MAP_BYTES: nat := (BLOCK_COUNT - INODE_TABLE_START + 7) / 8

  type Bitmap = seq<bool>

  /** Free; used and committed; new and not committed; and almost free, that
      is, free once committed. */
  datatype AllocState = Free | Used | New | AlmostFree

  function StateOf(working: bool, committed: bool): AllocState {
    if working then (if committed then Used else New) else (if committed then AlmostFree else Free)
  }

  ghost predicate Fits(bits: Bitmap) {
    |bits| == MAP_BYTES * 8
  }

  predicate InMap(block: nat) {
    INODE_TABLE_START <= block < BLOCK_COUNT
  }

  predicate Allocable(block: nat) {
    FIRST_ALLOCABLE <= block < BLOCK_COUNT
  }

  lemma MapHolds(bits: Bitmap, block: nat)
    requires Fits(bits) && InMap(block)
    ensures block - INODE_TABLE_START < |bits|
    ensures (block - INODE_TABLE_START) / 8 * 8 + 8 <= |bits|
  {
  }

  /** The state of a block that the bitmaps cover. */
  function BlockState(working: Bitmap, committed: Bitmap, block: nat): AllocState
    requires INODE_TABLE_START <= block < INODE_TABLE_START + |working| && |working| == |committed|
  {
    StateOf(working[block - INODE_TABLE_START], committed[block - INODE_TABLE_START])
  }

  /** How many of the blocks from the first allocable one to `end` are in a
      state. */
  function Count(working: Bitmap, committed: Bitmap, state: AllocState, end: nat): (n: nat)
    requires FIRST_ALLOCABLE <= end <= INODE_TABLE_START + |working| && |working| == |committed|
    ensures n <= end - FIRST_ALLOCABLE
    decreases end
  {
    if end == FIRST_ALLOCABLE then 0
    else Count(working, committed, state, end - 1) + (if BlockState(working, committed, end - 1) == state then 1 else 0)
  }

  /** Every block is in one of the four states. */
  lemma {:induction false} StatesAddUp(working: Bitmap, committed: Bitmap, end: nat)
    requires FIRST_ALLOCABLE <= end <= INODE_TABLE_START + |working| && |working| == |committed|
    ensures Count(working, committed, Free, end) + Count(working, committed, Used, end)
            + Count(working, committed, New, end) + Count(working, committed, AlmostFree, end) == end - FIRST_ALLOCABLE
    decreases end
  {
    if end > FIRST_ALLOCABLE {
      StatesAddUp(working, committed, end - 1);
    }
  }

  /** Setting a bit of the working state moves one block between counts. */
  lemma {:induction false} CountSet(working: Bitmap, committed: Bitmap, state: AllocState, end: nat, block: nat, bit: bool)
    requires FIRST_ALLOCABLE <= end <= INODE_TABLE_START + |working| && |working| == |committed|
    requires INODE_TABLE_START <= block < INODE_TABLE_START + |working|
    ensures var after := working[block - INODE_TABLE_START := bit];
            Count(after, committed, state, end) == Count(working, committed, state, end)
              - (if FIRST_ALLOCABLE <= block < end && BlockState(working, committed, block) == state then 1 else 0)
              + (if FIRST_ALLOCABLE <= block < end && BlockState(after, committed, block) == state then 1 else 0)
    decreases end
  {
    if end > FIRST_ALLOCABLE {
      CountSet(working, committed, state, end - 1, block, bit);
    }
  }

  /** Committing makes almost free blocks free, and new ones used. */
  lemma {:induction false} CountCommitted(working: Bitmap, committed: Bitmap, end: nat)
    requires FIRST_ALLOCABLE <= end <= INODE_TABLE_START + |working| && |working| == |committed|
    ensures Count(working, working, Free, end) == Count(working, committed, Free, end) + Count(working, committed, AlmostFree, end)
    ensures Count(working, working, AlmostFree, end) == 0
    decreases end
  {
    if end > FIRST_ALLOCABLE {
      CountCommitted(working, committed, end - 1);
    }
  }

  lemma {:induction false} SomeCounted(working: Bitmap, committed: Bitmap, state: AllocState, end: nat) returns (block: nat)
    requires FIRST_ALLOCABLE <= end <= INODE_TABLE_START + |working| && |working| == |committed|
    requires Count(working, committed, state, end) > 0
    ensures FIRST_ALLOCABLE <= block < end && BlockState(working, committed, block) == state
    decreases end
  {
    if BlockState(working, committed, end - 1) == state {
      block := end - 1;
    } else {
      block := SomeCounted(working, committed, state, end - 1);
    }
  }

  lemma {:induction false} CountedSome(working: Bitmap, committed: Bitmap, block: nat, end: nat)
    requires FIRST_ALLOCABLE <= block < end <= INODE_TABLE_START + |working| && |working| == |committed|
    ensures Count(working, committed, BlockState(working, committed, block), end) > 0
    decreases end
  {
    if block < end - 1 {
      CountedSome(working, committed, block, end - 1);
    }
  }
}
