/** Where the scan for a free block goes: core/driver/imapinline.c. */
module AllocScan {
  import opened AllocCounts

  /** All eight blocks of a bitmap byte are allocated. */
  predicate ByteFull(bits: Bitmap, at: nat)
    requires at + 8 <= |bits|
  {
    forall k | at <= k < at + 8 :: bits[k]
  }

  /** Where one pass of the loop goes from a block that is not free: past a byte
      whose blocks are all allocated, or to the next block. */
  function ScanPast(working: Bitmap, search: nat): (next: nat)
    requires Fits(working) && Allocable(search)
    ensures search < next <= BLOCK_COUNT
  {
    MapHolds(working, search);
    var idx := search - INODE_TABLE_START;
    if idx % 8 == 0 && ByteFull(working, idx) then search + (if 8 <= BLOCK_COUNT - search then 8 else BLOCK_COUNT - search)
    else search + 1
  }

  /** And from the end of the volume to the first allocable block. */
  function ScanNext(working: Bitmap, search: nat): (next: nat)
    requires Fits(working) && Allocable(search)
    ensures Allocable(next)
  {
    if ScanPast(working, search) == BLOCK_COUNT then FIRST_ALLOCABLE else ScanPast(working, search)
  }

  function ScanAfter(working: Bitmap, start: nat, n: nat): (search: nat)
    requires Fits(working) && Allocable(start)
    ensures Allocable(search)
  {
    if n == 0 then start else ScanNext(working, ScanAfter(working, start, n - 1))
  }

  /** The block that starts the bitmap byte of a block. */
  function ByteStart(block: nat): int
    requires INODE_TABLE_START <= block
  {
    block - (block - INODE_TABLE_START) % 8
  }

  /** A block inside an allocable byte whose blocks are all allocated. */
  predicate PassedOver(working: Bitmap, start: nat)
    requires Fits(working) && Allocable(start)
  {
    MapHolds(working, start);
    && FIRST_ALLOCABLE <= ByteStart(start) < start
    && ByteFull(working, ByteStart(start) - INODE_TABLE_START)
  }

  /** A scan goes past a block from before it only if that is passed over. */
  lemma PastOnlyIfPassedOver(working: Bitmap, start: nat, search: nat)
    requires Fits(working) && Allocable(start) && Allocable(search) && search < start
    ensures ScanPast(working, search) <= start || (PassedOver(working, start) && search == ByteStart(start))
  {
    MapHolds(working, search);
    MapHolds(working, start);
    if ScanPast(working, search) > start {
      assert (search - INODE_TABLE_START) % 8 == 0 && search < start < search + 8;
      assert (start - INODE_TABLE_START) % 8 == start - search;
    }
  }

  /** A scan that leaves a block passed over stays clear of it, and of those
      before it in its byte. */
  lemma StaysClear(working: Bitmap, start: nat, search: nat)
    requires Fits(working) && Allocable(start) && Allocable(search) && PassedOver(working, start)
    requires search == start || !(ByteStart(start) < search <= start)
    ensures !(ByteStart(start) < ScanNext(working, search) <= start)
  {
    var first := ByteStart(start);
    MapHolds(working, start);
    assert (first - INODE_TABLE_START) % 8 == 0;
    if search == first {
      MapHolds(working, first);
    } else if search < first {
      PastOnlyIfPassedOver(working, first, search);
    }
  }

  lemma {:induction false} NeverReturns(working: Bitmap, start: nat, n: nat)
    requires Fits(working) && Allocable(start) && PassedOver(working, start) && n > 0
    ensures !(ByteStart(start) < ScanAfter(working, start, n) <= start)
  {
    hide PassedOver, ScanNext;
    if n > 1 {
      NeverReturns(working, start, n - 1);
    } else {
      assert ScanAfter(working, start, 0) == start;
    }
    StaysClear(working, start, ScanAfter(working, start, n - 1));
  }

  /** A scan that starts at a block comes to a block at or after it, unless that
      is passed over. */
  lemma {:induction false} Reaches(working: Bitmap, start: nat, n: nat, target: nat) returns (m: nat)
    requires Fits(working) && Allocable(start) && Allocable(target)
    requires ScanAfter(working, start, n) <= target && !PassedOver(working, target)
    ensures n <= m && ScanAfter(working, start, m) == target
    decreases target - ScanAfter(working, start, n)
  {
    hide PassedOver;
    var search := ScanAfter(working, start, n);
    if search == target {
      m := n;
    } else {
      PastOnlyIfPassedOver(working, target, search);
      assert ScanAfter(working, start, n + 1) == ScanPast(working, search);
      m := Reaches(working, start, n + 1, target);
    }
  }

  /** Every scan comes round to the first allocable block. */
  lemma {:induction false} ComesRound(working: Bitmap, start: nat, n: nat) returns (m: nat)
    requires Fits(working) && Allocable(start)
    ensures n < m && ScanAfter(working, start, m) == FIRST_ALLOCABLE
    decreases BLOCK_COUNT - ScanAfter(working, start, n)
  {
    hide ScanPast;
    if ScanPast(working, ScanAfter(working, start, n)) == BLOCK_COUNT {
      assert ScanAfter(working, start, n + 1) == FIRST_ALLOCABLE;
      m := n + 1;
    } else {
      m := ComesRound(working, start, n + 1);
    }
  }

  /** With no free block, the scan ends, that is, returns to where it started,
      if and only if that is not inside a byte whose blocks are all allocated. */
  lemma ScanEnds(working: Bitmap, start: nat)
    requires Fits(working) && Allocable(start)
    ensures (exists n: nat :: n > 0 && ScanAfter(working, start, n) == start) <==> !PassedOver(working, start)
  {
    if PassedOver(working, start) {
      forall n: nat | n > 0
        ensures ScanAfter(working, start, n) != start
      {
        NeverReturns(working, start, n);
      }
    } else {
      var m := ComesRound(working, start, 0);
      var n := Reaches(working, start, m, start);
    }
  }

  /** In a full volume the scan does not end from any block but the first of a
      byte, if that byte starts at an allocable block. */
  lemma FullVolumeNeverEnds(full: Bitmap, start: nat, n: nat)
    requires Fits(full) && forall k | 0 <= k < |full| :: full[k]
    requires Allocable(start) && FIRST_ALLOCABLE <= ByteStart(start) < start && n > 0
    ensures PassedOver(full, start) && ScanAfter(full, start, n) != start
  {
    MapHolds(full, start);
    NeverReturns(full, start, n);
  }
}
