/** Block allocation over two metaroots, and committing and rolling back the
    working one: core/driver/imap.c, imapinline.c and volume.c. */
module Imap {
  import opened Errors
  import opened AllocCounts
  import opened AllocScan

  /** METAROOT, as far as it concerns allocation. */
  datatype MetaRoot = MetaRoot(bits: Bitmap, freeBlocks: nat, allocNext: nat)

  const UINT64_MAX: nat := 0xFFFF_FFFF_FFFF_FFFF
  type SequenceNumber = n: nat | n <= UINT64_MAX

  /** The volume's fAtomicSectorWrite. */
  const ATOMIC_SECTOR_WRITE: bool

  /** A metaroot block on disk: a whole metaroot under its sequence number, or
      one whose CRC, and perhaps whose first sector's CRC, is wrong. */
  datatype Slot = Whole(sequence: SequenceNumber, root: MetaRoot) | Torn(sectorWhole: bool)

  /** A metaroot that was read, though its sector was torn where sectors are
      written atomically. */
  ghost predicate Impossible(slot: Slot, read: bool) {
    ATOMIC_SECTOR_WRITE && read && slot.Torn? && !slot.sectorWhole
  }

  /** Which metaroot RedVolMountMetaroot() chooses: of those that were read and
      are whole, the one written last. */
  function Newest(a: Slot, b: Slot, readA: bool, readB: bool): (chosen: Result<nat>)
    ensures chosen.Err? ==> chosen.error == EIO
    ensures chosen.Err? <==> Impossible(a, readA) || Impossible(b, readB) || !((readA && a.Whole?) || (readB && b.Whole?))
    ensures chosen.Ok? ==> chosen.value < 2
    ensures chosen.Ok? ==> if chosen.value == 0 then readA && a.Whole? else readB && b.Whole?
    ensures chosen == Ok(0) && readB && b.Whole? ==> a.sequence >= b.sequence
    ensures chosen == Ok(1) && readA && a.Whole? ==> b.sequence > a.sequence
  {
    if ATOMIC_SECTOR_WRITE && ((readA && a == Torn(false)) || (readB && b == Torn(false))) then Err(EIO)
    else if readB && b.Whole? && (!(readA && a.Whole?) || b.sequence > a.sequence) then Ok(1)
    else if readA && a.Whole? then Ok(0)
    else Err(EIO)
  }

  /** What mounting returns: a metaroot has to be found, and the volume's next
      sequence number not to be the last. */
  ghost function MountStatus(a: Slot, b: Slot, readA: bool, readB: bool, master: SequenceNumber): Status {
    var chosen := Newest(a, b, readA, readB);
    if chosen.Err? then Failure(chosen.error)
    else if master == UINT64_MAX || (if chosen.value == 0 then a else b).sequence == UINT64_MAX then Failure(EFUBAR)
    else Success
  }

  /** A metaroot that can be mounted: its counter is exact. */
  ghost predicate Mountable(root: MetaRoot) {
    && Fits(root.bits) && Allocable(root.allocNext)
    && FIRST_ALLOCABLE <= BLOCK_COUNT <= INODE_TABLE_START + |root.bits|
    && root.freeBlocks == Count(root.bits, root.bits, Free, BLOCK_COUNT)
  }

  /** The committed metaroot is whole in its block on disk; the other block is
      torn, or it is older, or it is what a failed transaction wrote last. */
  ghost predicate DiskOk(committed: MetaRoot, own: Slot, other: Slot, sequence: nat, readOnly: bool) {
    && Mountable(committed)
    && own.Whole? && own.root == committed && own.sequence < sequence
    && (other.Whole? ==>
          && Mountable(other.root) && other.sequence != own.sequence && other.sequence < sequence
          && (!readOnly ==> other.sequence < own.sequence))
    && (other.Torn? && ATOMIC_SECTOR_WRITE ==> other.sectorWhole)
  }

  /** The counters are the true counts. */
  ghost predicate ExactCounts(working: MetaRoot, committed: MetaRoot, almostFree: nat, branched: bool) {
    && Fits(working.bits) && Fits(committed.bits) && BLOCK_COUNT <= INODE_TABLE_START + |working.bits|
    && working.freeBlocks == Count(working.bits, committed.bits, Free, BLOCK_COUNT)
    && almostFree == Count(working.bits, committed.bits, AlmostFree, BLOCK_COUNT)
    && (!branched ==> working == committed)
  }

  lemma Unbranched(working: MetaRoot, committed: MetaRoot, almostFree: nat)
    requires ExactCounts(working, committed, almostFree, false)
    ensures working == committed
  {
  }

  /** What a transaction writes, and what it leaves if writing fails. */
  lemma Transacting(working: MetaRoot, committed: MetaRoot, own: Slot, other: Slot, sequence: SequenceNumber, almostFree: nat, branched: bool)
    requires DiskOk(committed, own, other, sequence, false) && ExactCounts(working, committed, almostFree, branched)
    requires Allocable(working.allocNext)
    ensures var root := working.(freeBlocks := working.freeBlocks + almostFree);
            && DiskOk(root, Whole(sequence, root), own, sequence + 1, false)
            && ExactCounts(root, root, 0, false)
            && DiskOk(committed, own, Whole(sequence, root), sequence + 1, true)
    ensures DiskOk(committed, own, other, sequence, true) && DiskOk(committed, own, other, sequence + 1, true)
    ensures own.Whole? && own.root == committed && (!branched ==> working == committed)
    ensures ExactCounts(working.(freeBlocks := working.freeBlocks + almostFree), committed, 0, true) <==> almostFree == 0
    ensures BLOCK_COUNT <= INODE_TABLE_START + |working.bits| && |working.bits| == |committed.bits|
    ensures working.freeBlocks + almostFree ==
              Count(working.bits, committed.bits, Free, BLOCK_COUNT) + Count(working.bits, committed.bits, AlmostFree, BLOCK_COUNT)
    ensures forall torn: Slot | torn.Torn? && (ATOMIC_SECTOR_WRITE ==> torn.sectorWhole) ::
              DiskOk(committed, own, torn, sequence + 1, true)
  {
    CountsAfterCommit(working.bits, committed.bits);
  }

  lemma LaterDiskOk(committed: MetaRoot, own: Slot, other: Slot, sequence: nat, later: nat)
    requires DiskOk(committed, own, other, sequence, false) && sequence <= later
    ensures DiskOk(committed, own, other, later, false)
  {
  }

  /** What mounting metaroot block `chosen` makes of the two. */
  lemma Mounting(committed: MetaRoot, cur: nat, a: Slot, b: Slot, sequence: nat, readOnly: bool, chosen: nat, now: nat, forReading: bool)
    requires cur < 2 && if cur == 0 then DiskOk(committed, b, a, sequence, readOnly) else DiskOk(committed, a, b, sequence, readOnly)
    requires chosen < 2 && (if chosen == 0 then a else b).Whole? && (if chosen == 0 then a else b).sequence < now
    ensures var own, other := if chosen == 0 then a else b, if chosen == 0 then b else a;
            && ExactCounts(own.root, own.root, 0, false)
            && (DiskOk(own.root, own, other, now, forReading) <==> Older(own, other, now, forReading))
            && (Newest(a, b, true, true) == Ok(chosen) ==>
                  Older(own, other, now, forReading) && (own.root == committed || (readOnly && chosen == cur)))
    ensures forall readA: bool, readB: bool | Newest(a, b, readA, readB) == Ok(chosen) ::
              if if cur == 0 then readB else readA then
                (if chosen == 0 then a else b).root == committed || (readOnly && chosen == cur)
              else
                chosen == cur
    ensures Newest(a, b, true, true).Ok?
  {
    CountsAfterCommit(committed.bits, committed.bits);
    var own := if chosen == 0 then a else b;
    CountsAfterCommit(own.root.bits, own.root.bits);
  }

  /** The metaroot block that was not chosen is not the newer one. */
  predicate Older(own: Slot, other: Slot, now: nat, forReading: bool)
    requires own.Whole?
  {
    other.Whole? ==> other.sequence < now && (!forReading ==> other.sequence < own.sequence)
  }

  lemma SlotsMount(committed: MetaRoot, own: Slot, other: Slot, sequence: nat, readOnly: bool)
    requires DiskOk(committed, own, other, sequence, readOnly)
    ensures own.Whole? && Fits(own.root.bits) && Allocable(own.root.allocNext)
    ensures other.Whole? ==> Fits(other.root.bits) && Allocable(other.root.allocNext)
  {
  }

  lemma ReadOnlyDiskOk(committed: MetaRoot, own: Slot, other: Slot, sequence: nat)
    requires DiskOk(committed, own, other, sequence, false)
    ensures DiskOk(committed, own, other, sequence, true)
  {
  }

  class Volume {
    const roots: array<MetaRoot>
    /** The two metaroot blocks, and the volume's next sequence number. */
    const slots: array<Slot>
    /** Whether the disk never fails, nor the flushing of buffers. */
    const sound: bool
    var sequence: SequenceNumber
    /** bCurMR: which metaroot is the working one. */
    var cur: nat
    var almostFree: nat
    var branched: bool
    var readOnly: bool

    /** A volume just formatted: nothing is allocated. */
    constructor (sound: bool)
      ensures this.sound == sound
      ensures Valid() && !readOnly && Exact() && !branched && Working() == Committed()
      ensures roots[cur].freeBlocks == BLOCKS_ALLOCABLE && fresh(roots) && fresh(slots)
    {
      var blank := MetaRoot(seq(MAP_BYTES * 8, _ => false), BLOCKS_ALLOCABLE, FIRST_ALLOCABLE);
      roots := new MetaRoot[2](_ => blank);
      slots := new Slot[2](i => if i == 0 then Whole(0, blank) else Torn(true));
      cur, almostFree, branched, readOnly, sequence := 1, 0, false, false, 1;
      this.sound := sound;
      new;
      BlankCounts(blank.bits);
    }

    ghost predicate Shaped()
      reads this, roots
    {
      && roots.Length == 2 && slots.Length == 2 && cur < 2
      && Fits(roots[0].bits) && Fits(roots[1].bits)
      && Allocable(roots[cur].allocNext)
    }

    function Working(): Bitmap
      reads this, roots
      requires Shaped()
    {
      roots[cur].bits
    }

    function Committed(): Bitmap
      reads this, roots
      requires Shaped()
    {
      roots[1 - cur].bits
    }

    ghost function State(block: nat): AllocState
      reads this, roots
      requires Shaped() && InMap(block)
    {
      MapHolds(Working(), block);
      MapHolds(Committed(), block);
      BlockState(Working(), Committed(), block)
    }

    ghost function Total(state: AllocState): nat
      reads this, roots
      requires Shaped()
    {
      Count(Working(), Committed(), state, BLOCK_COUNT)
    }

    ghost predicate Exact()
      reads this, roots
      requires Shaped()
    {
      ExactCounts(roots[cur], roots[1 - cur], almostFree, branched)
    }

    ghost predicate Valid()
      reads this, roots, slots
    {
      Shaped() && OnDisk() && (!readOnly ==> Exact())
    }

    ghost predicate OnDisk()
      reads this, roots, slots
      requires Shaped()
    {
      DiskOk(roots[1 - cur], slots[1 - cur], slots[cur], sequence, readOnly)
    }

    /** RedImapBlockGet(). */
    method RedImapBlockGet(mr: nat, block: nat) returns (bit: Result<bool>)
      requires Shaped()
      ensures mr > 1 || !InMap(block) ==> bit == Err(EINVAL)
      ensures mr <= 1 && InMap(block) ==>
                block - INODE_TABLE_START < |roots[mr].bits| && bit == Ok(roots[mr].bits[block - INODE_TABLE_START])
    {
      if mr > 1 || !InMap(block) {
        return Err(EINVAL);
      }
      MapHolds(roots[mr].bits, block);
      bit := Ok(roots[mr].bits[block - INODE_TABLE_START]);
    }

    /** RedImapBlockState(). */
    method RedImapBlockState(block: nat) returns (state: Result<AllocState>)
      requires Shaped()
      ensures !InMap(block) ==> state == Err(EINVAL)
      ensures InMap(block) ==> state == Ok(State(block))
    {
      if !InMap(block) {
        return Err(EINVAL);
      }
      var current := RedImapBlockGet(cur, block);
      var earlier := RedImapBlockGet(1 - cur, block);
      state := Ok(if current.value then (if earlier.value then Used else New) else (if earlier.value then AlmostFree else Free));
    }

    /** RedImapIBlockFindFree(): the first free block from `start` on, and round
        to it again; ENOSPC if there is none.  The scan ends if there is one, or
        if its start is not passed over. */
    method RedImapIBlockFindFree(start: nat) returns (found: Result<nat>)
      requires Shaped()
      requires Allocable(start) && PassedOver(Working(), start) ==> exists b: nat :: Allocable(b) && State(b) == Free
      ensures !Allocable(start) ==> found == Err(EINVAL)
      ensures Allocable(start) && found.Ok? ==>
                && Allocable(found.value) && State(found.value) == Free
                && forall b: nat | Allocable(b) && Passed(start, found.value, b) :: State(b) != Free
      ensures Allocable(start) && found.Err? ==>
                found == Err(ENOSPC) && forall b: nat | Allocable(b) :: State(b) != Free
    {
      if !Allocable(start) {
        return Err(EINVAL);
      }
      hide PassedOver, ScanPast;
      ghost var wrapped := false;
      var search: nat := start;
      while true
        invariant Allocable(search)
        invariant !wrapped ==> start <= search && NoneFree(start, search)
        invariant wrapped ==> search < start && NoneFree(start, BLOCK_COUNT) && NoneFree(FIRST_ALLOCABLE, search)
        decreases !wrapped, BLOCK_COUNT - search
      {
        var hit, next := ScanStep(search);
        if hit {
          return Ok(search);
        }
        if wrapped {
          PastOnlyIfPassedOver(Working(), start, search);
        }
        search := next;
        if search == BLOCK_COUNT {
          search := FIRST_ALLOCABLE;
          wrapped := true;
        }
        if search == start {
          return Err(ENOSPC);
        }
      }
    }

    ghost predicate NoneFree(from: nat, to: nat)
      reads this, roots
      requires Shaped() && FIRST_ALLOCABLE <= from && to <= BLOCK_COUNT
    {
      forall b: nat | from <= b < to :: State(b) != Free
    }

    /** One pass of the loop of RedImapIBlockFindFree(): it looks at one block,
        or passes over a byte whose blocks are all allocated. */
    method ScanStep(search: nat) returns (hit: bool, next: nat)
      requires Shaped() && Allocable(search)
      ensures hit <==> State(search) == Free
      ensures !hit ==> next == ScanPast(Working(), search) && search < next <= BLOCK_COUNT && NoneFree(search, next)
    {
      var idx := search - INODE_TABLE_START;
      MapHolds(Working(), search);
      MapHolds(Committed(), search);
      if idx % 8 == 0 && ByteFull(Working(), idx) {
        next := search + (if 8 <= BLOCK_COUNT - search then 8 else BLOCK_COUNT - search);
        forall b: nat | search <= b < next
          ensures State(b) != Free
        {
          assert Working()[b - INODE_TABLE_START];
        }
        hit := false;
      } else {
        hit, next := !Working()[idx] && !Committed()[idx], search + 1;
      }
    }

    /** RedImapIBlockSet(): refuses to set a bit to the value it has. */
    method RedImapIBlockSet(block: nat, allocate: bool) returns (status: Status)
      requires Shaped() && InMap(block)
      modifies roots, this`readOnly
      ensures Shaped()
      ensures block - INODE_TABLE_START < |old(Working())| &&
              if old(Working())[block - INODE_TABLE_START] == allocate then
                status == Failure(EFUBAR) && readOnly && roots[..] == old(roots[..])
              else
                && status == Success && readOnly == old(readOnly) && roots[1 - cur] == old(roots[1 - cur])
                && roots[cur] == old(roots[cur]).(bits := old(Working())[block - INODE_TABLE_START := allocate])
    {
      MapHolds(Working(), block);
      var offset := block - INODE_TABLE_START;
      if roots[cur].bits[offset] == allocate {
        readOnly := true;
        return Failure(EFUBAR);
      }
      roots[cur] := roots[cur].(bits := roots[cur].bits[offset := allocate]);
      status := Success;
    }

    /** The part of RedImapBlockSet() that keeps the counters. */
    method AdjustCounts(block: nat, allocate: bool)
      requires Shaped() && Allocable(block)
      requires allocate ==> roots[cur].freeBlocks > 0
      modifies roots, this`almostFree
      ensures Shaped()
      ensures roots[1 - cur] == old(roots[1 - cur])
      ensures roots[cur] == old(roots[cur]).(freeBlocks :=
                if allocate then old(roots[cur]).freeBlocks - 1
                else if block - INODE_TABLE_START < |Committed()| && Committed()[block - INODE_TABLE_START] then old(roots[cur]).freeBlocks
                else old(roots[cur]).freeBlocks + 1)
      ensures almostFree == old(almostFree) +
                if !allocate && block - INODE_TABLE_START < |Committed()| && Committed()[block - INODE_TABLE_START] then 1 else 0
    {
      if allocate {
        roots[cur] := roots[cur].(freeBlocks := roots[cur].freeBlocks - 1);
      } else {
        var wasAllocated := RedImapBlockGet(1 - cur, block);
        if wasAllocated.value {
          almostFree := almostFree + 1;
        } else {
          roots[cur] := roots[cur].(freeBlocks := roots[cur].freeBlocks + 1);
        }
      }
    }

    /** RedBufferDiscardRange() of the block, which may be referenced. */
    method DiscardBuffer() returns (status: Status)
      ensures status == Success || status == Failure(EBUSY)
    {
      var referenced: bool := *;
      status := if referenced then Failure(EBUSY) else Success;
    }

    /** The rest of RedImapBlockSet(), for a bit that changes. */
    method ChangeBit(block: nat, allocate: bool) returns (status: Status)
      requires Valid() && !readOnly && InMap(block) && block - INODE_TABLE_START < |Working()| == |Committed()|
      requires Working()[block - INODE_TABLE_START] != allocate
      requires allocate && Allocable(block) ==> roots[cur].freeBlocks > 0
      modifies roots, this`almostFree, this`branched, this`readOnly
      ensures Shaped() && OnDisk() && branched && roots[1 - cur] == old(roots[1 - cur])
      ensures status == Success || (!allocate && status == Failure(EBUSY))
      ensures status == Success <==> !readOnly
      ensures status == Success ==> (Exact() <==> !Miscounts(block, allocate))
      ensures Working() == old(Working())[block - INODE_TABLE_START := allocate]
      ensures roots[cur].allocNext == old(roots[cur].allocNext)
    {
      hide Count, DiskOk, ExactCounts;
      ReadOnlyDiskOk(roots[1 - cur], slots[1 - cur], slots[cur], sequence);
      SetKeepsExact(roots[cur], roots[1 - cur], almostFree, branched, block, allocate);
      status := RedImapIBlockSet(block, allocate);
      branched := true;
      if status.Success? && !allocate {
        status := DiscardBuffer();
        if status.Failure? {
          readOnly := true;
        }
      }
      if status.Success? && block >= FIRST_ALLOCABLE {
        AdjustCounts(block, allocate);
      }
    }

    /** Allocating a block that the committed state uses is counted wrongly. */
    predicate Miscounts(block: nat, allocate: bool)
      reads this, roots
      requires Shaped() && InMap(block)
    {
      MapHolds(Committed(), block);
      allocate && Allocable(block) && Committed()[block - INODE_TABLE_START]
    }

    /** RedImapBlockSet().  The counters stay exact if and only if no block that
        the committed state uses is allocated; and only for such a block can the
        check of the free count refuse a bit that is to change. */
    method RedImapBlockSet(block: nat, allocate: bool) returns (status: Status)
      requires Valid() && !readOnly
      modifies roots, this`almostFree, this`branched, this`readOnly
      ensures Shaped() && OnDisk() && roots[1 - cur] == old(roots[1 - cur])
      ensures !InMap(block) ==>
                && status == Failure(EINVAL) && roots[..] == old(roots[..]) && !readOnly
                && branched == old(branched) && almostFree == old(almostFree)
      ensures InMap(block) ==>
                && block - INODE_TABLE_START < |old(Working())|
                && (old(Working())[block - INODE_TABLE_START] == allocate ==> status == Failure(EFUBAR))
                && (old(Working())[block - INODE_TABLE_START] != allocate ==>
                      if Miscounts(block, allocate) && old(roots[cur]).freeBlocks == 0 then
                        status == Failure(EFUBAR)
                      else
                        && (status == Success || (!allocate && status == Failure(EBUSY)))
                        && Working() == old(Working())[block - INODE_TABLE_START := allocate]
                        && roots[cur].allocNext == old(roots[cur].allocNext))
      ensures status.Success? ==> !readOnly && branched && InMap(block) && (Valid() <==> !Miscounts(block, allocate))
      ensures status.Failure? && InMap(block) ==> readOnly
      ensures status.Failure? ==> Valid()
    {
      if !InMap(block) {
        return Failure(EINVAL);
      }
      hide Count, DiskOk, ExactCounts;
      ReadOnlyDiskOk(roots[1 - cur], slots[1 - cur], slots[cur], sequence);
      FreeCountFits(roots[cur], roots[1 - cur], almostFree, branched, block);
      if block >= FIRST_ALLOCABLE
        && ((allocate && roots[cur].freeBlocks == 0) || (!allocate && roots[cur].freeBlocks >= BLOCKS_ALLOCABLE))
      {
        readOnly := true;
        return Failure(EFUBAR);
      }
      if roots[cur].bits[block - INODE_TABLE_START] != allocate {
        status := ChangeBit(block, allocate);
      } else {
        status := RedImapIBlockSet(block, allocate);
        branched := true;
      }
    }

    /** RedImapAllocBlock(): a block that neither the working nor the committed
        state uses.  With the counters exact, it fails only if none is left. */
    method RedImapAllocBlock() returns (block: Result<nat>)
      requires Valid() && !readOnly
      modifies roots, this`almostFree, this`branched, this`readOnly
      ensures Valid() && !readOnly && roots[1 - cur] == old(roots[1 - cur])
      ensures block == Err(ENOSPC) <==> old(Total(Free)) == 0
      ensures block.Err? ==> block == Err(ENOSPC) && roots[..] == old(roots[..])
      ensures block.Ok? ==>
                && Allocable(block.value) && old(State(block.value)) == Free && State(block.value) == New
                && block.value - INODE_TABLE_START < |old(Working())|
                && Working() == old(Working())[block.value - INODE_TABLE_START := true]
                && roots[cur].allocNext == (if block.value + 1 == BLOCK_COUNT then FIRST_ALLOCABLE else block.value + 1)
      ensures block.Ok? ==>
                forall b: nat | Allocable(b) && Passed(old(roots[cur].allocNext), block.value, b) :: old(State(b)) != Free
    {
      if roots[cur].freeBlocks == 0 {
        return Err(ENOSPC);
      }
      hide Count, DiskOk;
      var free := ScanFree(roots[cur].allocNext);
      MapHolds(Working(), free);
      MapHolds(Committed(), free);
      SetCursor(if free + 1 == BLOCK_COUNT then FIRST_ALLOCABLE else free + 1);
      var status := RedImapBlockSet(free, true);
      block := Ok(free);
    }

    /** The scan of RedImapAllocBlock(): with a free block it finds one, so that
        the branch for a corrupt free count is never taken. */
    method ScanFree(start: nat) returns (free: nat)
      requires Shaped() && Total(Free) > 0 && Allocable(start)
      ensures Allocable(free) && State(free) == Free
      ensures forall b: nat | Allocable(b) && Passed(start, free, b) :: State(b) != Free
    {
      ghost var some := SomeCounted(Working(), Committed(), Free, BLOCK_COUNT);
      assert Allocable(some) && State(some) == Free;
      var found := RedImapIBlockFindFree(start);
      if found.Ok? {
        free := found.value;
      } else {
        assert false;
      }
    }

    /** RedIoWrite() of the working metaroot: it may fail, leaving the block as it
        was or torn; sectors may be written atomically. */
    method WriteMetaRoot(number: SequenceNumber) returns (status: Status)
      requires Shaped()
      modifies slots
      ensures slots[1 - cur] == old(slots[1 - cur])
      ensures slots[cur] == old(slots[cur]) || slots[cur] == Whole(number, roots[cur]) ||
              (slots[cur].Torn? && (ATOMIC_SECTOR_WRITE ==> slots[cur].sectorWhole))
      ensures status.Success? ==> slots[cur] == Whole(number, roots[cur])
      ensures status.Failure? ==> status == Failure(EIO) && !sound
    {
      var fate: nat := *;
      if sound {
        slots[cur] := Whole(number, roots[cur]);
        return Success;
      } else if fate == 0 {
        slots[cur] := Torn(true);
      } else if fate == 1 && !ATOMIC_SECTOR_WRITE {
        slots[cur] := Torn(false);
      } else if fate > 2 {
        slots[cur] := Whole(number, roots[cur]);
        var flushed: bool := *;
        return if flushed then Success else Failure(EIO);
      }
      status := Failure(EIO);
    }

    /** Flushing the buffers and the device: either may fail.  Writing metadata
        uses up sequence numbers. */
    method FlushAll() returns (status: Status)
      modifies this`sequence
      ensures sequence >= old(sequence)
      ensures status.Failure? ==> !sound && status.error in {EIO, EINVAL, EFUBAR}
    {
      var error: Errno :| error in {EIO, EINVAL, EFUBAR};
      var number: SequenceNumber :| sequence <= number;
      sequence := number;
      var good: bool := *;
      status := if good || sound then Success else Failure(error);
    }

    /** RedVolTransact(): the working state becomes the committed state, at once
        in memory and on disk, or the volume becomes read-only. */
    method RedVolTransact() returns (status: Status)
      requires Valid() && !readOnly
      modifies this`cur, this`almostFree, this`branched, this`readOnly, this`sequence, roots, slots
      ensures Valid() && Working() == old(Working())
      ensures status.Success? <==> !readOnly
      ensures status.Success? ==> Committed() == old(Working()) && !branched
      ensures status.Success? && old(branched) ==> roots[cur].freeBlocks == old(Total(Free) + Total(AlmostFree)) && almostFree == 0
      ensures status.Failure? ==> roots[1 - cur] == old(roots[1 - cur]) && cur == old(cur)
      ensures slots[1 - cur].root == roots[1 - cur]
      ensures status.Failure? ==> almostFree == 0 && (Exact() <==> old(almostFree) == 0)
      ensures status.Failure? ==> roots[cur].freeBlocks == old(Total(Free) + Total(AlmostFree))
      ensures old(branched) && old(sequence) == UINT64_MAX ==> status.Failure?
      ensures sound && status.Failure? ==> status == Failure(EFUBAR) && sequence == UINT64_MAX
      ensures !old(branched) ==> status.Success? && roots[..] == old(roots[..]) && slots[..] == old(slots[..])
    {
      status := Success;
      hide DiskOk, ExactCounts, Count;
      Transacting(roots[cur], roots[1 - cur], slots[1 - cur], slots[cur], sequence, almostFree, branched);
      if branched {
        var root := roots[cur].(freeBlocks := roots[cur].freeBlocks + almostFree);
        roots[cur] := root;
        almostFree := 0;
        status := WriteOut(old(roots[cur]), old(almostFree));
        if status.Success? {
          roots[1 - cur] := root;
          cur := 1 - cur;
          branched := false;
        } else {
          readOnly := true;
        }
      }
    }

    /** Flush, number and write the working metaroot, which was `working` before
        its almost free blocks were counted as free. */
    method WriteOut(ghost working: MetaRoot, ghost almost: nat) returns (status: Status)
      requires Shaped() && DiskOk(roots[1 - cur], slots[1 - cur], slots[cur], sequence, false)
      requires ExactCounts(working, roots[1 - cur], almost, true)
      requires roots[cur] == working.(freeBlocks := working.freeBlocks + almost)
      modifies this`sequence, slots
      ensures slots[1 - cur] == old(slots[1 - cur])
      ensures status.Success? ==> slots[cur].Whole? && slots[cur].root == roots[cur]
      ensures old(sequence) == UINT64_MAX ==> status.Failure?
      ensures sound && status.Failure? ==> status == Failure(EFUBAR) && sequence == UINT64_MAX
      ensures if status.Success? then DiskOk(roots[cur], slots[cur], slots[1 - cur], sequence, false)
              else DiskOk(roots[1 - cur], slots[1 - cur], slots[cur], sequence, true)
    {
      hide DiskOk, ExactCounts;
      ghost var first := sequence;
      status := FlushAll();
      LaterDiskOk(roots[1 - cur], slots[1 - cur], slots[cur], first, sequence);
      Transacting(working, roots[1 - cur], slots[1 - cur], slots[cur], sequence, almost, true);
      if status.Success? {
        if sequence == UINT64_MAX {
          status := Failure(EFUBAR);
        } else {
          var number := sequence;
          sequence := sequence + 1;
          status := WriteMetaRoot(number);
        }
      }
    }

    /** RedVolMountMaster() and RedVolMountMetaroot(): take up the newer of the
        metaroots that can be read and are whole. */
    method MountMetaroot(masterSequence: SequenceNumber, read0: bool, read1: bool, forReading: bool) returns (status: Status)
      requires Shaped() && OnDisk()
      modifies this`cur, this`almostFree, this`branched, this`readOnly, this`sequence, roots
      ensures status == MountStatus(slots[0], slots[1], read0, read1, masterSequence)
      ensures status.Success? ==>
                && Shaped() && Exact() && readOnly == forReading && !branched && slots[1 - cur].Whole?
                && Newest(slots[0], slots[1], read0, read1) == Ok(1 - cur)
                && roots[cur] == roots[1 - cur] == slots[1 - cur].root
                && (Valid() <==> Older(slots[1 - cur], slots[cur], sequence, forReading))
      ensures status.Success? && (if old(cur) == 0 then read1 else read0) ==>
                || roots[cur] == old(roots[1 - cur])
                || (old(readOnly) && old(slots[cur]).Whole? && roots[cur] == old(slots[cur]).root)
      ensures status.Success? && !(if old(cur) == 0 then read1 else read0) ==>
                && (if old(cur) == 0 then read0 else read1)
                && old(slots[cur]).Whole? && roots[cur] == old(slots[cur]).root
      ensures status.Success? && read0 && read1 ==>
                && Valid()
                && (roots[cur] == old(roots[1 - cur]) || (old(readOnly) && old(slots[cur]).Whole? && roots[cur] == old(slots[cur]).root))
    {
      hide DiskOk, ExactCounts, Count, Newest, Older, MountStatus;
      SlotsMount(roots[1 - cur], slots[1 - cur], slots[cur], sequence, readOnly);
      ghost var was := roots[1 - cur];
      ghost var wasCur, wasSequence, wasReadOnly := cur, sequence, readOnly;
      readOnly := forReading;
      var chosen := Choose(masterSequence, read0, read1);
      if chosen.Err? {
        return Failure(chosen.error);
      }
      Mounting(was, wasCur, slots[0], slots[1], wasSequence, wasReadOnly, chosen.value, sequence, forReading);
      TakeUp(chosen.value);
      status := Success;
    }

    /** Choose a metaroot, and the next sequence number. */
    method Choose(masterSequence: SequenceNumber, read0: bool, read1: bool) returns (chosen: Result<nat>)
      requires slots.Length == 2
      modifies this`sequence
      ensures MountStatus(slots[0], slots[1], read0, read1, masterSequence) == if chosen.Ok? then Success else Failure(chosen.error)
      ensures chosen.Ok? ==>
                && chosen == Newest(slots[0], slots[1], read0, read1) && chosen.value < 2
                && slots[chosen.value].Whole? && slots[chosen.value].sequence < sequence
    {
      hide Newest;
      sequence := masterSequence;
      chosen := Newest(slots[0], slots[1], read0, read1);
      if chosen.Ok? {
        if slots[chosen.value].sequence > sequence {
          sequence := slots[chosen.value].sequence;
        }
        if sequence == UINT64_MAX {
          chosen := Err(EFUBAR);
        } else {
          sequence := sequence + 1;
        }
      }
    }

    /** The metaroot of block `b` becomes the working one and the committed one. */
    method TakeUp(b: nat)
      requires roots.Length == 2 && slots.Length == 2 && b < 2 && slots[b].Whole?
      requires Fits(slots[b].root.bits) && Allocable(slots[b].root.allocNext)
      modifies this`cur, this`almostFree, this`branched, roots
      ensures Shaped() && cur == 1 - b && roots[0] == roots[1] == slots[b].root && almostFree == 0 && !branched
    {
      almostFree, branched := 0, false;
      roots[b] := slots[b].root;
      roots[1 - b] := roots[b];
      cur := 1 - b;
    }

    /** RedVolRollback(): the working state becomes the committed state again,
        if the metaroots can be read. */
    method RedVolRollback(masterSequence: SequenceNumber, read0: bool, read1: bool) returns (status: Status)
      requires Valid() && !readOnly
      modifies this`cur, this`almostFree, this`branched, this`readOnly, this`sequence, roots
      ensures !old(branched) ==> status == Success && roots[..] == old(roots[..])
      ensures old(branched) && status.Success? ==>
                && Shaped() && Exact() && !readOnly && !branched && slots[1 - cur].Whole?
                && Newest(slots[0], slots[1], read0, read1) == Ok(1 - cur)
                && roots[cur] == roots[1 - cur] == slots[1 - cur].root
                && (Valid() <==> Older(slots[1 - cur], slots[cur], sequence, false))
      ensures status.Success? && read0 && read1 ==>
                Valid() && !readOnly && !branched && Working() == Committed() == old(Committed())
      ensures status.Failure? ==> readOnly
    {
      hide Newest, Older, DiskOk, ExactCounts;
      status := Success;
      if branched {
        status := DiscardBuffer();
        if status.Success? {
          status := MountMetaroot(masterSequence, read0, read1, false);
        }
        if status.Failure? {
          readOnly := true;
        }
      } else {
        Unbranched(roots[cur], roots[1 - cur], almostFree);
      }
    }

    method SetCursor(next: nat)
      requires Valid() && !readOnly && Allocable(next) && Total(Free) > 0
      modifies roots, this`branched
      ensures Valid() && roots[1 - cur] == old(roots[1 - cur]) && roots[cur] == old(roots[cur]).(allocNext := next)
    {
      branched := true;
      roots[cur] := roots[cur].(allocNext := next);
    }
  }

  /** The free count is not zero if a block is free, and not that of all blocks
      if one is not. */
  lemma FreeCountFits(working: MetaRoot, committed: MetaRoot, almostFree: nat, branched: bool, block: nat)
    requires ExactCounts(working, committed, almostFree, branched) && InMap(block)
    ensures block - INODE_TABLE_START < |working.bits|
    ensures Allocable(block) && BlockState(working.bits, committed.bits, block) == Free ==> working.freeBlocks > 0
    ensures Allocable(block) && BlockState(working.bits, committed.bits, block) != Free ==> working.freeBlocks < BLOCKS_ALLOCABLE
  {
    MapHolds(working.bits, block);
    if Allocable(block) {
      CountedSome(working.bits, committed.bits, block, BLOCK_COUNT);
      StatesAddUp(working.bits, committed.bits, BLOCK_COUNT);
    }
  }

  /** How RedImapBlockSet() changes the counters: they stay exact if and only if
      no block that the committed state uses is allocated. */
  lemma SetKeepsExact(working: MetaRoot, committed: MetaRoot, almostFree: nat, branched: bool, block: nat, allocate: bool)
    requires ExactCounts(working, committed, almostFree, branched) && InMap(block)
    requires block - INODE_TABLE_START < |working.bits| && working.bits[block - INODE_TABLE_START] != allocate
    requires allocate && Allocable(block) ==> working.freeBlocks > 0
    ensures var o := committed.bits[block - INODE_TABLE_START];
            var free := working.freeBlocks + (if !Allocable(block) then 0 else if allocate then -1 else if o then 0 else 1);
            var almost := almostFree + (if Allocable(block) && !allocate && o then 1 else 0);
            ExactCounts(working.(bits := working.bits[block - INODE_TABLE_START := allocate], freeBlocks := free), committed, almost, true)
            <==> !(allocate && Allocable(block) && o)
  {
    CountsAfterSet(working.bits, committed.bits, block, allocate);
  }

  /** The counts after a bit has changed. */
  lemma CountsAfterSet(working: Bitmap, committed: Bitmap, block: nat, allocate: bool)
    requires Fits(working) && Fits(committed) && InMap(block) && block - INODE_TABLE_START < |working|
    requires working[block - INODE_TABLE_START] != allocate
    ensures BLOCK_COUNT <= INODE_TABLE_START + |working|
    ensures var after := working[block - INODE_TABLE_START := allocate];
            var o := committed[block - INODE_TABLE_START];
            && Count(after, committed, Free, BLOCK_COUNT) == Count(working, committed, Free, BLOCK_COUNT)
                 + (if Allocable(block) && !o then (if allocate then -1 else 1) else 0)
            && Count(after, committed, AlmostFree, BLOCK_COUNT) == Count(working, committed, AlmostFree, BLOCK_COUNT)
                 + (if Allocable(block) && o then (if allocate then -1 else 1) else 0)
  {
    MapHolds(working, BLOCK_COUNT - 1);
    CountSet(working, committed, Free, BLOCK_COUNT, block, allocate);
    CountSet(working, committed, AlmostFree, BLOCK_COUNT, block, allocate);
  }

  /** After a commit the clear bits are those of free and almost free blocks. */
  lemma CountsAfterCommit(working: Bitmap, committed: Bitmap)
    requires Fits(working) && Fits(committed)
    ensures BLOCK_COUNT <= INODE_TABLE_START + |working|
    ensures Count(working, working, Free, BLOCK_COUNT)
              == Count(working, committed, Free, BLOCK_COUNT) + Count(working, committed, AlmostFree, BLOCK_COUNT)
    ensures Count(working, working, AlmostFree, BLOCK_COUNT) == 0
  {
    MapHolds(working, BLOCK_COUNT - 1);
    CountCommitted(working, committed, BLOCK_COUNT);
  }

  /** The four states make up the allocable blocks. */
  lemma StatesMakeUpVolume(working: Bitmap, committed: Bitmap)
    requires Fits(working) && Fits(committed)
    ensures BLOCK_COUNT <= INODE_TABLE_START + |working|
    ensures Count(working, committed, Free, BLOCK_COUNT) + Count(working, committed, AlmostFree, BLOCK_COUNT)
            + Count(working, committed, Used, BLOCK_COUNT) + Count(working, committed, New, BLOCK_COUNT) == BLOCKS_ALLOCABLE
  {
    MapHolds(working, BLOCK_COUNT - 1);
    StatesAddUp(working, committed, BLOCK_COUNT);
  }

  lemma BlankCounts(bits: Bitmap)
    requires Fits(bits) && forall k | 0 <= k < |bits| :: !bits[k]
    ensures BLOCK_COUNT <= INODE_TABLE_START + |bits|
    ensures Count(bits, bits, Free, BLOCK_COUNT) == BLOCKS_ALLOCABLE && Count(bits, bits, AlmostFree, BLOCK_COUNT) == 0
  {
    MapHolds(bits, BLOCK_COUNT - 1);
    StatesAddUp(bits, bits, BLOCK_COUNT);
    if Count(bits, bits, Used, BLOCK_COUNT) > 0 {
      var b := SomeCounted(bits, bits, Used, BLOCK_COUNT);
    }
    if Count(bits, bits, New, BLOCK_COUNT) > 0 {
      var b := SomeCounted(bits, bits, New, BLOCK_COUNT);
    }
    if Count(bits, bits, AlmostFree, BLOCK_COUNT) > 0 {
      var b := SomeCounted(bits, bits, AlmostFree, BLOCK_COUNT);
    }
  }

  /** Block `b` comes before `found` in a scan from `start`. */
  predicate Passed(start: nat, found: nat, b: nat) {
    if start <= found then start <= b < found else start <= b || b < found
  }
}
